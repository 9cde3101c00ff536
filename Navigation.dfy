/** The navigation controls: `buildTemplate` (content/index.js:116-127) as a record plus the
    markup it renders, and the placement pass `updateMultiComments` (92-100) that gives the
    `k`-th post of each indexed author the template for position `k` and highlights the
    viewer's own posts. */
module Navigation {
  import opened Wrappers
  import opened Text
  import opened Comments

  /** The attributes of the trigger span, as the strings written into the markup:
      `data-commentid` and `data-userid`. */
  datatype Trigger = Trigger(commentId: string, userId: string)

  /** The controls inserted into one byline: the target of the previous arrow (`None` when
      the arrow is inert text), the trigger of the picker, the target of the next arrow. */
  datatype Nav = Nav(prev: Option<string>, trigger: Trigger, next: Option<string>)

  /** `list[i]` used as a condition in the template: outside the list the read is
      `undefined`, and an empty string is falsy too; both leave the arrow inert. */
  function Neighbour(list: seq<string>, i: int): Option<string> {
    if 0 <= i < |list| && list[i] != "" then Some(list[i]) else None
  }

  /** `buildTemplate(list, userId, index)`. */
  function BuildTemplate(list: seq<string>, userId: string, index: nat): (nav: Nav)
    ensures nav.prev.Some? <==> 0 < index <= |list| && list[index - 1] != ""
    ensures nav.prev.Some? ==> nav.prev.value == list[index - 1]
    ensures nav.next.Some? <==> index + 1 < |list| && list[index + 1] != ""
    ensures nav.next.Some? ==> nav.next.value == list[index + 1]
    ensures nav.trigger.userId == userId
    ensures ParseInt(nav.trigger.commentId) == Some(index)
  {
    ParseIntOfNatToString(index);
    Nav(Neighbour(list, index - 1), Trigger(NatToString(index), userId), Neighbour(list, index + 1))
  }

  /** For a position inside a list of non-empty permalinks, the previous arrow is live
      except at the first position and the next arrow except at the last. */
  lemma TemplateBoundaries(list: seq<string>, userId: string, index: nat)
    requires index < |list|
    requires forall i :: 0 <= i < |list| ==> list[i] != ""
    ensures BuildTemplate(list, userId, index).prev.Some? <==> index > 0
    ensures BuildTemplate(list, userId, index).next.Some? <==> index < |list| - 1
  {
  }

  // ---------------------------------------------------------------------------------------------
  // The markup of the template
  // ---------------------------------------------------------------------------------------------

  /** A piece of markup: literal text, an opening tag with its attributes, a closing tag. */
  datatype Token = Content(s: string) | StartTag(tag: string, attrs: seq<(string, string)>) | EndTag(tag: string)

  const Indent: string := "\n      "

  /** `Navigation [` and the opening of the `navprevious` span. */
  const PreviousHead: seq<Token> :=
    [Content("Navigation [" + Indent), StartTag("span", [("class", "navprevious")]), Content(Indent)]

  /** The previous arrow: a link followed by `</span>` when live, the bare character when
      inert, which closes nothing. */
  function PreviousArrow(prev: Option<string>): (tokens: seq<Token>)
    ensures Unclosed(tokens, "span") == if prev.Some? then -1 else 0
  {
    match prev
    case Some(p) =>
      var ts := [StartTag("a", [("href", p)]), Content("\U{AB}"), EndTag("a"), EndTag("span")];
      UnclosedOfFour(ts[0], ts[1], ts[2], ts[3], "span");
      ts
    case None =>
      UnclosedCons(Content("\U{AB}"), [], "span");
      assert [Content("\U{AB}")] + [] == [Content("\U{AB}")];
      [Content("\U{AB}")]
  }

  /** From `Navigation [` to the end of the previous arrow: the `navprevious` span is closed
      exactly when the previous arrow is live. */
  function PreviousMarkup(nav: Nav): (tokens: seq<Token>)
    ensures Unclosed(tokens, "span") == if nav.prev.Some? then 0 else 1
  {
    UnclosedOfThree(PreviousHead[0], PreviousHead[1], PreviousHead[2], "span");
    UnclosedAppend(PreviousHead, PreviousArrow(nav.prev), "span");
    PreviousHead + PreviousArrow(nav.prev)
  }

  /** The trigger span, which closes itself. */
  function TriggerMarkup(t: Trigger): (tokens: seq<Token>)
    ensures Unclosed(tokens, "span") == 0
  {
    var ts := [ Content(Indent),
                StartTag("span", [("class", "pickerButton"), ("data-commentid", t.commentId), ("data-userid", t.userId)]),
                Content("\U{2261}"),
                EndTag("span") ];
    UnclosedOfFour(ts[0], ts[1], ts[2], ts[3], "span");
    ts
  }

  const NextHead: seq<Token> := [Content(Indent), StartTag("span", [("class", "navnext")]), Content(Indent)]

  /** The next arrow: a link when live, the bare character when inert; neither touches a span. */
  function NextArrow(next: Option<string>): (tokens: seq<Token>)
    ensures Unclosed(tokens, "span") == 0
  {
    match next
    case Some(n) =>
      var ts := [StartTag("a", [("href", n)]), Content("\U{BB}"), EndTag("a")];
      UnclosedOfThree(ts[0], ts[1], ts[2], "span");
      ts
    case None =>
      UnclosedCons(Content("\U{BB}"), [], "span");
      assert [Content("\U{BB}")] + [] == [Content("\U{BB}")];
      [Content("\U{BB}")]
  }

  /** `</span>` of the `navnext` span and the closing bracket. */
  const NextTail: seq<Token> := [Content(Indent), EndTag("span"), Content("\n    ]")]

  /** The next arrow inside its own span, which is closed whether or not the arrow is live. */
  function NextMarkup(nav: Nav): (tokens: seq<Token>)
    ensures Unclosed(tokens, "span") == 0
  {
    UnclosedOfThree(NextHead[0], NextHead[1], NextHead[2], "span");
    UnclosedOfThree(NextTail[0], NextTail[1], NextTail[2], "span");
    UnclosedAppend(NextHead, NextArrow(nav.next), "span");
    UnclosedAppend(NextHead + NextArrow(nav.next), NextTail, "span");
    NextHead + NextArrow(nav.next) + NextTail
  }

  /** The whole template. Its spans balance only when the previous arrow is live. When it is
      inert, the `navprevious` span is still open where the trigger span starts, so the
      trigger and the next arrow end up inside it. */
  function Markup(nav: Nav): (tokens: seq<Token>)
    ensures Unclosed(tokens, "span") == if nav.prev.Some? then 0 else 1
  {
    UnclosedAppend(PreviousMarkup(nav), TriggerMarkup(nav.trigger), "span");
    UnclosedAppend(PreviousMarkup(nav) + TriggerMarkup(nav.trigger), NextMarkup(nav), "span");
    PreviousMarkup(nav) + TriggerMarkup(nav.trigger) + NextMarkup(nav)
  }

  /** What one token does to the number of open `tag` elements. */
  function Delta(t: Token, tag: string): int {
    match t
    case StartTag(name, _) => if name == tag then 1 else 0
    case EndTag(name) => if name == tag then -1 else 0
    case Content(_) => 0
  }

  /** Opening minus closing tags named `tag`: how many such elements are still open after
      the tokens. */
  function Unclosed(tokens: seq<Token>, tag: string): int
    decreases |tokens|
  {
    if tokens == [] then 0 else Delta(tokens[0], tag) + Unclosed(tokens[1..], tag)
  }

  lemma {:induction false} UnclosedAppend(a: seq<Token>, b: seq<Token>, tag: string)
    ensures Unclosed(a + b, tag) == Unclosed(a, tag) + Unclosed(b, tag)
    decreases |a|
  {
    if a != [] {
      UnclosedAppend(a[1..], b, tag);
      assert (a + b)[0] == a[0];
      assert (a + b)[1..] == a[1..] + b;
    } else {
      assert a + b == b;
    }
  }

  lemma UnclosedCons(t: Token, rest: seq<Token>, tag: string)
    ensures Unclosed([t] + rest, tag) == Delta(t, tag) + Unclosed(rest, tag)
  {
    assert ([t] + rest)[0] == t;
    assert ([t] + rest)[1..] == rest;
  }

  lemma UnclosedOfThree(t0: Token, t1: Token, t2: Token, tag: string)
    ensures Unclosed([t0, t1, t2], tag) == Delta(t0, tag) + Delta(t1, tag) + Delta(t2, tag)
  {
    UnclosedCons(t2, [], tag);
    assert [t2] + [] == [t2];
    UnclosedCons(t1, [t2], tag);
    assert [t1] + [t2] == [t1, t2];
    UnclosedCons(t0, [t1, t2], tag);
    assert [t0] + [t1, t2] == [t0, t1, t2];
  }

  lemma UnclosedOfFour(t0: Token, t1: Token, t2: Token, t3: Token, tag: string)
    ensures Unclosed([t0, t1, t2, t3], tag) == Delta(t0, tag) + Delta(t1, tag) + Delta(t2, tag) + Delta(t3, tag)
  {
    UnclosedOfThree(t1, t2, t3, tag);
    UnclosedCons(t0, [t1, t2, t3], tag);
    assert [t0] + [t1, t2, t3] == [t0, t1, t2, t3];
  }

  /** Every author's first post has an inert previous arrow, so the markup of its controls
      leaves the `navprevious` span open. */
  lemma FirstPostLeavesSpanOpen(list: seq<string>, userId: string)
    ensures Unclosed(Markup(BuildTemplate(list, userId, 0)), "span") == 1
  {
  }

  /** The previous arrow with `</span>` after the arrow in both cases, as the other two
      spans of the template have it. */
  function ClosedPreviousMarkup(nav: Nav): seq<Token> {
    PreviousHead
    + match nav.prev
      case Some(p) => [StartTag("a", [("href", p)]), Content("\U{AB}"), EndTag("a"), EndTag("span")]
      case None => [Content("\U{AB}"), EndTag("span")]
  }

  function ClosedMarkup(nav: Nav): seq<Token> {
    ClosedPreviousMarkup(nav) + TriggerMarkup(nav.trigger) + NextMarkup(nav)
  }

  /** With the span closed in both cases the spans of the controls always balance, and the
      markup is unchanged wherever the previous arrow is live. */
  lemma ClosedMarkupBalances(nav: Nav)
    ensures Unclosed(ClosedMarkup(nav), "span") == 0
    ensures nav.prev.Some? ==> ClosedMarkup(nav) == Markup(nav)
  {
    if nav.prev.None? {
      var head := PreviousHead;
      UnclosedOfThree(head[0], head[1], head[2], "span");
      var prev := [Content("\U{AB}"), EndTag("span")];
      UnclosedCons(prev[0], [prev[1]], "span");
      UnclosedCons(prev[1], [], "span");
      assert [prev[1]] + [] == [prev[1]];
      assert [prev[0]] + [prev[1]] == prev;
      UnclosedAppend(head, prev, "span");
      UnclosedAppend(ClosedPreviousMarkup(nav), TriggerMarkup(nav.trigger), "span");
      UnclosedAppend(ClosedPreviousMarkup(nav) + TriggerMarkup(nav.trigger), NextMarkup(nav), "span");
    } else {
      assert ClosedPreviousMarkup(nav) == PreviousMarkup(nav);
      assert ClosedMarkup(nav) == Markup(nav);
    }
  }

  // ---------------------------------------------------------------------------------------------
  // updateMultiComments
  // ---------------------------------------------------------------------------------------------

  /** The controls post `j` receives: for a post tagged with an indexed author, the template
      for the number of that author's posts before it. */
  function Placed(index: UserComments, tags: seq<Option<string>>, j: nat): (r: Option<Nav>)
    requires j < |tags|
    ensures r.Some? <==> tags[j].Some? && tags[j].value in index
    ensures r.Some? ==>
              var u := tags[j].value;
              && Count(tags[..j], u) < Count(tags, u)
              && r.value.trigger.userId == u
              && ParseInt(r.value.trigger.commentId) == Some(Count(tags[..j], u))
  {
    match tags[j]
    case Some(u) =>
      if u in index then
        CountBefore(tags, j, u);
        Some(BuildTemplate(index[u], u, Count(tags[..j], u)))
      else None
    case None => None
  }

  /** `updateMultiComments(index, viewer)`: for every indexed author, the author's posts are
      visited in document order (the `data-userid` selector) with a running position; each
      gets the template for that position, and is highlighted when the author is the viewer.
      The result gives the controls and the highlight of every post. */
  method UpdateMultiComments(index: UserComments, tags: seq<Option<string>>, viewer: string)
    returns (navs: seq<Option<Nav>>, highlighted: seq<bool>)
    ensures |navs| == |tags| && |highlighted| == |tags|
    ensures forall j :: 0 <= j < |tags| ==> navs[j] == Placed(index, tags, j)
    ensures forall j :: 0 <= j < |tags| ==> (highlighted[j] <==> tags[j] == Some(viewer) && viewer in index)
  {
    navs := seq(|tags|, _ => None);
    highlighted := seq(|tags|, _ => false);
    var users := index.Keys;
    while users != {}
      invariant users <= index.Keys
      invariant |navs| == |tags| && |highlighted| == |tags|
      invariant forall j :: 0 <= j < |tags| ==>
        navs[j] == if tags[j].Some? && tags[j].value !in users then Placed(index, tags, j) else None
      invariant forall j :: 0 <= j < |tags| ==>
        (highlighted[j] <==> tags[j] == Some(viewer) && viewer in index && viewer !in users)
      decreases users
    {
      var u :| u in users;
      navs, highlighted := UpdateAuthorComments(index, tags, viewer, u, navs, highlighted);
      users := users - {u};
    }
  }

  /** The body of the loop over authors in `updateMultiComments`: the posts tagged with `u`,
      in document order, receive the templates for positions 0, 1, 2, ... and are
      highlighted when `u` is the viewer; no other post changes. */
  method UpdateAuthorComments(index: UserComments, tags: seq<Option<string>>, viewer: string, u: string,
                              navs: seq<Option<Nav>>, highlighted: seq<bool>)
    returns (navs': seq<Option<Nav>>, highlighted': seq<bool>)
    requires u in index
    requires |navs| == |tags| && |highlighted| == |tags|
    ensures |navs'| == |tags| && |highlighted'| == |tags|
    ensures forall i :: 0 <= i < |tags| ==>
      navs'[i] == if tags[i] == Some(u) then Placed(index, tags, i) else navs[i]
    ensures forall i :: 0 <= i < |tags| ==>
      highlighted'[i] == if tags[i] == Some(u) && u == viewer then true else highlighted[i]
  {
    navs', highlighted' := navs, highlighted;
    var k := 0;
    for j := 0 to |tags|
      invariant k == Count(tags[..j], u)
      invariant |navs'| == |tags| && |highlighted'| == |tags|
      invariant forall i :: 0 <= i < |tags| ==>
        navs'[i] == if tags[i] == Some(u) && i < j then Placed(index, tags, i) else navs[i]
      invariant forall i :: 0 <= i < |tags| ==>
        highlighted'[i] == if tags[i] == Some(u) && u == viewer && i < j then true else highlighted[i]
    {
      CountStep(tags, j, u);
      if tags[j] == Some(u) {
        PlacedAt(index, tags, j, u);
        if viewer == u {
          highlighted' := highlighted'[j := true];
        }
        navs' := navs'[j := Some(BuildTemplate(index[u], u, k))];
        k := k + 1;
      }
    }
  }

  /** Counting one more tag adds one exactly when that tag is `u`. */
  lemma CountStep(tags: seq<Option<string>>, j: nat, u: string)
    requires j < |tags|
    ensures Count(tags[..j + 1], u) == Count(tags[..j], u) + (if tags[j] == Some(u) then 1 else 0)
  {
    assert tags[..j + 1][..j] == tags[..j];
  }

  /** A post tagged with an indexed author gets the template for its rank among that author's posts. */
  lemma PlacedAt(index: UserComments, tags: seq<Option<string>>, j: nat, u: string)
    requires j < |tags| && tags[j] == Some(u) && u in index
    ensures Placed(index, tags, j) == Some(BuildTemplate(index[u], u, Count(tags[..j], u)))
  {
  }

  // ---------------------------------------------------------------------------------------------
  // From the posts to the controls
  // ---------------------------------------------------------------------------------------------

  /** A post receives controls exactly when its author wrote two or more posts on the page.
      The position in its controls is valid for the author's list, that list entry is the
      post's own permalink, the arrows point to the author's neighbouring entries, and the
      trigger reads back as that position and author. */
  lemma PlacementOfPost(posts: seq<Post>, j: nat)
    requires AllWellFormed(posts) && j < |posts|
    ensures Placed(AuthorIndex(posts), Tags(posts), j).Some? <==>
            AuthorOf(posts[j]).Some? && Count(Tags(posts), AuthorOf(posts[j]).value) >= 2
    ensures Placed(AuthorIndex(posts), Tags(posts), j).Some? ==>
            var u := AuthorOf(posts[j]).value;
            var list := AuthorIndex(posts)[u];
            var k := Count(Tags(posts)[..j], u);
            && k < |list|
            && list[k] == posts[j].links[1]
            && Placed(AuthorIndex(posts), Tags(posts), j) == Some(BuildTemplate(list, u, k))
  {
    var index, tags := AuthorIndex(posts), Tags(posts);
    if AuthorOf(posts[j]).Some? {
      var u := AuthorOf(posts[j]).value;
      IndexHoldsRepeatAuthors(posts, u);
      if u in index {
        assert tags[..j] == Tags(posts[..j]);
        assert posts[..j] == posts[..j];
        PermalinksCount(posts[..j], u);
        PermalinkOfPost(posts, j, u);
      }
    }
  }

  /** A's middle post has both arrows live, the first an inert previous arrow and the last an
      inert next arrow; B's and C's posts get no controls. */
  lemma ScenarioControls(a: string, b: string, c: string, ps: seq<string>)
    requires ScenarioIds(a, b, c, ps)
    ensures
      var posts := ScenarioPosts(a, b, c, ps);
      var index, tags := AuthorIndex(posts), Tags(posts);
      && Placed(index, tags, 0) == Some(BuildTemplate([ps[0], ps[2], ps[3]], a, 0))
      && Placed(index, tags, 2) == Some(BuildTemplate([ps[0], ps[2], ps[3]], a, 1))
      && Placed(index, tags, 3) == Some(BuildTemplate([ps[0], ps[2], ps[3]], a, 2))
      && Placed(index, tags, 0).value.prev == None && Placed(index, tags, 0).value.next == Some(ps[2])
      && Placed(index, tags, 2).value.prev == Some(ps[0]) && Placed(index, tags, 2).value.next == Some(ps[3])
      && Placed(index, tags, 3).value.prev == Some(ps[2]) && Placed(index, tags, 3).value.next == None
      && Placed(index, tags, 1) == None
      && Placed(index, tags, 4) == None
  {
    var posts := ScenarioPosts(a, b, c, ps);
    ScenarioTags(a, b, c, ps);
    ScenarioIndex(a, b, c, ps);
    var tags := Tags(posts);
    assert tags[..3][..2][..1][..0] == [];
    assert tags[..3][..2][..1] == tags[..1];
    assert tags[..3][..2] == tags[..2];
    assert Count(tags[..1], a) == 1;
    assert Count(tags[..2], a) == 1;
    assert Count(tags[..3], a) == 2;
  }
}
