/** The author index: `wrangleComments` (content/index.js:56-69) and `reduceUserComments`
    (77-82). A post is the list of hrefs of the links in its byline (`.smallcopy a`); the
    author id is the last `/`-separated segment of the first href, the permalink is the second
    href. The `data-userid` tag the loop writes on each post is returned as a sequence. */
module Comments {
  import opened Wrappers
  import opened Text

  /** One `.comments` element, reduced to the hrefs of its byline links in document order. */
  datatype Post = Post(links: seq<string>)

  /** The dictionary from author id to that author's permalinks. */
  type UserComments = map<string, seq<string>>

  /** What the script needs of a post: a byline with links has at least two of them, since the
      second is read without a check. */
  predicate WellFormed(p: Post) {
    |p.links| != 1
  }

  predicate AllWellFormed(posts: seq<Post>) {
    forall i :: 0 <= i < |posts| ==> WellFormed(posts[i])
  }

  /** The author id read from a post, `None` when its byline has no links (the post is skipped
      and not tagged). */
  function AuthorOf(p: Post): (id: Option<string>)
    ensures id.None? <==> |p.links| == 0
  {
    if |p.links| == 0 then None
    else
      var parts := Split(p.links[0], '/');
      Some(parts[|parts| - 1])
  }

  /** The author id is what follows the last `/` of the first byline href (all of it when it
      has no `/`). */
  lemma AuthorIsLastSegment(p: Post)
    requires |p.links| > 0
    ensures AuthorOf(p).Some? && IsLastPart(p.links[0], '/', AuthorOf(p).value)
  {
    LastPartOfSplit(p.links[0], '/');
  }

  /** The `data-userid` tag of every post, `None` for an untagged one. */
  function Tags(posts: seq<Post>): (tags: seq<Option<string>>)
    ensures |tags| == |posts|
    ensures forall i :: 0 <= i < |posts| ==> tags[i] == AuthorOf(posts[i])
  {
    seq(|posts|, i requires 0 <= i < |posts| => AuthorOf(posts[i]))
  }

  /** The number of posts tagged with `u`. */
  function Count(tags: seq<Option<string>>, u: string): nat
    decreases |tags|
  {
    if tags == [] then 0
    else Count(tags[..|tags| - 1], u) + (if tags[|tags| - 1] == Some(u) then 1 else 0)
  }

  /** A post tagged with `u` is preceded by fewer of `u`'s posts than `u` wrote in all. */
  lemma {:induction false} CountBefore(tags: seq<Option<string>>, j: nat, u: string)
    requires j < |tags| && tags[j] == Some(u)
    ensures Count(tags[..j], u) < Count(tags, u)
    decreases |tags|
  {
    var n := |tags| - 1;
    if j < n {
      CountBefore(tags[..n], j, u);
      assert tags[..n][..j] == tags[..j];
    } else {
      assert tags[..n] == tags[..j];
    }
  }

  /** The permalinks of the posts by `u`, in document order. */
  function Permalinks(posts: seq<Post>, u: string): seq<string>
    requires AllWellFormed(posts)
    decreases |posts|
  {
    if posts == [] then []
    else
      var p := posts[|posts| - 1];
      Permalinks(posts[..|posts| - 1], u) + (if AuthorOf(p) == Some(u) then [p.links[1]] else [])
  }

  /** The author ids of the posts. */
  function Authors(posts: seq<Post>): set<string> {
    set i | 0 <= i < |posts| && AuthorOf(posts[i]).Some? :: AuthorOf(posts[i]).value
  }

  /** The index the script builds: every author with two or more posts, with their permalinks. */
  function AuthorIndex(posts: seq<Post>): UserComments
    requires AllWellFormed(posts)
  {
    map u | u in Authors(posts) && |Permalinks(posts, u)| >= 2 :: Permalinks(posts, u)
  }

  // ---------------------------------------------------------------------------------------------
  // Properties of the specification
  // ---------------------------------------------------------------------------------------------

  /** An author has as many permalinks as there are posts tagged with them. */
  lemma {:induction false} PermalinksCount(posts: seq<Post>, u: string)
    requires AllWellFormed(posts)
    ensures |Permalinks(posts, u)| == Count(Tags(posts), u)
    decreases |posts|
  {
    if posts != [] {
      var n := |posts| - 1;
      PermalinksCount(posts[..n], u);
      assert Tags(posts)[..n] == Tags(posts[..n]);
    }
  }

  /** The `k`-th permalink of an author, where `k` counts that author's earlier posts, is the
      permalink of that post: the list is in document order. */
  lemma {:induction false} PermalinkOfPost(posts: seq<Post>, j: nat, u: string)
    requires AllWellFormed(posts)
    requires j < |posts| && AuthorOf(posts[j]) == Some(u)
    ensures |Permalinks(posts[..j], u)| < |Permalinks(posts, u)|
    ensures Permalinks(posts, u)[|Permalinks(posts[..j], u)|] == posts[j].links[1]
    decreases |posts|
  {
    var n := |posts| - 1;
    if j < n {
      PermalinkOfPost(posts[..n], j, u);
      assert posts[..n][..j] == posts[..j];
    } else {
      assert posts[..j] == posts[..n];
    }
  }

  /** An id is an author of the page exactly when some post carries it. */
  lemma {:induction false} AuthorsHavePermalinks(posts: seq<Post>, u: string)
    requires AllWellFormed(posts)
    ensures u in Authors(posts) <==> |Permalinks(posts, u)| > 0
    decreases |posts|
  {
    if posts != [] {
      var n := |posts| - 1;
      AuthorsHavePermalinks(posts[..n], u);
      if u in Authors(posts[..n]) {
        var i :| 0 <= i < n && AuthorOf(posts[..n][i]).Some? && AuthorOf(posts[..n][i]).value == u;
        assert AuthorOf(posts[i]) == Some(u);
      }
      if u in Authors(posts) && AuthorOf(posts[n]) != Some(u) {
        var i :| 0 <= i < |posts| && AuthorOf(posts[i]).Some? && AuthorOf(posts[i]).value == u;
        assert posts[..n][i] == posts[i];
      }
    }
  }

  /** An author is in the index exactly when they wrote two or more posts; their entry is
      their permalinks in document order, so no entry has fewer than two. */
  lemma IndexHoldsRepeatAuthors(posts: seq<Post>, u: string)
    requires AllWellFormed(posts)
    ensures u in AuthorIndex(posts) <==> Count(Tags(posts), u) >= 2
    ensures u in AuthorIndex(posts) ==> |AuthorIndex(posts)[u]| == Count(Tags(posts), u) >= 2
  {
    PermalinksCount(posts, u);
    AuthorsHavePermalinks(posts, u);
  }

  // ---------------------------------------------------------------------------------------------
  // The two functions of the script
  // ---------------------------------------------------------------------------------------------

  /** `wrangleComments`: one pass over the posts in document order that tags every post with
      a byline and appends its permalink to its author's list, then `reduceUserComments`. */
  method WrangleComments(posts: seq<Post>) returns (userComments: UserComments, tags: seq<Option<string>>)
    requires AllWellFormed(posts)
    ensures tags == Tags(posts)
    ensures forall u :: u in userComments <==> Count(tags, u) >= 2
    ensures forall u :: u in userComments ==> userComments[u] == Permalinks(posts, u)
    ensures userComments == AuthorIndex(posts)
  {
    var collected: UserComments := map[];
    tags := [];
    for i := 0 to |posts|
      invariant tags == Tags(posts)[..i]
      invariant forall u :: u in collected <==> |Permalinks(posts[..i], u)| > 0
      invariant forall u :: u in collected ==> collected[u] == Permalinks(posts[..i], u)
    {
      var links := posts[i].links;
      var next := collected;
      if |links| > 0 {
        var parts := Split(links[0], '/');
        var userId := parts[|parts| - 1];
        var commentId := links[1];
        var list := if userId in collected then collected[userId] else [];
        next := collected[userId := list + [commentId]];
        assert Some(userId) == AuthorOf(posts[i]);
        TagsStep(posts, i, tags);
        tags := tags + [Some(userId)];
      } else {
        TagsStep(posts, i, tags);
        tags := tags + [None];
      }
      CollectStep(posts, i, collected, next);
      collected := next;
    }
    assert posts[..|posts|] == posts;
    assert tags == Tags(posts);
    userComments := ReduceUserComments(collected);
    ReducedIsIndex(posts, collected, userComments);
  }

  /** One more post extends an author's permalinks by at most that post's permalink. */
  lemma PermalinksStep(posts: seq<Post>, i: nat, u: string)
    requires AllWellFormed(posts) && i < |posts|
    ensures Permalinks(posts[..i + 1], u) ==
            Permalinks(posts[..i], u) + (if AuthorOf(posts[i]) == Some(u) then [posts[i].links[1]] else [])
  {
    assert posts[..i + 1][..i] == posts[..i];
  }

  /** One more post appends its author id (or nothing found) to the tags read so far. */
  lemma TagsStep(posts: seq<Post>, i: nat, tags: seq<Option<string>>)
    requires i < |posts| && tags == Tags(posts)[..i]
    ensures tags + [AuthorOf(posts[i])] == Tags(posts)[..i + 1]
  {
  }

  /** The dictionary after one more post: unchanged for a post without byline links,
      otherwise its author's list extended by its permalink. */
  lemma CollectStep(posts: seq<Post>, i: nat, collected: UserComments, next: UserComments)
    requires AllWellFormed(posts) && i < |posts|
    requires forall u :: u in collected <==> |Permalinks(posts[..i], u)| > 0
    requires forall u :: u in collected ==> collected[u] == Permalinks(posts[..i], u)
    requires AuthorOf(posts[i]).None? ==> next == collected
    requires AuthorOf(posts[i]).Some? ==>
               var u := AuthorOf(posts[i]).value;
               next == collected[u := (if u in collected then collected[u] else []) + [posts[i].links[1]]]
    ensures forall u :: u in next <==> |Permalinks(posts[..i + 1], u)| > 0
    ensures forall u :: u in next ==> next[u] == Permalinks(posts[..i + 1], u)
  {
    forall u
      ensures u in next <==> |Permalinks(posts[..i + 1], u)| > 0
      ensures u in next ==> next[u] == Permalinks(posts[..i + 1], u)
    {
      PermalinksStep(posts, i, u);
    }
  }

  /** Removing the single-post authors from the collected lists gives the index. */
  lemma ReducedIsIndex(posts: seq<Post>, collected: UserComments, reduced: UserComments)
    requires AllWellFormed(posts)
    requires forall u :: u in collected <==> |Permalinks(posts, u)| > 0
    requires forall u :: u in collected ==> collected[u] == Permalinks(posts, u)
    requires forall u :: u in reduced <==> u in collected && |collected[u]| != 1
    requires forall u :: u in reduced ==> reduced[u] == collected[u]
    ensures forall u :: u in reduced <==> Count(Tags(posts), u) >= 2
    ensures forall u :: u in reduced ==> reduced[u] == Permalinks(posts, u)
    ensures reduced == AuthorIndex(posts)
  {
    forall u
      ensures u in reduced <==> Count(Tags(posts), u) >= 2
      ensures u in reduced <==> u in AuthorIndex(posts)
    {
      PermalinksCount(posts, u);
      AuthorsHavePermalinks(posts, u);
    }
  }

  /** `reduceUserComments`: removes every author with exactly one permalink and leaves every
      other entry as it was. */
  method ReduceUserComments(userComments: UserComments) returns (reduced: UserComments)
    ensures forall u :: u in reduced <==> u in userComments && |userComments[u]| != 1
    ensures forall u :: u in reduced ==> reduced[u] == userComments[u]
  {
    reduced := userComments;
    var users := userComments.Keys;
    while users != {}
      invariant users <= userComments.Keys
      invariant forall u :: u in reduced <==> u in userComments && (u in users || |userComments[u]| != 1)
      invariant forall u :: u in reduced ==> reduced[u] == userComments[u]
      decreases users
    {
      var u :| u in users;
      if |reduced[u]| == 1 {
        reduced := reduced - {u};
      }
      users := users - {u};
    }
  }

  // ---------------------------------------------------------------------------------------------
  // An example page
  // ---------------------------------------------------------------------------------------------

  /** The author id of a byline whose first href is `/user/<id>` with `id` free of `/`. */
  lemma AuthorOfUserLink(links: seq<string>, id: string)
    requires |links| > 0 && links[0] == "/user/" + id && '/' !in id
    ensures AuthorOf(Post(links)) == Some(id)
  {
    var p := Post(links);
    AuthorIsLastSegment(p);
    assert IsLastPart(links[0], '/', id);
    LastPartUnique(links[0], '/', AuthorOf(p).value, id);
  }

  /** Five posts by authors A, B, A, A and C, each byline holding `/user/<id>` and the post's
      permalink `ps[i]`. */
  function ScenarioPosts(a: string, b: string, c: string, ps: seq<string>): seq<Post>
    requires |ps| == 5
  {
    [Post(["/user/" + a, ps[0]]), Post(["/user/" + b, ps[1]]), Post(["/user/" + a, ps[2]]),
     Post(["/user/" + a, ps[3]]), Post(["/user/" + c, ps[4]])]
  }

  predicate ScenarioIds(a: string, b: string, c: string, ps: seq<string>) {
    && |ps| == 5
    && '/' !in a && '/' !in b && '/' !in c
    && a != b && a != c && b != c
    && ps[0] != "" && ps[2] != "" && ps[3] != ""
  }

  lemma ScenarioTags(a: string, b: string, c: string, ps: seq<string>)
    requires ScenarioIds(a, b, c, ps)
    ensures Tags(ScenarioPosts(a, b, c, ps)) == [Some(a), Some(b), Some(a), Some(a), Some(c)]
  {
    var posts := ScenarioPosts(a, b, c, ps);
    AuthorOfUserLink(posts[0].links, a);
    AuthorOfUserLink(posts[1].links, b);
    AuthorOfUserLink(posts[2].links, a);
    AuthorOfUserLink(posts[3].links, a);
    AuthorOfUserLink(posts[4].links, c);
  }

  /** Each author's permalinks in the example. */
  lemma ScenarioPermalinks(a: string, b: string, c: string, ps: seq<string>, u: string)
    requires ScenarioIds(a, b, c, ps)
    ensures u == a ==> Permalinks(ScenarioPosts(a, b, c, ps), u) == [ps[0], ps[2], ps[3]]
    ensures u != a ==> |Permalinks(ScenarioPosts(a, b, c, ps), u)| <= 1
  {
    var posts := ScenarioPosts(a, b, c, ps);
    ScenarioTags(a, b, c, ps);
    assert AuthorOf(posts[0]) == Some(a) && AuthorOf(posts[1]) == Some(b);
    assert AuthorOf(posts[2]) == Some(a) && AuthorOf(posts[3]) == Some(a) && AuthorOf(posts[4]) == Some(c);
    PermalinksOfFive(posts, a, b, c, u);
  }

  /** The lists of a page whose five posts are by A, B, A, A and C, read off post by post
      with `PermalinksStep`. */
  lemma PermalinksOfFive(posts: seq<Post>, a: string, b: string, c: string, u: string)
    requires |posts| == 5 && AllWellFormed(posts)
    requires AuthorOf(posts[0]) == Some(a) && AuthorOf(posts[1]) == Some(b) && AuthorOf(posts[2]) == Some(a)
    requires AuthorOf(posts[3]) == Some(a) && AuthorOf(posts[4]) == Some(c)
    requires a != b && a != c && b != c
    ensures u == a ==> Permalinks(posts, u) == [posts[0].links[1], posts[2].links[1], posts[3].links[1]]
    ensures u != a ==> |Permalinks(posts, u)| <= 1
  {
    assert posts[..5] == posts;
    assert Permalinks(posts[..1], u) == (if u == a then [posts[0].links[1]] else []) by {
      PermalinksStep(posts, 0, u);
      assert posts[..0] == [];
    }
    PermalinksStep(posts, 1, u);
    PermalinksStep(posts, 2, u);
    PermalinksStep(posts, 3, u);
    PermalinksStep(posts, 4, u);
  }

  /** Only A is indexed, with their three permalinks in page order. */
  lemma ScenarioIndex(a: string, b: string, c: string, ps: seq<string>)
    requires ScenarioIds(a, b, c, ps)
    ensures AuthorIndex(ScenarioPosts(a, b, c, ps)) == map[a := [ps[0], ps[2], ps[3]]]
  {
    var posts := ScenarioPosts(a, b, c, ps);
    ScenarioTags(a, b, c, ps);
    ScenarioPermalinks(a, b, c, ps, a);
    assert AuthorOf(posts[0]) == Tags(posts)[0];
    assert a in Authors(posts);
    forall u | u != a
      ensures |Permalinks(posts, u)| <= 1
    {
      ScenarioPermalinks(a, b, c, ps, u);
    }
  }
}
