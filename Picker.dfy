/** The picker: `buildPicker` (content/index.js:137-147), the handler `addPickerListeners`
    attaches to each trigger (149-156), and the display state of the single `#picker`
    element that `addPicker` creates (44-47), `showPicker` fills and shows (158-169) and
    `gotoLink` hides (171-177). */
module Picker {
  import opened Wrappers
  import opened Text
  import opened Comments
  import opened Navigation

  /** One `<li>` of the picker: its position (the label shown) and, for a live item, the
      permalink it carries in `data-href` (a live item also has `class="active"`; the inert
      one has neither). */
  datatype Item = Item(position: nat, href: Option<string>)

  /** `buildPicker(list, commentId)`: one item per permalink, labelled with its 0-based
      position; the item at `commentId` is inert. */
  function BuildPicker(list: seq<string>, commentId: int): (items: seq<Item>)
    ensures |items| == |list|
    ensures forall i :: 0 <= i < |items| ==> items[i].position == i
    ensures forall i :: 0 <= i < |items| ==> (items[i].href.None? <==> i == commentId)
    ensures forall i :: 0 <= i < |items| && i != commentId ==> items[i].href == Some(list[i])
  {
    seq(|list|, i requires 0 <= i < |list| => if i == commentId then Item(i, None) else Item(i, Some(list[i])))
  }

  /** The number of inert items. */
  function CountInert(items: seq<Item>): nat
    decreases |items|
  {
    if items == [] then 0
    else CountInert(items[..|items| - 1]) + (if items[|items| - 1].href.None? then 1 else 0)
  }

  /** Items of which exactly the one at `c` is inert hold one inert item when `c` is a
      position of the list and none otherwise. */
  lemma {:induction false} InertCount(items: seq<Item>, c: int)
    requires forall i :: 0 <= i < |items| ==> (items[i].href.None? <==> i == c)
    ensures CountInert(items) == if 0 <= c < |items| then 1 else 0
    decreases |items|
  {
    if items != [] {
      var n := |items| - 1;
      InertCount(items[..n], c);
    }
  }

  /** The picker of a list at one of its positions has exactly one inert item, at that
      position, and `|list| - 1` live ones, each linking to the permalink at its position; for
      any other `commentId` (the `NaN` of a trigger that does not parse among them) every
      item is live. */
  lemma PickerItems(list: seq<string>, commentId: int)
    ensures CountInert(BuildPicker(list, commentId)) == if 0 <= commentId < |list| then 1 else 0
    ensures forall i :: 0 <= i < |list| && i != commentId ==>
              BuildPicker(list, commentId)[i] == Item(i, Some(list[i]))
  {
    InertCount(BuildPicker(list, commentId), commentId);
  }

  // ---------------------------------------------------------------------------------------------
  // Reading a trigger back
  // ---------------------------------------------------------------------------------------------

  /** What a click on a trigger hands to `showPicker`: the list looked up by `data-userid`
      and the position `parseInt(data-commentid, 10)`. `NaN` equals no position; -1 stands
      for it here. An id missing from the index gives `undefined`, on which `buildPicker`
      throws before anything changes: `None`. */
  function ReadTrigger(t: Trigger, index: UserComments): (r: Option<(seq<string>, int)>)
    ensures r.Some? <==> t.userId in index
    ensures r.Some? ==> r.value.0 == index[t.userId]
    ensures r.Some? && ParseInt(t.commentId).Some? ==> r.value.1 == ParseInt(t.commentId).value
    ensures r.Some? && ParseInt(t.commentId).None? ==> r.value.1 == -1
    ensures r.Some? ==> (r.value.1 >= 0 <==> ParseInt(t.commentId).Some? && ParseInt(t.commentId).value >= 0)
  {
    if t.userId in index then Some((index[t.userId], ParseInt(t.commentId).GetOr(-1))) else None
  }

  /** A trigger rendered for author `u` at position `k` reads back as `u`'s list and `k`, so
      the picker it opens has exactly one inert item, the post the trigger sits on. */
  lemma TriggerRoundTrip(index: UserComments, u: string, k: nat)
    requires u in index && k < |index[u]|
    ensures ReadTrigger(BuildTemplate(index[u], u, k).trigger, index) == Some((index[u], k))
    ensures CountInert(BuildPicker(index[u], k)) == 1
    ensures BuildPicker(index[u], k)[k] == Item(k, None)
  {
    PickerItems(index[u], k);
  }

  // ---------------------------------------------------------------------------------------------
  // The #picker element
  // ---------------------------------------------------------------------------------------------

  /** `style.display` of `#picker`: never set yet, `inline`, or `none`. */
  datatype Display = Unset | Inline | Hidden

  /** The picker seen from the page: closed, or open showing its items. */
  datatype PickerState = Closed | Open(items: seq<Item>)

  class Popover {
    /** The items last written into `innerHTML`. */
    var items: seq<Item>
    var display: Display

    function State(): (st: PickerState)
      reads this
      ensures st.Open? <==> display == Inline
    {
      if display == Inline then Open(items) else Closed
    }

    /** `addPicker`: an empty `<div id="picker">`. */
    constructor ()
      ensures items == [] && display == Unset
      ensures State() == Closed
    {
      items := [];
      display := Unset;
    }

    /** `showPicker`: the content is overwritten and the picker shown; whatever was open
        before is replaced, not stacked. */
    method ShowPicker(list: seq<string>, commentId: int)
      modifies this
      ensures items == BuildPicker(list, commentId) && display == Inline
      ensures State() == Open(BuildPicker(list, commentId))
    {
      items := BuildPicker(list, commentId);
      display := Inline;
    }

    /** A click on a trigger: `showPicker` with what the trigger reads back as. When the
        author is not indexed the call throws before any change. */
    method Activate(t: Trigger, index: UserComments) returns (shown: bool)
      modifies this
      ensures shown <==> t.userId in index
      ensures shown ==> State() == Open(BuildPicker(index[t.userId], ReadTrigger(t, index).value.1))
      ensures !shown ==> items == old(items) && display == old(display)
    {
      match ReadTrigger(t, index)
      case Some((list, commentId)) =>
        ShowPicker(list, commentId);
        shown := true;
      case None =>
        shown := false;
    }

    /** `gotoLink`: a click on item `i` of the open picker sends the browser to the item's
        `data-href` (`None` for the inert item, whose attribute is `null`) and hides the
        picker; its content stays. */
    method GotoLink(i: nat) returns (target: Option<string>)
      requires display == Inline && i < |items|
      modifies this
      ensures target == old(items)[i].href
      ensures items == old(items) && display == Hidden
      ensures State() == Closed
    {
      target := items[i].href;
      display := Hidden;
    }
  }
}
