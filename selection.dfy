/** The single-selection cell of the spatial-tree panel: the leaf clicked last
    is the one marked `selected`. Leaves are identified by a number (their
    position among the rendered leaves). */
module Selection {
  import opened JsValues

  /** At most one leaf is marked, and it is the one the cell records. Before
      the first click the cell holds the falsy `0` and no leaf is marked. */
  predicate SingleSelection(li: Option<nat>, marked: set<nat>)
  {
    match li
    case None => marked == {}
    case Some(leaf) => marked == {leaf}
  }

  /** The cell and the marks after a click on `leaf`: the recorded leaf, if
      any, loses its mark, the clicked one gains it and is recorded. */
  function AfterClick(li: Option<nat>, marked: set<nat>, leaf: nat): (r: (Option<nat>, set<nat>))
    ensures r.0 == Some(leaf) && leaf in r.1
    ensures forall x :: x != leaf && x in r.1 ==> x in marked
  {
    var unmarked := if li.Some? then marked - {li.value} else marked;
    (Some(leaf), unmarked + {leaf})
  }

  /** A click keeps the selection single, and the clicked leaf is the only
      one marked afterwards. */
  lemma ClickSelectsOnlyClicked(li: Option<nat>, marked: set<nat>, leaf: nat)
    requires SingleSelection(li, marked)
    ensures SingleSelection(AfterClick(li, marked, leaf).0, AfterClick(li, marked, leaf).1)
    ensures AfterClick(li, marked, leaf).1 == {leaf}
  {
  }

  /** The cell and the marks after a series of clicks. */
  function AfterClicks(li: Option<nat>, marked: set<nat>, clicks: seq<nat>): (Option<nat>, set<nat>)
    decreases |clicks|
  {
    if |clicks| == 0 then (li, marked)
    else
      var s := AfterClicks(li, marked, clicks[..|clicks| - 1]);
      AfterClick(s.0, s.1, clicks[|clicks| - 1])
  }

  /** However many leaves are clicked, starting from the initial cell at most
      one is marked at any time, and after at least one click it is the leaf
      clicked last. */
  lemma {:induction false} ClicksKeepOneSelected(clicks: seq<nat>)
    ensures SingleSelection(AfterClicks(None, {}, clicks).0, AfterClicks(None, {}, clicks).1)
    ensures |AfterClicks(None, {}, clicks).1| <= 1
    ensures |clicks| != 0 ==> AfterClicks(None, {}, clicks).1 == {clicks[|clicks| - 1]}
    decreases |clicks|
  {
    if |clicks| != 0 {
      var s := AfterClicks(None, {}, clicks[..|clicks| - 1]);
      ClicksKeepOneSelected(clicks[..|clicks| - 1]);
      ClickSelectsOnlyClicked(s.0, s.1, clicks[|clicks| - 1]);
    }
  }

  /** `simpleChildSelected` together with the `selected` marks of the leaf
      elements. */
  class SimpleChildSelected {
    var li: Option<nat>
    var marked: set<nat>

    predicate Valid()
      reads this
    {
      SingleSelection(li, marked)
    }

    constructor ()
      ensures Valid() && li == None && marked == {}
    {
      li := None;
      marked := {};
    }

    /** The end of a leaf's click handler: unmark the recorded leaf, mark the
        clicked one and record it. */
    method Click(leaf: nat)
      requires Valid()
      modifies this
      ensures (li, marked) == AfterClick(old(li), old(marked), leaf)
      ensures Valid() && li == Some(leaf) && marked == {leaf}
    {
      ClickSelectsOnlyClicked(li, marked, leaf);
      if li.Some? {
        marked := marked - {li.value};
      }
      marked := marked + {leaf};
      li := Some(leaf);
    }
  }
}
