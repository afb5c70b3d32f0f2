/**
  The FAQ accordion (components/FAQ.tsx): six items, at most one of them
  open. `openIndex` is the component's state; a click on an item toggles it.
*/
module Faq {
  import opened Options

  const FaqKeys: seq<string> := ["0", "1", "2", "3", "4", "5"]

  /** The state update of a click on item `index`: `openIndex === index ? null : index`. */
  function Toggled(openIndex: Option<nat>, index: nat): (next: Option<nat>)
    ensures next == None <==> openIndex == Some(index)
    ensures next != None ==> next == Some(index)
  {
    if openIndex == Some(index) then None else Some(index)
  }

  /** The open index, if any, names one of the items. */
  predicate InRange(openIndex: Option<nat>) {
    openIndex.None? || openIndex.value < |FaqKeys|
  }

  /** Clicking the same item twice restores the state when that item was open or all were closed; otherwise it closes all. */
  lemma ToggleTwice(openIndex: Option<nat>, index: nat)
    ensures Toggled(Toggled(openIndex, index), index) ==
            (if openIndex == Some(index) then openIndex else None)
    ensures Toggled(Toggled(None, index), index) == None
  {
  }

  /** Which answer panels are rendered: the one of the item whose index equals `openIndex`. */
  function Panels(openIndex: Option<nat>, n: nat): (shown: seq<bool>)
    ensures |shown| == n
  {
    if n == 0 then [] else Panels(openIndex, n - 1) + [openIndex == Some(n - 1)]
  }

  function CountShown(shown: seq<bool>): nat {
    if shown == [] then 0
    else CountShown(shown[..|shown| - 1]) + (if shown[|shown| - 1] then 1 else 0)
  }

  /** Exactly one panel is rendered when an item is open, none otherwise. */
  lemma {:induction false} PanelCount(openIndex: Option<nat>, n: nat)
    ensures CountShown(Panels(openIndex, n)) == (if openIndex.Some? && openIndex.value < n then 1 else 0)
  {
    if n > 0 {
      PanelCount(openIndex, n - 1);
      var shown := Panels(openIndex, n);
      assert shown[..|shown| - 1] == Panels(openIndex, n - 1);
    }
  }

  /** Panel `i` is rendered iff item `i` is the open one. */
  lemma {:induction false} PanelShownIff(openIndex: Option<nat>, n: nat, i: nat)
    requires i < n
    ensures Panels(openIndex, n)[i] <==> openIndex == Some(i)
  {
    if i < n - 1 {
      PanelShownIff(openIndex, n - 1, i);
    }
  }

  class Accordion {
    var openIndex: Option<nat>

    ghost predicate Valid()
      reads this
    {
      InRange(openIndex)
    }

    /** Initially no item is open. */
    constructor ()
      ensures Valid() && openIndex == None
    {
      openIndex := None;
    }

    /** The click handler of item `index`. */
    method Click(index: nat)
      requires Valid() && index < |FaqKeys|
      modifies this
      ensures Valid()
      ensures openIndex == Toggled(old(openIndex), index)
    {
      if openIndex == Some(index) {
        openIndex := None;
      } else {
        openIndex := Some(index);
      }
    }

    /** At most one answer panel is shown, and only the open item's. */
    method ShownPanels() returns (shown: seq<bool>)
      requires Valid()
      ensures |shown| == |FaqKeys|
      ensures forall i :: 0 <= i < |FaqKeys| ==> (shown[i] <==> openIndex == Some(i))
      ensures CountShown(shown) == if openIndex.Some? then 1 else 0
    {
      shown := Panels(openIndex, |FaqKeys|);
      PanelCount(openIndex, |FaqKeys|);
      forall i | 0 <= i < |FaqKeys| ensures shown[i] <==> openIndex == Some(i) {
        PanelShownIff(openIndex, |FaqKeys|, i);
      }
    }
  }
}
