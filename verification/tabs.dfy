/** The quality tabs of the download options (js/script.js:420-447): one tab and one content
    panel per candidate, tab 0 active and panel 0 shown at first, and a click on a tab that
    clears every tab and hides every panel before marking its own tab and showing the panel
    `getElementById` finds for its size. */
module Tabs {
  import opened Thumbnails

  /** The first position of `size` in `sizes`: the panel `getElementById` returns for the id
      `quality-content-<size>`, since the first element with an id wins. */
  function PanelIndex(sizes: seq<string>, size: string): (r: nat)
    requires size in sizes
    ensures r < |sizes| && sizes[r] == size
    ensures forall j :: 0 <= j < r ==> sizes[j] != size
  {
    if sizes[0] == size then 0 else 1 + PanelIndex(sizes[1..], size)
  }

  /** With distinct sizes, tab `i`'s panel is panel `i`. */
  lemma PanelOfDistinct(sizes: seq<string>, i: nat)
    requires i < |sizes|
    requires forall a, b :: 0 <= a < b < |sizes| ==> sizes[a] != sizes[b]
    ensures PanelIndex(sizes, sizes[i]) == i
  {
    var r := PanelIndex(sizes, sizes[i]);
    assert sizes[r] == sizes[i];
  }

  /** The tabs built from the candidate list each show their own panel. */
  lemma TierPanels(i: nat)
    requires i < |Tiers|
    ensures PanelIndex(Tiers, Tiers[i]) == i
  {
    TiersDistinct();
    PanelOfDistinct(Tiers, i);
  }

  class QualityTabs {
    /** The size each tab and panel stands for, in list order. */
    const sizes: seq<string>
    /** Whether each tab has the `active` class. */
    const active: array<bool>
    /** Whether each panel has `display: block` (rather than `none`). */
    const shown: array<bool>

    ghost predicate Valid()
      reads this
    {
      active.Length == shown.Length == |sizes| && active != shown
    }

    /** Building the section: one tab and one panel per size, only the first of each marked. */
    constructor (sizes: seq<string>)
      ensures Valid() && this.sizes == sizes && fresh(active) && fresh(shown)
      ensures forall k :: 0 <= k < |sizes| ==> (active[k] <==> k == 0) && (shown[k] <==> k == 0)
    {
      this.sizes := sizes;
      var a := new bool[|sizes|];
      var s := new bool[|sizes|];
      var index := 0;
      while index < |sizes|
        invariant 0 <= index <= |sizes|
        invariant forall k :: 0 <= k < index ==> (a[k] <==> k == 0) && (s[k] <==> k == 0)
      {
        a[index] := index == 0;
        s[index] := index == 0;
        index := index + 1;
      }
      active := a;
      shown := s;
    }

    /** A click on tab `i`, from any state. */
    method Select(i: nat)
      requires Valid() && i < |sizes|
      modifies active, shown
      ensures Valid()
      ensures forall k :: 0 <= k < |sizes| ==> (active[k] <==> k == i)
      ensures forall k :: 0 <= k < |sizes| ==> (shown[k] <==> k == PanelIndex(sizes, sizes[i]))
      ensures (forall a, b :: 0 <= a < b < |sizes| ==> sizes[a] != sizes[b]) ==>
        forall k :: 0 <= k < |sizes| ==> (shown[k] <==> k == i)
    {
      var k := 0;
      while k < active.Length
        invariant 0 <= k <= active.Length
        invariant forall m :: 0 <= m < k ==> !active[m]
      {
        active[k] := false;
        k := k + 1;
      }
      active[i] := true;
      k := 0;
      while k < shown.Length
        invariant 0 <= k <= shown.Length
        invariant forall m :: 0 <= m < k ==> !shown[m]
        invariant forall m :: 0 <= m < active.Length ==> (active[m] <==> m == i)
      {
        shown[k] := false;
        k := k + 1;
      }
      shown[PanelIndex(sizes, sizes[i])] := true;
      if forall a, b :: 0 <= a < b < |sizes| ==> sizes[a] != sizes[b] {
        PanelOfDistinct(sizes, i);
      }
    }
  }
}
