/** memory.rs: the regions of guest memory around the PCI MMIO gap, for any memory size. */
module MemoryLayout {
  import opened Words
  import opened GuestMemory

  const GAP_START: nat := 0x1_0000_0000
  const GAP_SIZE: nat := 768 * 0x20_0000

  datatype Region = Region(start: nat, len: nat) {
    function End(): nat {
      start + len
    }

    predicate Contains(a: nat) {
      start <= a < End()
    }
  }

  /** What vm-memory accepts: non-empty regions in address order, none overlapping, all below 2^64. */
  predicate ValidLayout(layout: seq<Region>) {
    && (forall i :: 0 <= i < |layout| ==> layout[i].len > 0 && layout[i].End() < U64_LIMIT)
    && (forall i, j :: 0 <= i < j < |layout| ==> layout[i].End() <= layout[j].start)
  }

  /** Exactly the addresses of the regions are mapped. */
  ghost predicate Maps(layout: seq<Region>, m: Image) {
    forall a: nat :: a in m <==> exists i :: 0 <= i < |layout| && layout[i].Contains(a)
  }

  function Min(a: nat, b: nat): nat {
    if a < b then a else b
  }

  /** `GuestMemoryRegions::new`, for a memory of the given size instead of the fixed 128 MB. */
  function Layout(memorySize: nat): seq<Region> {
    var low := Min(GAP_START, memorySize);
    if memorySize > GAP_START then [Region(0, low), Region(GAP_START + GAP_SIZE, memorySize - GAP_START)]
    else [Region(0, low)]
  }

  function TotalSize(layout: seq<Region>): nat {
    if layout == [] then 0 else layout[0].len + TotalSize(layout[1..])
  }

  /** All of the memory is placed, in a layout vm-memory accepts, and none of it in the gap. */
  lemma LayoutAvoidsGap(memorySize: nat)
    requires 0 < memorySize && memorySize + GAP_SIZE < U64_LIMIT
    ensures ValidLayout(Layout(memorySize))
    ensures TotalSize(Layout(memorySize)) == memorySize
    ensures forall i, a: nat :: 0 <= i < |Layout(memorySize)| && Layout(memorySize)[i].Contains(a) ==>
              !(GAP_START <= a < GAP_START + GAP_SIZE)
  {
    var layout := Layout(memorySize);
    if |layout| == 2 {
      assert layout[1..] == [layout[1]] && layout[1..][1..] == [];
      assert TotalSize(layout[1..]) == layout[1].len;
    } else {
      assert layout[1..] == [];
    }
  }

  /** `find_region`: the region containing a. */
  function FindRegion(layout: seq<Region>, a: nat): Option<Region> {
    if layout == [] then None
    else if layout[0].Contains(a) then Some(layout[0])
    else FindRegion(layout[1..], a)
  }

  /** In numbers: memory starts at 0; what lies beyond 4 GB continues behind the gap, at 0x1_6000_0000. */
  lemma LayoutNumbers(memorySize: nat)
    ensures memorySize <= 0x1_0000_0000 ==> Layout(memorySize) == [Region(0, memorySize)]
    ensures memorySize > 0x1_0000_0000 ==>
              Layout(memorySize) == [Region(0, 0x1_0000_0000), Region(0x1_6000_0000, memorySize - 0x1_0000_0000)]
  {
  }

  lemma {:induction false} FindsTheRegion(layout: seq<Region>, i: nat, a: nat)
    requires ValidLayout(layout) && i < |layout| && layout[i].Contains(a)
    ensures FindRegion(layout, a) == Some(layout[i])
  {
    if i == 0 {
    } else {
      assert !layout[0].Contains(a);
      FindsTheRegion(layout[1..], i - 1, a);
    }
  }

  lemma {:induction false} FoundRegionContains(layout: seq<Region>, a: nat)
    requires FindRegion(layout, a).Some?
    ensures FindRegion(layout, a).value in layout && FindRegion(layout, a).value.Contains(a)
  {
    if layout[0].Contains(a) {
    } else {
      FoundRegionContains(layout[1..], a);
    }
  }
}
