/** snapshot.rs, `save_memory` and `restore_memory`. */
module SnapshotMemory {
  import opened Words
  import opened GuestMemory
  import opened WriteLog
  import opened MemoryLayout

  const CHUNK: nat := 4096

  /** A saved region.  Nothing ties size to the length of data. */
  datatype MemoryRegion = MemoryRegion(guestAddr: U64, size: U64, data: seq<Byte>)

  // ----- What saving and restoring mean, without chunks -----

  function SavedRegion(m: Image, r: Region): MemoryRegion
    requires r.End() < U64_LIMIT
    requires forall a: nat :: r.start <= a < r.start + r.len ==> a in m
  {
    MemoryRegion(r.start, r.len, Fetch(m, r.start, r.len))
  }

  ghost function Saved(m: Image, layout: seq<Region>): (es: seq<MemoryRegion>)
    requires ValidLayout(layout) && Maps(layout, m)
    ensures |es| == |layout|
  {
    seq(|layout|, i requires 0 <= i < |layout| =>
      RegionIsMapped(layout, m, layout[i]); SavedRegion(m, layout[i]))
  }

  /** How many bytes of entry e end up in region r: they stop at the end of the region. */
  function Kept(r: Region, e: MemoryRegion): (k: nat)
    requires r.Contains(e.guestAddr)
    ensures k <= |e.data|
  {
    Min(|e.data|, r.End() - e.guestAddr)
  }

  function StorePrefix(m: Image, e: MemoryRegion, k: nat): (r: Image)
    requires k <= |e.data|
    ensures r.Keys == m.Keys
  {
    Store(m, e.guestAddr, e.data[..k])
  }

  /** How many of n bytes fit into region r from offset on. */
  function Room(r: Region, offset: nat, n: nat): (k: nat)
    ensures k <= n
  {
    if offset < r.len then Min(n, r.len - offset) else 0
  }

  /** What `write_slice` of a region leaves: what fits is written even when the rest does not. */
  function RegionWrite(m: Image, r: Region, offset: nat, data: seq<Byte>): Image {
    Store(m, r.start + offset, data[..Room(r, offset, |data|)])
  }

  function RestoreEntry(m: Image, layout: seq<Region>, e: MemoryRegion): (r: Report)
    ensures r.image.Keys == m.Keys
  {
    var found := FindRegion(layout, e.guestAddr);
    if found.None? then Report(Failed, m)
    else
      FoundRegionContains(layout, e.guestAddr);
      var r := found.value;
      if r.End() >= U64_LIMIT then Report(Failed, m)
      else if e.guestAddr + e.size >= U64_LIMIT then Report(Failed, m)
      else if r.start > e.guestAddr || r.End() < e.guestAddr + e.size then Report(Failed, m)
      else Report(if e.guestAddr + |e.data| <= r.End() then Done else Failed, StorePrefix(m, e, Kept(r, e)))
  }

  function Restore(m: Image, layout: seq<Region>, es: seq<MemoryRegion>): (r: Report)
    ensures r.image.Keys == m.Keys
    decreases |es|
  {
    if es == [] then Report(Done, m)
    else
      var r := RestoreEntry(m, layout, es[0]);
      if r.outcome.Done? then Restore(r.image, layout, es[1..]) else r
  }

  // ----- The manager -----

  class SnapshotManager {
    const ram: Ram
    const layout: seq<Region>

    ghost predicate Valid()
      reads ram
    {
      ValidLayout(layout) && Maps(layout, ram.bytes)
    }

    constructor (ram: Ram, layout: seq<Region>)
      requires ValidLayout(layout) && Maps(layout, ram.bytes)
      ensures Valid() && this.ram == ram && this.layout == layout
    {
      this.ram, this.layout := ram, layout;
    }

    /** `read_slice` of a region. */
    method ReadRegion(r: Region, offset: nat, n: nat) returns (ok: bool, data: seq<Byte>)
      requires Valid() && r in layout
      ensures ok == (offset < r.len && offset + n <= r.len)
      ensures ok ==> (forall a: nat :: r.start + offset <= a < r.start + offset + n ==> a in ram.bytes)
      ensures ok ==> data == Fetch(ram.bytes, r.start + offset, n)
    {
      ok, data := offset < r.len && offset + n <= r.len, [];
      if ok {
        RegionIsMapped(layout, ram.bytes, r);
        data := Fetch(ram.bytes, r.start + offset, n);
      }
    }

    /** `write_slice` of a region. */
    method WriteRegion(r: Region, offset: nat, data: seq<Byte>) returns (ok: bool)
      modifies ram
      ensures ok == (offset < r.len && offset + |data| <= r.len)
      ensures ram.bytes == RegionWrite(old(ram.bytes), r, offset, data)
    {
      ok := offset < r.len && offset + |data| <= r.len;
      ram.bytes := RegionWrite(ram.bytes, r, offset, data);
    }

    /** Reads one region in chunks of 4096 bytes, the last one shorter. */
    method SaveRegion(r: Region) returns (ok: bool, data: seq<Byte>)
      requires Valid() && r in layout
      ensures ok && (forall a: nat :: r.start <= a < r.start + r.len ==> a in ram.bytes)
      ensures data == Fetch(ram.bytes, r.start, r.len)
    {
      RegionIsMapped(layout, ram.bytes, r);
      data := Zeros(r.len);
      var offset := 0;
      while offset < r.len
        invariant 0 <= offset <= r.len && |data| == r.len
        invariant data[..offset] == Fetch(ram.bytes, r.start, offset)
        decreases r.len - offset
      {
        var n := Min(CHUNK, r.len - offset);
        var read, chunk := ReadRegion(r, offset, n);
        if !read { return false, data; }
        data := data[..offset] + chunk + data[offset + n..];
        assert data[..offset + n] == Fetch(ram.bytes, r.start, offset) + chunk;
        offset := offset + n;
      }
      ok := true;
    }

    method SaveMemory() returns (ok: bool, regions: seq<MemoryRegion>)
      requires Valid()
      ensures ok && regions == Saved(ram.bytes, layout)
    {
      regions := [];
      for k := 0 to |layout|
        invariant regions == Saved(ram.bytes, layout)[..k]
      {
        var r := layout[k];
        var saved, data := SaveRegion(r);
        if !saved { return false, regions; }
        regions := regions + [MemoryRegion(r.start, r.len, data)];
      }
      ok := true;
    }

    /** Writes the data of one entry in chunks of 4096 bytes. */
    method WriteChunks(r: Region, e: MemoryRegion) returns (ok: bool)
      requires r.Contains(e.guestAddr)
      modifies ram
      ensures ok == (e.guestAddr + |e.data| <= r.End())
      ensures ram.bytes == StorePrefix(old(ram.bytes), e, Kept(r, e))
    {
      hide Store;
      var regionOffset := e.guestAddr - r.start;
      var done := 0;
      EmptyPrefix(ram.bytes, e);
      while done < |e.data|
        invariant 0 <= done <= Kept(r, e)
        invariant ram.bytes == StorePrefix(old(ram.bytes), e, done)
        decreases |e.data| - done
      {
        var n := Min(CHUNK, |e.data| - done);
        ChunkExtendsPrefix(old(ram.bytes), r, e, done, n);
        var written := WriteRegion(r, regionOffset + done, e.data[done..done + n]);
        if !written { return false; }
        done := done + n;
      }
      ok := true;
    }

    method RestoreMemory(regions: seq<MemoryRegion>) returns (outcome: Outcome)
      requires Valid()
      modifies ram
      ensures Valid()
      ensures Report(outcome, ram.bytes) == Restore(old(ram.bytes), layout, regions)
    {
      for k := 0 to |regions|
        invariant Valid()
        invariant Restore(ram.bytes, layout, regions[k..]) == Restore(old(ram.bytes), layout, regions)
      {
        var e := regions[k];
        assert regions[k..][1..] == regions[k + 1..];
        var found := FindRegion(layout, e.guestAddr);
        if found.None? { return Failed; }
        FoundRegionContains(layout, e.guestAddr);
        var r := found.value;
        if r.End() >= U64_LIMIT { return Failed; }
        if e.guestAddr + e.size >= U64_LIMIT { return Failed; }
        if r.start > e.guestAddr || r.End() < e.guestAddr + e.size { return Failed; }
        var ok := WriteChunks(r, e);
        if !ok { return Failed; }
      }
      outcome := Done;
    }
  }

  lemma EmptyPrefix(m: Image, e: MemoryRegion)
    ensures StorePrefix(m, e, 0) == m
  {
  }

  /** Writing one more chunk through the region stores a longer prefix of the data, cut at the region's end. */
  lemma ChunkExtendsPrefix(m: Image, r: Region, e: MemoryRegion, done: nat, n: nat)
    requires r.Contains(e.guestAddr) && done <= Kept(r, e) && done + n <= |e.data|
    ensures RegionWrite(StorePrefix(m, e, done), r, e.guestAddr - r.start + done, e.data[done..done + n])
         == StorePrefix(m, e, Min(done + n, Kept(r, e)))
  {
    hide Store;
    var offset := e.guestAddr - r.start + done;
    assert done + Room(r, offset, n) == Min(done + n, Kept(r, e));
    StoreCut(m, e.guestAddr, e.data, done, e.data[done..done + n], r.start + offset, Room(r, offset, n));
  }

  lemma StoreCut(m: Image, addr: nat, data: seq<Byte>, done: nat, chunk: seq<Byte>, at: nat, k: nat)
    requires k <= |chunk| && done + |chunk| <= |data| && chunk == data[done..done + |chunk|] && at == addr + done
    ensures Store(Store(m, addr, data[..done]), at, chunk[..k]) == Store(m, addr, data[..done + k])
  {
    assert chunk[..k] == data[done..done + k];
    StoreTwice(m, addr, data, done, k);
  }

  lemma StoreTwice(m: Image, addr: nat, data: seq<Byte>, done: nat, n: nat)
    requires done + n <= |data|
    ensures Store(Store(m, addr, data[..done]), addr + done, data[done..done + n]) == Store(m, addr, data[..done + n])
  {
  }

  lemma RegionIsMapped(layout: seq<Region>, m: Image, r: Region)
    requires Maps(layout, m) && r in layout
    ensures forall a: nat :: r.start <= a < r.start + r.len ==> a in m
  {
    forall a: nat | r.start <= a < r.start + r.len
      ensures a in m
    {
      assert r.Contains(a);
    }
  }

  // ----- Restoring is an overlay -----

  /** Entry e is written whole: it lies in one region, and so does its claimed size. */
  predicate EntryFits(layout: seq<Region>, e: MemoryRegion) {
    && FindRegion(layout, e.guestAddr).Some?
    && var r := FindRegion(layout, e.guestAddr).value;
       e.guestAddr + e.size <= r.End() && e.guestAddr + |e.data| <= r.End()
  }

  function RestoreWrites(es: seq<MemoryRegion>): (ws: seq<Write>)
    ensures |ws| == |es|
  {
    seq(|es|, i requires 0 <= i < |es| => Write(es[i].guestAddr, es[i].data))
  }

  lemma RestoreEntryExactly(m: Image, layout: seq<Region>, e: MemoryRegion)
    requires ValidLayout(layout)
    ensures RestoreEntry(m, layout, e).outcome.Done? <==> EntryFits(layout, e)
    ensures EntryFits(layout, e) ==> RestoreEntry(m, layout, e).image == Store(m, e.guestAddr, e.data)
  {
    if FindRegion(layout, e.guestAddr).Some? {
      FoundRegionContains(layout, e.guestAddr);
      var r := FindRegion(layout, e.guestAddr).value;
      assert r.End() < U64_LIMIT;
      assert EntryFits(layout, e) ==> e.data[..Kept(r, e)] == e.data;
    }
  }

  /**
   A list of entries is restored exactly when every entry fits, whatever their sizes and overlaps,
   and memory is then the old one overlaid with the entries in list order.
   */
  lemma {:induction false} RestoreIsOverlay(m: Image, layout: seq<Region>, es: seq<MemoryRegion>)
    requires ValidLayout(layout)
    ensures Restore(m, layout, es).outcome.Done? <==> forall i :: 0 <= i < |es| ==> EntryFits(layout, es[i])
    ensures Restore(m, layout, es).outcome.Done? ==>
              Restore(m, layout, es).image == ApplyAll(m, RestoreWrites(es))
    decreases |es|
  {
    if es == [] {
    } else {
      RestoreEntryExactly(m, layout, es[0]);
      RestoreIsOverlay(RestoreEntry(m, layout, es[0]).image, layout, es[1..]);
      assert forall i :: 1 <= i < |es| ==> es[i] == es[1..][i - 1];
      assert RestoreWrites(es)[1..] == RestoreWrites(es[1..]);
    }
  }

  /**
   When restoring fails it fails at the first entry k that does not fit: the entries before it
   are overlaid, k contributes at most a prefix of its data, and the entries after it nothing.
   */
  lemma {:induction false} FailedRestoreStops(m: Image, layout: seq<Region>, es: seq<MemoryRegion>, k: nat)
    requires ValidLayout(layout) && k < |es| && !EntryFits(layout, es[k])
    requires forall i :: 0 <= i < k ==> EntryFits(layout, es[i])
    ensures Restore(m, layout, es)
         == Report(Failed, RestoreEntry(ApplyAll(m, RestoreWrites(es[..k])), layout, es[k]).image)
    decreases k
  {
    RestoreEntryExactly(m, layout, es[0]);
    if k == 0 {
      assert RestoreWrites(es[..0]) == [];
    } else {
      var m1 := RestoreEntry(m, layout, es[0]).image;
      FailedRestoreStops(m1, layout, es[1..], k - 1);
      assert es[1..][..k - 1] == es[..k][1..];
      assert RestoreWrites(es[..k])[1..] == RestoreWrites(es[1..][..k - 1]);
    }
  }

  /** An entry that fails leaves at most a prefix of its data. */
  lemma FailedEntryLeavesPrefix(m: Image, layout: seq<Region>, e: MemoryRegion)
    ensures exists n: nat :: n <= |e.data| && RestoreEntry(m, layout, e).image == StorePrefix(m, e, n)
  {
    EmptyPrefix(m, e);
    if FindRegion(layout, e.guestAddr).Some? {
      FoundRegionContains(layout, e.guestAddr);
    }
  }

  /**
   How long that prefix is: nothing when no region holds the address or the claimed size reaches
   past the region, otherwise as much as the region has room for.
   */
  lemma EntryLeavesExactly(m: Image, layout: seq<Region>, e: MemoryRegion)
    requires ValidLayout(layout)
    ensures var r := FindRegion(layout, e.guestAddr);
            if r.None? || r.value.start + r.value.len < e.guestAddr + e.size then RestoreEntry(m, layout, e).image == m
            else
              var room := r.value.start + r.value.len - e.guestAddr;
              RestoreEntry(m, layout, e).image
              == Store(m, e.guestAddr, if 0 <= room < |e.data| then e.data[..room] else e.data)
  {
    if FindRegion(layout, e.guestAddr).Some? {
      FoundRegionContains(layout, e.guestAddr);
    }
  }

  // ----- Round trip -----

  /** What is saved: for each region in order its start, its length and all of its bytes. */
  lemma SavedExactly(m: Image, layout: seq<Region>, i: nat, j: nat)
    requires ValidLayout(layout) && Maps(layout, m) && i < |layout| && j < layout[i].len
    ensures var e, a := Saved(m, layout)[i], layout[i].start + j;
            && e.guestAddr == layout[i].start && e.size == layout[i].len && |e.data| == layout[i].len
            && HoldsByte(m, a, e.data[j])
  {
    RegionIsMapped(layout, m, layout[i]);
  }

  /** A saved region reads back the memory it was saved from. */
  lemma SavedByte(m: Image, layout: seq<Region>, i: nat, a: nat)
    requires ValidLayout(layout) && Maps(layout, m)
    requires i < |layout| && layout[i].Contains(a)
    ensures a in m && LastByte(RestoreWrites(Saved(m, layout)), a) == Some(m[a])
  {
    RegionIsMapped(layout, m, layout[i]);
    LastByteIs(RestoreWrites(Saved(m, layout)), i, a);
  }

  lemma SavedEntriesFit(m: Image, layout: seq<Region>)
    requires ValidLayout(layout) && Maps(layout, m)
    ensures forall i :: 0 <= i < |layout| ==> EntryFits(layout, Saved(m, layout)[i])
  {
    forall i | 0 <= i < |layout|
      ensures EntryFits(layout, Saved(m, layout)[i])
    {
      FindsTheRegion(layout, i, layout[i].start);
    }
  }

  /** Saving one memory and restoring onto any other of the same layout succeeds and reproduces every byte. */
  lemma SaveThenRestore(m: Image, other: Image, layout: seq<Region>)
    requires ValidLayout(layout) && Maps(layout, m) && Maps(layout, other)
    ensures Restore(other, layout, Saved(m, layout)) == Report(Done, m)
  {
    SavedEntriesFit(m, layout);
    RestoreIsOverlay(other, layout, Saved(m, layout));
    SavedOverlayIsTotal(m, other, layout);
  }

  lemma SavedOverlayIsTotal(m: Image, other: Image, layout: seq<Region>)
    requires ValidLayout(layout) && Maps(layout, m) && Maps(layout, other)
    ensures ApplyAll(other, RestoreWrites(Saved(m, layout))) == m
  {
    hide RestoreWrites, Saved, ApplyAll, LastByte, ValidLayout;
    var ws := RestoreWrites(Saved(m, layout));
    SameAddresses(m, other, layout);
    forall a: nat | a in m
      ensures ApplyAll(other, ws)[a] == m[a]
    {
      var i :| 0 <= i < |layout| && layout[i].Contains(a);
      SavedByte(m, layout, i, a);
      ApplyAllAt(other, ws, a);
    }
  }

  lemma SameAddresses(m: Image, other: Image, layout: seq<Region>)
    requires Maps(layout, m) && Maps(layout, other)
    ensures m.Keys == other.Keys
  {
    assert forall a: nat :: a in m <==> a in other;
  }
}
