/**
 kernel_loader.rs: copies the PT_LOAD segments of an ELF file into guest memory, then lays
 down the page tables, the command line and the boot parameters.
 */
module KernelLoader {
  import opened Words
  import opened GuestMemory
  import opened WriteLog

  const PT_LOAD: U32 := 1
  const PAGE_TABLE_BASE: nat := 0x9000
  const CMDLINE: nat := 0x10000
  const BOOT_PARAMS: nat := 0x7000

  datatype ProgramHeader = ProgramHeader(pType: U32, offset: U64, filesz: U64, memsz: U64, paddr: U64)

  /** What goblin hands the loader. */
  datatype Elf = Elf(headers: seq<ProgramHeader>, entry: U64)

  // ----- The writes, in the order the loader issues them -----

  /** 64-bit wrap-around of `p_offset + p_filesz`. */
  function FileEnd(h: ProgramHeader): U64 {
    (h.offset + h.filesz) % U64_LIMIT
  }

  /** One turn of the segment loop. */
  function CopySegment(m: Image, file: seq<Byte>, h: ProgramHeader): (r: Report)
    ensures r.image.Keys == m.Keys
  {
    if h.pType != PT_LOAD then Report(Done, m)
    else if FileEnd(h) > |file| then Report(Failed, m)
    else if h.offset > FileEnd(h) then Report(Panicked, m)
    else
      var data := file[h.offset..FileEnd(h)];
      Report(if Fits(m, h.paddr, |data|) then Done else Failed, WriteThrough(m, h.paddr, data))
  }

  function RunSegments(m: Image, file: seq<Byte>, headers: seq<ProgramHeader>): (r: Report)
    ensures r.image.Keys == m.Keys
    decreases |headers|
  {
    if headers == [] then Report(Done, m)
    else
      var r := CopySegment(m, file, headers[0]);
      if r.outcome.Done? then RunSegments(r.image, file, headers[1..]) else r
  }

  function Pml4Entry(base: nat): nat {
    BitOr(base + 0x1000, 0x3)
  }

  function PdptEntry(base: nat, i: nat): nat {
    BitOr(base + 0x2000 + i * 0x1000, 0x3)
  }

  function PdEntry(i: nat): nat {
    BitOr(i * 0x20_0000, 0x83)
  }

  function PdptWrite(base: nat, i: nat): Write {
    Write(base + 0x1000 + i * 8, LeBytes(PdptEntry(base, i), 8))
  }

  function PdWrite(base: nat, i: nat): Write {
    Write(base + 0x2000 + i * 8, LeBytes(PdEntry(i), 8))
  }

  function PdptWrites(base: nat): (ws: seq<Write>)
    ensures |ws| == 4
  {
    seq(4, i requires 0 <= i => PdptWrite(base, i))
  }

  function PdWrites(base: nat): (ws: seq<Write>)
    ensures |ws| == 2048
  {
    seq(2048, i requires 0 <= i => PdWrite(base, i))
  }

  function Splice(s: seq<Byte>, at: nat, data: seq<Byte>): (r: seq<Byte>)
    requires at + |data| <= |s|
    ensures |r| == |s|
  {
    s[..at] + data + s[at + |data|..]
  }

  /** The zero page, field by field. */
  function BootParams(): (s: seq<Byte>)
    ensures |s| == 4096
  {
    var s := Splice(Zeros(4096), 0x210, [0xFF]);
    var s := Splice(s, 0x228, LeBytes(CMDLINE, 4));
    var s := Splice(s, 0x1e8, [1]);
    var s := Splice(s, 0x2d0, LeBytes(0, 8));
    var s := Splice(s, 0x2d8, LeBytes(0x800_0000, 8));
    Splice(s, 0x2e0, LeBytes(1, 4))
  }

  function Pml4Writes(base: nat): seq<Write> {
    [Write(base, Zeros(0x6000)), Write(base, LeBytes(Pml4Entry(base), 8))]
  }

  function TableWrites(base: nat): seq<Write> {
    Pml4Writes(base) + PdptWrites(base) + PdWrites(base)
  }

  function ParamWrites(cmdline: seq<Byte>): seq<Write> {
    [Write(CMDLINE, cmdline + [0]), Write(BOOT_PARAMS, BootParams())]
  }

  function BootWrites(base: nat, cmdline: seq<Byte>): seq<Write> {
    TableWrites(base) + ParamWrites(cmdline)
  }

  /** The whole of `load_kernel`.  The last step reads 16 bytes at the entry point and unwraps. */
  function LoadReport(m: Image, base: nat, file: seq<Byte>, elf: Elf, cmdline: seq<Byte>): Report {
    var s := RunSegments(m, file, elf.headers);
    if !s.outcome.Done? then s
    else
      var b := RunWrites(s.image, BootWrites(base, cmdline));
      if b.outcome.Done? && !Fits(b.image, elf.entry, 16) then b.(outcome := Panicked) else b
  }

  // ----- The loader -----

  class KernelLoader {
    var entryPoint: U64
    var cmdline: seq<Byte>

    constructor ()
      ensures entryPoint == 0 && cmdline == []
    {
      entryPoint, cmdline := 0, [];
    }

    method LoadKernel(ram: Ram, file: seq<Byte>, elf: Elf, cmdline: seq<Byte>) returns (outcome: Outcome)
      modifies this, ram
      ensures Report(outcome, ram.bytes) == LoadReport(old(ram.bytes), PAGE_TABLE_BASE, file, elf, cmdline)
      ensures RunSegments(old(ram.bytes), file, elf.headers).outcome.Done? ==>
                entryPoint == elf.entry && this.cmdline == cmdline
      ensures !RunSegments(old(ram.bytes), file, elf.headers).outcome.Done? ==>
                entryPoint == old(entryPoint) && this.cmdline == old(this.cmdline)
    {
      outcome := CopySegments(ram, file, elf.headers);
      if outcome != Done { return; }
      entryPoint, this.cmdline := elf.entry, cmdline;
      outcome := BuildBootStructures(ram, PAGE_TABLE_BASE, cmdline);
      if outcome != Done { return; }
      var ok, _ := ram.ReadSlice(entryPoint, 16);
      if !ok { outcome := Panicked; }
    }
  }

  method CopySegments(ram: Ram, file: seq<Byte>, headers: seq<ProgramHeader>) returns (outcome: Outcome)
    modifies ram
    ensures Report(outcome, ram.bytes) == RunSegments(old(ram.bytes), file, headers)
  {
    for k := 0 to |headers|
      invariant RunSegments(ram.bytes, file, headers[k..]) == RunSegments(old(ram.bytes), file, headers)
    {
      var h := headers[k];
      assert headers[k..][1..] == headers[k + 1..];
      if h.pType == PT_LOAD {
        var fileEnd := FileEnd(h);
        if fileEnd > |file| { return Failed; }
        if h.offset > fileEnd { return Panicked; }
        var ok := ram.WriteSlice(file[h.offset..fileEnd], h.paddr);
        if !ok { return Failed; }
      }
    }
    outcome := Done;
  }

  method BuildBootStructures(ram: Ram, base: nat, cmdline: seq<Byte>) returns (outcome: Outcome)
    modifies ram
    ensures Report(outcome, ram.bytes) == RunWrites(old(ram.bytes), BootWrites(base, cmdline))
  {
    RunWritesConcat(ram.bytes, TableWrites(base), ParamWrites(cmdline));
    outcome := BuildTables(ram, base);
    if outcome != Done { return; }
    var text, params := Write(CMDLINE, cmdline + [0]), Write(BOOT_PARAMS, BootParams());
    assert ParamWrites(cmdline) == [text] + ([params] + []);
    RunWritesStep(ram.bytes, text, [params] + []);
    var ok := ram.WriteSlice(text.data, text.addr);
    if !ok { return Failed; }
    RunWritesStep(ram.bytes, params, []);
    ok := ram.WriteSlice(params.data, params.addr);
    outcome := if ok then Done else Failed;
  }

  method BuildTables(ram: Ram, base: nat) returns (outcome: Outcome)
    modifies ram
    ensures Report(outcome, ram.bytes) == RunWrites(old(ram.bytes), TableWrites(base))
  {
    var zero, pml4 := Write(base, Zeros(0x6000)), Write(base, LeBytes(Pml4Entry(base), 8));
    ghost var entries := PdptWrites(base) + PdWrites(base);
    assert TableWrites(base) == [zero] + ([pml4] + entries);
    RunWritesStep(ram.bytes, zero, [pml4] + entries);
    var ok := ram.WriteSlice(zero.data, base);
    if !ok { return Failed; }
    RunWritesStep(ram.bytes, pml4, entries);
    ok := ram.WriteSlice(pml4.data, base);
    if !ok { return Failed; }
    RunWritesConcat(ram.bytes, PdptWrites(base), PdWrites(base));
    outcome := FillPdpt(ram, base);
    if outcome == Done { outcome := FillPd(ram, base); }
  }

  method FillPdpt(ram: Ram, base: nat) returns (outcome: Outcome)
    modifies ram
    ensures Report(outcome, ram.bytes) == RunWrites(old(ram.bytes), PdptWrites(base))
  {
    for i := 0 to 4
      invariant RunWrites(ram.bytes, PdptWrites(base)[i..]) == RunWrites(old(ram.bytes), PdptWrites(base))
    {
      var entry := PdptWrite(base, i);
      SplitFirst(PdptWrites(base), i);
      RunWritesStep(ram.bytes, entry, PdptWrites(base)[i + 1..]);
      var ok := ram.WriteSlice(entry.data, entry.addr);
      if !ok { return Failed; }
    }
    outcome := Done;
  }

  method FillPd(ram: Ram, base: nat) returns (outcome: Outcome)
    modifies ram
    ensures Report(outcome, ram.bytes) == RunWrites(old(ram.bytes), PdWrites(base))
  {
    for i := 0 to 2048
      invariant RunWrites(ram.bytes, PdWrites(base)[i..]) == RunWrites(old(ram.bytes), PdWrites(base))
    {
      var entry := PdWrite(base, i);
      SplitFirst(PdWrites(base), i);
      RunWritesStep(ram.bytes, entry, PdWrites(base)[i + 1..]);
      var ok := ram.WriteSlice(entry.data, entry.addr);
      if !ok { return Failed; }
    }
    outcome := Done;
  }

  // ----- When the loader succeeds, and what it then leaves -----

  predicate InFile(file: seq<Byte>, h: ProgramHeader) {
    h.offset + h.filesz <= |file|
  }

  predicate SegmentAccepted(m: Image, file: seq<Byte>, h: ProgramHeader) {
    h.pType == PT_LOAD ==> InFile(file, h) && Fits(m, h.paddr, h.filesz)
  }

  /** The load fits: every segment lies in the file and in memory, and so do the boot structures and the entry. */
  predicate Accepted(m: Image, base: nat, file: seq<Byte>, elf: Elf, cmdline: seq<Byte>) {
    && (forall i :: 0 <= i < |elf.headers| ==> SegmentAccepted(m, file, elf.headers[i]))
    && BootFits(m, base, cmdline)
    && Fits(m, elf.entry, 16)
  }

  function SegmentWrite(file: seq<Byte>, h: ProgramHeader): (ws: seq<Write>) {
    if h.pType == PT_LOAD && InFile(file, h) then [Write(h.paddr, file[h.offset..h.offset + h.filesz])] else []
  }

  function SegmentWrites(file: seq<Byte>, headers: seq<ProgramHeader>): (ws: seq<Write>) {
    if headers == [] then [] else SegmentWrite(file, headers[0]) + SegmentWrites(file, headers[1..])
  }

  /** The wrapped sum passes both checks exactly when the true sum lies in the file. */
  lemma FileEndChecks(file: seq<Byte>, h: ProgramHeader)
    requires |file| < U64_LIMIT
    ensures InFile(file, h) <==> FileEnd(h) <= |file| && h.offset <= FileEnd(h)
    ensures InFile(file, h) ==> FileEnd(h) == h.offset + h.filesz
  {
  }

  lemma CopySegmentExactly(m: Image, file: seq<Byte>, h: ProgramHeader)
    requires |file| < U64_LIMIT
    ensures CopySegment(m, file, h).outcome.Done? <==> SegmentAccepted(m, file, h)
    ensures SegmentAccepted(m, file, h) ==>
              CopySegment(m, file, h).image == ApplyAll(m, SegmentWrite(file, h))
  {
    FileEndChecks(file, h);
  }

  lemma {:induction false} RunSegmentsExactly(m: Image, file: seq<Byte>, headers: seq<ProgramHeader>)
    requires |file| < U64_LIMIT
    ensures RunSegments(m, file, headers).outcome.Done? <==>
            forall i :: 0 <= i < |headers| ==> SegmentAccepted(m, file, headers[i])
    ensures RunSegments(m, file, headers).outcome.Done? ==>
              RunSegments(m, file, headers).image == ApplyAll(m, SegmentWrites(file, headers))
    decreases |headers|
  {
    if headers == [] {
    } else {
      var h, rest := headers[0], headers[1..];
      CopySegmentExactly(m, file, h);
      var m1 := CopySegment(m, file, h).image;
      RunSegmentsExactly(m1, file, rest);
      ApplyAllConcat(m, SegmentWrite(file, h), SegmentWrites(file, rest));
      assert forall g :: SegmentAccepted(m, file, g) <==> SegmentAccepted(m1, file, g) by {
        AcceptedByKeys(m, m1, file);
      }
      assert forall i :: 1 <= i < |headers| ==> headers[i] == rest[i - 1];
    }
  }

  lemma AcceptedByKeys(m: Image, m1: Image, file: seq<Byte>)
    requires m.Keys == m1.Keys
    ensures forall h :: SegmentAccepted(m, file, h) <==> SegmentAccepted(m1, file, h)
  {
    forall h: ProgramHeader
      ensures SegmentAccepted(m, file, h) <==> SegmentAccepted(m1, file, h)
    {
      FitsByKeys(m, m1, h.paddr, h.filesz);
    }
  }

  predicate BootFits(m: Image, base: nat, cmdline: seq<Byte>) {
    Fits(m, base, 0x6000) && Fits(m, CMDLINE, |cmdline| + 1) && Fits(m, BOOT_PARAMS, 0x1000)
  }

  lemma TableWritesFit(m: Image, base: nat)
    ensures AllFit(m, TableWrites(base)) <==> Fits(m, base, 0x6000)
  {
    var head := Pml4Writes(base);
    AllFitConcat(m, head, PdptWrites(base));
    AllFitConcat(m, head + PdptWrites(base), PdWrites(base));
    assert AllFit(m, head) ==> Fits(m, head[0].addr, |head[0].data|);
  }

  lemma BootRunExactly(m: Image, base: nat, cmdline: seq<Byte>)
    ensures RunWrites(m, BootWrites(base, cmdline)).outcome.Done? <==> BootFits(m, base, cmdline)
    ensures BootFits(m, base, cmdline) ==>
              RunWrites(m, BootWrites(base, cmdline)).image == ApplyAll(m, BootWrites(base, cmdline))
  {
    var params := ParamWrites(cmdline);
    RunWritesExactly(m, BootWrites(base, cmdline));
    TableWritesFit(m, base);
    AllFitConcat(m, TableWrites(base), params);
    assert AllFit(m, params) ==> Fits(m, params[0].addr, |params[0].data|) && Fits(m, params[1].addr, |params[1].data|);
  }

  /** `load_kernel` succeeds exactly on accepted input, and then memory is the writes applied in order. */
  lemma LoadExactly(m: Image, base: nat, file: seq<Byte>, elf: Elf, cmdline: seq<Byte>)
    requires |file| < U64_LIMIT
    ensures LoadReport(m, base, file, elf, cmdline).outcome.Done? <==> Accepted(m, base, file, elf, cmdline)
    ensures Accepted(m, base, file, elf, cmdline) ==>
              LoadReport(m, base, file, elf, cmdline).image ==
              ApplyAll(m, SegmentWrites(file, elf.headers) + BootWrites(base, cmdline))
  {
    hide Fits, ApplyAll, RunWrites, RunSegments, SegmentWrites, BootWrites;
    RunSegmentsExactly(m, file, elf.headers);
    var m1 := RunSegments(m, file, elf.headers).image;
    var boot := BootWrites(base, cmdline);
    BootRunExactly(m1, base, cmdline);
    FitsByKeys(m, m1, base, 0x6000);
    FitsByKeys(m, m1, CMDLINE, |cmdline| + 1);
    FitsByKeys(m, m1, BOOT_PARAMS, 0x1000);
    FitsByKeys(m, RunWrites(m1, boot).image, elf.entry, 16);
    ApplyAllConcat(m, SegmentWrites(file, elf.headers), boot);
  }

  // ----- Last writer wins -----

  predicate Loads(h: ProgramHeader, a: nat) {
    h.pType == PT_LOAD && h.paddr <= a < h.paddr + h.filesz
  }

  /** Header i is the last PT_LOAD header whose file part covers a. */
  predicate LastLoader(headers: seq<ProgramHeader>, i: nat, a: nat) {
    && i < |headers| && Loads(headers[i], a)
    && forall j :: i < j < |headers| ==> !Loads(headers[j], a)
  }

  /** The file byte header h puts at a. */
  function SegmentByte(file: seq<Byte>, h: ProgramHeader, a: nat): Byte
    requires InFile(file, h) && Loads(h, a)
  {
    file[h.offset + (a - h.paddr)]
  }

  lemma {:induction false} UnloadedByte(file: seq<Byte>, headers: seq<ProgramHeader>, a: nat)
    requires forall i :: 0 <= i < |headers| ==> !Loads(headers[i], a)
    ensures LastByte(SegmentWrites(file, headers), a) == None
  {
    if headers == [] {
    } else {
      UnloadedByte(file, headers[1..], a);
      LastByteConcat(SegmentWrite(file, headers[0]), SegmentWrites(file, headers[1..]), a);
      UncoveredHasNoLastByte(SegmentWrite(file, headers[0]), a);
    }
  }

  lemma {:induction false} LoadedByte(file: seq<Byte>, headers: seq<ProgramHeader>, i: nat, a: nat)
    requires LastLoader(headers, i, a) && InFile(file, headers[i])
    ensures LastByte(SegmentWrites(file, headers), a) == Some(SegmentByte(file, headers[i], a))
  {
    LastByteConcat(SegmentWrite(file, headers[0]), SegmentWrites(file, headers[1..]), a);
    if i == 0 {
      UnloadedByte(file, headers[1..], a);
      LastByteIs(SegmentWrite(file, headers[0]), 0, a);
    } else {
      LoadedByte(file, headers[1..], i - 1, a);
    }
  }

  predicate InBootStructures(base: nat, cmdline: seq<Byte>, a: nat) {
    || base <= a < base + 0x6000
    || CMDLINE <= a < CMDLINE + |cmdline| + 1
    || BOOT_PARAMS <= a < BOOT_PARAMS + 0x1000
  }

  lemma TableWritesStayInside(base: nat, a: nat)
    requires !(base <= a < base + 0x6000)
    ensures LastByte(TableWrites(base), a) == None
  {
    var head := Pml4Writes(base);
    LastByteConcat(head, PdptWrites(base), a);
    LastByteConcat(head + PdptWrites(base), PdWrites(base), a);
    UncoveredHasNoLastByte(head, a);
    UncoveredHasNoLastByte(PdptWrites(base), a);
    UncoveredHasNoLastByte(PdWrites(base), a);
  }

  lemma BootWritesStayInside(base: nat, cmdline: seq<Byte>, a: nat)
    requires !InBootStructures(base, cmdline, a)
    ensures LastByte(BootWrites(base, cmdline), a) == None
  {
    TableWritesStayInside(base, a);
    LastByteConcat(TableWrites(base), ParamWrites(cmdline), a);
    UncoveredHasNoLastByte(ParamWrites(cmdline), a);
  }

  lemma ByteOutsideBoot(m: Image, base: nat, file: seq<Byte>, elf: Elf, cmdline: seq<Byte>, a: nat)
    requires |file| < U64_LIMIT && Accepted(m, base, file, elf, cmdline)
    requires a in m && !InBootStructures(base, cmdline, a)
    ensures LoadReport(m, base, file, elf, cmdline).image[a]
         == LastByte(SegmentWrites(file, elf.headers), a).GetOr(m[a])
  {
    LoadExactly(m, base, file, elf, cmdline);
    var segments, boot := SegmentWrites(file, elf.headers), BootWrites(base, cmdline);
    ApplyAllAt(m, segments + boot, a);
    LastByteConcat(segments, boot, a);
    BootWritesStayInside(base, cmdline, a);
  }

  /** Outside the boot structures, the last PT_LOAD segment whose file part covers an address decides its byte. */
  lemma LastSegmentWins(m: Image, base: nat, file: seq<Byte>, elf: Elf, cmdline: seq<Byte>, i: nat, a: nat)
    requires |file| < U64_LIMIT && Accepted(m, base, file, elf, cmdline)
    requires a in m && !InBootStructures(base, cmdline, a)
    requires LastLoader(elf.headers, i, a)
    ensures LoadReport(m, base, file, elf, cmdline).image[a] == SegmentByte(file, elf.headers[i], a)
  {
    ByteOutsideBoot(m, base, file, elf, cmdline, a);
    LoadedByte(file, elf.headers, i, a);
  }

  /** An address no file part covers keeps its byte. */
  lemma UncoveredByteStays(m: Image, base: nat, file: seq<Byte>, elf: Elf, cmdline: seq<Byte>, a: nat)
    requires |file| < U64_LIMIT && Accepted(m, base, file, elf, cmdline)
    requires a in m && !InBootStructures(base, cmdline, a)
    requires forall i :: 0 <= i < |elf.headers| ==> !Loads(elf.headers[i], a)
    ensures LoadReport(m, base, file, elf, cmdline).image[a] == m[a]
  {
    ByteOutsideBoot(m, base, file, elf, cmdline, a);
    UnloadedByte(file, elf.headers, a);
  }

  /** The part of a segment in memory that the file does not give: an ELF loader is to clear it. */
  predicate InTail(h: ProgramHeader, a: nat) {
    h.pType == PT_LOAD && h.paddr + h.filesz <= a < h.paddr + h.memsz
  }

  predicate TailIsZero(r: Image, h: ProgramHeader) {
    forall a: nat :: a in r && InTail(h, a) ==> r[a] == 0
  }

  /** The segments leave zero at a: the last file part covering it has a zero there, or memory had if none covers it. */
  ghost predicate SegmentsGiveZero(m: Image, file: seq<Byte>, headers: seq<ProgramHeader>, a: nat)
    requires a in m
  {
    && ((forall i :: 0 <= i < |headers| ==> !Loads(headers[i], a)) ==> m[a] == 0)
    && (forall i: nat :: LastLoader(headers, i, a) ==>
          InFile(file, headers[i]) && SegmentByte(file, headers[i], a) == 0)
  }

  /** What the load leaves at a is zero, judged from the file, the command line and memory before it. */
  ghost predicate GivesZero(m: Image, base: nat, file: seq<Byte>, elf: Elf, cmdline: seq<Byte>, a: nat)
    requires a in m
  {
    if InBootStructures(base, cmdline, a) then LastByte(BootWrites(base, cmdline), a) == Some(0)
    else SegmentsGiveZero(m, file, elf.headers, a)
  }

  /**
   Tails are not cleared.  A tail reads as zero if and only if each byte of it is given a zero: by
   the boot structures where they lie, elsewhere by the last segment covering it, or by memory as
   it was where none does.
   */
  lemma TailIsZeroExactly(m: Image, base: nat, file: seq<Byte>, elf: Elf, cmdline: seq<Byte>, h: ProgramHeader)
    requires |file| < U64_LIMIT && Accepted(m, base, file, elf, cmdline)
    ensures TailIsZero(LoadReport(m, base, file, elf, cmdline).image, h)
       <==> forall a: nat :: a in m && InTail(h, a) ==> GivesZero(m, base, file, elf, cmdline, a)
  {
    hide LoadReport, GivesZero, SegmentAccepted, BootFits;
    var r := LoadReport(m, base, file, elf, cmdline).image;
    LoadExactly(m, base, file, elf, cmdline);
    assert r.Keys == m.Keys;
    assert forall a: nat :: a in r <==> a in m;
    forall a: nat | a in m
      ensures r[a] == 0 <==> GivesZero(m, base, file, elf, cmdline, a)
    {
      LoadedZeroExactly(m, base, file, elf, cmdline, a);
    }
  }

  lemma LoadedZeroExactly(m: Image, base: nat, file: seq<Byte>, elf: Elf, cmdline: seq<Byte>, a: nat)
    requires |file| < U64_LIMIT && Accepted(m, base, file, elf, cmdline) && a in m
    ensures a in LoadReport(m, base, file, elf, cmdline).image
    ensures LoadReport(m, base, file, elf, cmdline).image[a] == 0 <==> GivesZero(m, base, file, elf, cmdline, a)
  {
    hide LoadReport, SegmentsGiveZero, BootFits, SegmentAccepted, BootWrites, LastByte, InBootStructures;
    LoadKeepsAddress(m, base, file, elf, cmdline, a);
    if InBootStructures(base, cmdline, a) {
      ByteInBoot(m, base, file, elf, cmdline, a);
    } else {
      ZeroByteExactly(m, base, file, elf, cmdline, a);
    }
  }

  /** In the boot structures the boot writes decide, whatever the segments wrote. */
  lemma ByteInBoot(m: Image, base: nat, file: seq<Byte>, elf: Elf, cmdline: seq<Byte>, a: nat)
    requires |file| < U64_LIMIT && Accepted(m, base, file, elf, cmdline)
    requires a in m && InBootStructures(base, cmdline, a)
    ensures a in LoadReport(m, base, file, elf, cmdline).image
    ensures LastByte(BootWrites(base, cmdline), a) == Some(LoadReport(m, base, file, elf, cmdline).image[a])
  {
    hide LoadReport, BootWrites, SegmentWrites, Accepted, LastByte;
    LoadExactly(m, base, file, elf, cmdline);
    LoadKeepsAddress(m, base, file, elf, cmdline, a);
    var segments, boot := SegmentWrites(file, elf.headers), BootWrites(base, cmdline);
    ApplyAllAt(m, segments + boot, a);
    LastByteConcat(segments, boot, a);
    BootWritesCover(base, cmdline, a);
  }

  lemma BootWritesCover(base: nat, cmdline: seq<Byte>, a: nat)
    requires InBootStructures(base, cmdline, a)
    ensures LastByte(BootWrites(base, cmdline), a).Some?
  {
    hide PdptWrites, PdWrites, BootParams;
    var head := Pml4Writes(base);
    if base <= a < base + 0x6000 {
      CoveredHasLastByte(head, 0, a);
    } else {
      CoveredHasLastByte(ParamWrites(cmdline), if CMDLINE <= a < CMDLINE + |cmdline| + 1 then 0 else 1, a);
    }
    LastByteConcat(head, PdptWrites(base), a);
    LastByteConcat(head + PdptWrites(base), PdWrites(base), a);
    LastByteConcat(TableWrites(base), ParamWrites(cmdline), a);
  }

  lemma ZeroByteExactly(m: Image, base: nat, file: seq<Byte>, elf: Elf, cmdline: seq<Byte>, a: nat)
    requires |file| < U64_LIMIT && Accepted(m, base, file, elf, cmdline)
    requires a in m && !InBootStructures(base, cmdline, a)
    ensures a in LoadReport(m, base, file, elf, cmdline).image
    ensures LoadReport(m, base, file, elf, cmdline).image[a] == 0 <==> SegmentsGiveZero(m, file, elf.headers, a)
  {
    hide LoadReport, InBootStructures, BootFits, SegmentByte, SegmentsGiveZero, LastLoader, Fits;
    LoadKeepsAddress(m, base, file, elf, cmdline, a);
    if forall i :: 0 <= i < |elf.headers| ==> !Loads(elf.headers[i], a) {
      UncoveredByteStays(m, base, file, elf, cmdline, a);
      UncoveredGivesZero(m, file, elf.headers, a);
    } else {
      var i := FindLastLoader(elf.headers, a);
      LastSegmentWins(m, base, file, elf, cmdline, i, a);
      LoadedGivesZero(m, file, elf.headers, i, a);
    }
  }

  lemma LoadKeepsAddress(m: Image, base: nat, file: seq<Byte>, elf: Elf, cmdline: seq<Byte>, a: nat)
    requires |file| < U64_LIMIT && Accepted(m, base, file, elf, cmdline) && a in m
    ensures a in LoadReport(m, base, file, elf, cmdline).image
  {
    hide LoadReport, Accepted, BootWrites, SegmentWrites;
    LoadExactly(m, base, file, elf, cmdline);
    assert a in ApplyAll(m, SegmentWrites(file, elf.headers) + BootWrites(base, cmdline)).Keys;
  }

  lemma UncoveredGivesZero(m: Image, file: seq<Byte>, headers: seq<ProgramHeader>, a: nat)
    requires a in m && forall i :: 0 <= i < |headers| ==> !Loads(headers[i], a)
    ensures SegmentsGiveZero(m, file, headers, a) <==> m[a] == 0
  {
    hide Loads, SegmentByte;
    assert forall i: nat :: !LastLoader(headers, i, a);
  }

  lemma LoadedGivesZero(m: Image, file: seq<Byte>, headers: seq<ProgramHeader>, i: nat, a: nat)
    requires a in m && LastLoader(headers, i, a) && SegmentAccepted(m, file, headers[i])
    ensures SegmentsGiveZero(m, file, headers, a) <==> InFile(file, headers[i]) && SegmentByte(file, headers[i], a) == 0
  {
    hide SegmentByte, Fits;
    assert Loads(headers[i], a);
    assert forall j: nat :: LastLoader(headers, j, a) ==> j == i;
  }

  lemma {:induction false} FindLastLoader(headers: seq<ProgramHeader>, a: nat) returns (i: nat)
    requires exists j :: 0 <= j < |headers| && Loads(headers[j], a)
    ensures LastLoader(headers, i, a)
  {
    i := |headers| - 1;
    if Loads(headers[i], a) {
    } else {
      i := FindLastLoader(headers[..i], a);
    }
  }

  // ----- Loads that do not succeed -----

  /** An access of no bytes is still refused at an address that is not mapped; any other needs every byte mapped. */
  lemma FitsExactly(m: Image, addr: nat, n: nat)
    ensures Fits(m, addr, 0) <==> addr in m
    ensures n > 0 ==> (Fits(m, addr, n) <==> forall a: nat :: addr <= a < addr + n ==> a in m)
  {
  }

  /** A segment panics exactly when its wrapped end lies in the file but below its start. */
  lemma SegmentOutcomeExactly(m: Image, file: seq<Byte>, h: ProgramHeader)
    requires |file| < U64_LIMIT
    ensures CopySegment(m, file, h).outcome == Panicked
       <==> h.pType == 1 && (h.offset + h.filesz) % U64_LIMIT <= |file| && (h.offset + h.filesz) % U64_LIMIT < h.offset
    ensures CopySegment(m, file, h).outcome == Failed
       <==> h.pType == 1 && ((h.offset + h.filesz) % U64_LIMIT > |file|
                             || (h.offset + h.filesz <= |file| && !Fits(m, h.paddr, h.filesz)))
  {
    hide WriteThrough, Fits;
    FileEndChecks(file, h);
  }

  /** A segment that is not loaded whole leaves a prefix of its file part, none of it if the file does not hold it. */
  lemma BadSegmentLeavesPrefix(m: Image, file: seq<Byte>, h: ProgramHeader)
    requires |file| < U64_LIMIT && !CopySegment(m, file, h).outcome.Done?
    ensures !InFile(file, h) ==> CopySegment(m, file, h).image == m
    ensures InFile(file, h) ==>
              var n := MappedPrefix(m, h.paddr, h.filesz);
              CopySegment(m, file, h).image == Store(m, h.paddr, file[h.offset..h.offset + h.filesz][..n])
  {
    hide Fits, MappedPrefix, Store;
    FileEndChecks(file, h);
  }

  /** Header k is the first the loader does not accept. */
  predicate FirstBad(m: Image, file: seq<Byte>, headers: seq<ProgramHeader>, k: nat) {
    && k < |headers| && !SegmentAccepted(m, file, headers[k])
    && forall i :: 0 <= i < k ==> SegmentAccepted(m, file, headers[i])
  }

  /** The segment loop stops at the first segment it does not accept, with all before it in memory and none after it. */
  lemma {:induction false} FailedSegmentsStop(m: Image, file: seq<Byte>, headers: seq<ProgramHeader>, k: nat)
    requires |file| < U64_LIMIT && FirstBad(m, file, headers, k)
    ensures RunSegments(m, file, headers)
         == CopySegment(ApplyAll(m, SegmentWrites(file, headers[..k])), file, headers[k])
    decreases k
  {
    hide CopySegment, SegmentAccepted, ApplyAll;
    CopySegmentExactly(m, file, headers[0]);
    if k == 0 {
      assert headers[..0] == [];
      NothingApplied(m);
    } else {
      var m1 := CopySegment(m, file, headers[0]).image;
      AcceptedByKeys(m, m1, file);
      FailedSegmentsStop(m1, file, headers[1..], k - 1);
      var front, rest := SegmentWrite(file, headers[0]), SegmentWrites(file, headers[1..][..k - 1]);
      assert headers[..k][1..] == headers[1..][..k - 1];
      ApplyAllConcat(m, front, rest);
    }
  }

  lemma NothingApplied(m: Image)
    ensures ApplyAll(m, []) == m
  {
  }

  /**
   Loading panics exactly when the first segment it does not accept has a wrapped end in the file
   below its start, or when everything is in place but the 16 bytes at the entry point are not mapped.
   */
  lemma LoadPanicsExactly(m: Image, base: nat, file: seq<Byte>, elf: Elf, cmdline: seq<Byte>)
    requires |file| < U64_LIMIT
    ensures LoadReport(m, base, file, elf, cmdline).outcome == Panicked
       <==> || (exists k: nat :: FirstBad(m, file, elf.headers, k) && WrapsBelowStart(file, elf.headers[k]))
            || ((forall i :: 0 <= i < |elf.headers| ==> SegmentAccepted(m, file, elf.headers[i]))
                && BootFits(m, base, cmdline) && !Fits(m, elf.entry, 16))
  {
    hide SegmentAccepted, CopySegment, WrapsBelowStart, BootWrites, RunWrites, BootFits;
    RunSegmentsExactly(m, file, elf.headers);
    if forall i :: 0 <= i < |elf.headers| ==> SegmentAccepted(m, file, elf.headers[i]) {
      LoadPanicsAtEntry(m, base, file, elf, cmdline);
      assert forall k: nat :: !FirstBad(m, file, elf.headers, k);
    } else {
      var k := FindFirstBad(m, file, elf.headers);
      FailedSegmentsStop(m, file, elf.headers, k);
      var m1 := ApplyAll(m, SegmentWrites(file, elf.headers[..k]));
      SegmentOutcome(m1, file, elf.headers[k]);
      assert forall j: nat :: FirstBad(m, file, elf.headers, j) ==> j == k;
    }
  }

  predicate WrapsBelowStart(file: seq<Byte>, h: ProgramHeader) {
    h.pType == 1 && (h.offset + h.filesz) % U64_LIMIT <= |file| && (h.offset + h.filesz) % U64_LIMIT < h.offset
  }

  lemma SegmentOutcome(m: Image, file: seq<Byte>, h: ProgramHeader)
    requires |file| < U64_LIMIT
    ensures CopySegment(m, file, h).outcome == Panicked <==> WrapsBelowStart(file, h)
  {
    SegmentOutcomeExactly(m, file, h);
  }

  lemma LoadPanicsAtEntry(m: Image, base: nat, file: seq<Byte>, elf: Elf, cmdline: seq<Byte>)
    requires |file| < U64_LIMIT && RunSegments(m, file, elf.headers).outcome.Done?
    ensures LoadReport(m, base, file, elf, cmdline).outcome == Panicked
       <==> BootFits(m, base, cmdline) && !Fits(m, elf.entry, 16)
  {
    hide BootWrites, Fits, ApplyAll;
    var s := RunSegments(m, file, elf.headers);
    BootRunExactly(s.image, base, cmdline);
    var b := RunWrites(s.image, BootWrites(base, cmdline));
    FitsByKeys(m, s.image, base, 0x6000);
    FitsByKeys(m, s.image, CMDLINE, |cmdline| + 1);
    FitsByKeys(m, s.image, BOOT_PARAMS, 0x1000);
    FitsByKeys(m, b.image, elf.entry, 16);
    RunWritesNeverPanics(s.image, BootWrites(base, cmdline));
  }

  lemma {:induction false} FindFirstBad(m: Image, file: seq<Byte>, headers: seq<ProgramHeader>) returns (k: nat)
    requires exists i :: 0 <= i < |headers| && !SegmentAccepted(m, file, headers[i])
    ensures FirstBad(m, file, headers, k)
  {
    hide SegmentAccepted;
    var before := headers[..|headers| - 1];
    if i :| 0 <= i < |before| && !SegmentAccepted(m, file, before[i]) {
      k := FindFirstBad(m, file, before);
    } else {
      k := |headers| - 1;
    }
  }
}
