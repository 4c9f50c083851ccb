/** What the guest finds in memory after `load_kernel`, and after `load_bootloader` on top of it. */
module BootImage {
  import opened Words
  import opened GuestMemory
  import opened WriteLog
  import opened PageWalk
  import opened KernelLoader
  import opened PageTables
  import opened Bootloader

  // ----- Reading the boot structures -----

  /** Memory holds the NUL-terminated string s at p. */
  ghost predicate HoldsCString(m: Image, p: nat, s: seq<Byte>) {
    && Fits(m, p, |s| + 1)
    && (forall i: nat :: i < |s| ==> s[i] != 0 && m[p + i] == s[i])
    && m[p + |s|] == 0
  }

  lemma CStringUnique(m: Image, p: nat, s: seq<Byte>, t: seq<Byte>)
    requires HoldsCString(m, p, s) && HoldsCString(m, p, t)
    ensures s == t
  {
    NoLonger(m, p, s, t);
    NoLonger(m, p, t, s);
  }

  lemma CharIsNotNul(m: Image, p: nat, s: seq<Byte>, i: nat)
    requires HoldsCString(m, p, s) && i < |s|
    ensures p + i in m && m[p + i] != 0
  {
    assert s[i] != 0;
  }

  lemma NoLonger(m: Image, p: nat, s: seq<Byte>, t: seq<Byte>)
    requires HoldsCString(m, p, s) && HoldsCString(m, p, t)
    ensures |t| <= |s|
  {
    if |s| < |t| {
      CharIsNotNul(m, p, t, |s|);
      assert false;
    }
  }

  /** The part of s before its first zero byte. */
  function UpToNul(s: seq<Byte>): (r: seq<Byte>)
    ensures r <= s
    ensures forall i: nat :: i < |r| ==> r[i] != 0
    ensures |r| < |s| ==> s[|r|] == 0
  {
    if s == [] || s[0] == 0 then [] else [s[0]] + UpToNul(s[1..])
  }

  /**
   The zero page at 0x7000 as the Linux x86 boot protocol reads it: a loader type, one RAM range
   [0, 128 MB) in the E820 map, and a pointer to the command line.
   */
  ghost predicate BootRecord(m: Image, cmdline: seq<Byte>) {
    && Word(m, BOOT_PARAMS + 0x210, 1) == Some(0xFF)
    && Word(m, BOOT_PARAMS + 0x1e8, 1) == Some(1)
    && Word(m, BOOT_PARAMS + 0x2d0, 8) == Some(0)
    && Word(m, BOOT_PARAMS + 0x2d8, 8) == Some(0x800_0000)
    && Word(m, BOOT_PARAMS + 0x2e0, 4) == Some(1)
    && Word(m, BOOT_PARAMS + 0x228, 4).Some?
    && HoldsCString(m, Word(m, BOOT_PARAMS + 0x228, 4).value, UpToNul(cmdline))
  }

  /** Where real-mode vector v points: segment * 16 + offset. */
  function Vector(m: Image, v: nat): Option<nat> {
    var off, segment := Word(m, 4 * v, 2), Word(m, 4 * v + 2, 2);
    if off.Some? && segment.Some? then Some(segment.value * 16 + off.value) else None
  }

  /** INT 0x10 reaches the teletype handler and INT 0x13, 0x15, 0x16 reach a bare iret. */
  ghost predicate BiosInstalled(m: Image) {
    && Vector(m, 0x10) == Some(0x1000)
    && Fits(m, 0x1000, 5) && Fetch(m, 0x1000, 5) == INT10_HANDLER
    && (forall v :: v in DUMMY_VECTORS ==> Vector(m, v) == Some(0x1010))
    && 0x1010 in m && m[0x1010] == IRET
  }

  // ----- The boot structures, byte by byte -----

  /** The command line, and the part of the zero page below the boot sector. */
  ghost predicate HoldsParams(m: Image, cmdline: seq<Byte>) {
    && HoldsPrefix(m, CMDLINE, cmdline + [0], |cmdline| + 1)
    && HoldsPrefix(m, BOOT_PARAMS, BootParams(), BOOT_SECTOR - BOOT_PARAMS)
  }

  lemma FieldIsRead(m: Image, a: nat, s: seq<Byte>, size: nat, at: nat, v: nat, n: nat)
    requires HoldsPrefix(m, a, s, size)
    requires 0 < n && at + n <= size && v < Pow256(n)
    requires s[at..at + n] == LeBytes(v, n)
    ensures Word(m, a + at, n) == Some(v)
  {
    hide LeBytes, Word, Pow256;
    HoldsSlice(m, a, s, size, at, n);
    WordFromBytes(m, a + at, s[at..at + n], v);
  }

  lemma HoldsSlice(m: Image, a: nat, s: seq<Byte>, size: nat, at: nat, n: nat)
    requires HoldsPrefix(m, a, s, size) && at + n <= size
    ensures HoldsPrefix(m, a + at, s[at..at + n], n)
  {
    var field := s[at..at + n];
    forall i: nat | i < n
      ensures HoldsByte(m, a + at + i, field[i])
    {
      assert HoldsByte(m, a + (at + i), s[at + i]);
    }
  }

  lemma SpliceFields(s: seq<Byte>, at: nat, data: seq<Byte>, x: nat, n: nat)
    requires at + |data| <= |s| && x + n <= |s|
    ensures x == at && n == |data| ==> Splice(s, at, data)[x..x + n] == data
    ensures x + n <= at || at + |data| <= x ==> Splice(s, at, data)[x..x + n] == s[x..x + n]
  {
  }

  /** Each field of the zero page survives the fields written after it. */
  lemma BootParamsFields()
    ensures BootParams()[0x210..0x211] == [0xFF]
    ensures BootParams()[0x228..0x22c] == LeBytes(CMDLINE, 4)
    ensures BootParams()[0x1e8..0x1e9] == [1]
    ensures BootParams()[0x2d0..0x2d8] == LeBytes(0, 8)
    ensures BootParams()[0x2d8..0x2e0] == LeBytes(0x800_0000, 8)
    ensures BootParams()[0x2e0..0x2e4] == LeBytes(1, 4)
  {
    var ptr, base, size, kind := LeBytes(CMDLINE, 4), LeBytes(0, 8), LeBytes(0x800_0000, 8), LeBytes(1, 4);
    FieldsSurvive(ptr, base, size, kind);
  }

  lemma FieldsSurvive(ptr: seq<Byte>, base: seq<Byte>, size: seq<Byte>, kind: seq<Byte>)
    requires |ptr| == 4 && |base| == 8 && |size| == 8 && |kind| == 4
    ensures var s1 := Splice(Zeros(4096), 0x210, [0xFF]);
            var s2 := Splice(s1, 0x228, ptr);
            var s3 := Splice(s2, 0x1e8, [1]);
            var s4 := Splice(s3, 0x2d0, base);
            var s5 := Splice(s4, 0x2d8, size);
            var s := Splice(s5, 0x2e0, kind);
            && s[0x210..0x211] == [0xFF] && s[0x228..0x22c] == ptr && s[0x1e8..0x1e9] == [1]
            && s[0x2d0..0x2d8] == base && s[0x2d8..0x2e0] == size && s[0x2e0..0x2e4] == kind
  {
    var s1 := Splice(Zeros(4096), 0x210, [0xFF]);
    var s2 := Splice(s1, 0x228, ptr);
    var s3 := Splice(s2, 0x1e8, [1]);
    var s4 := Splice(s3, 0x2d0, base);
    var s5 := Splice(s4, 0x2d8, size);
    var s := Splice(s5, 0x2e0, kind);
    SpliceFields(s1, 0x228, ptr, 0x210, 1);
    SpliceFields(s2, 0x1e8, [1], 0x210, 1);
    SpliceFields(s3, 0x2d0, base, 0x210, 1);
    SpliceFields(s4, 0x2d8, size, 0x210, 1);
    SpliceFields(s5, 0x2e0, kind, 0x210, 1);
    SpliceFields(s2, 0x1e8, [1], 0x228, 4);
    SpliceFields(s3, 0x2d0, base, 0x228, 4);
    SpliceFields(s4, 0x2d8, size, 0x228, 4);
    SpliceFields(s5, 0x2e0, kind, 0x228, 4);
    SpliceFields(s3, 0x2d0, base, 0x1e8, 1);
    SpliceFields(s4, 0x2d8, size, 0x1e8, 1);
    SpliceFields(s5, 0x2e0, kind, 0x1e8, 1);
  }

  lemma ParamsGiveBootRecord(m: Image, cmdline: seq<Byte>)
    requires HoldsParams(m, cmdline)
    ensures BootRecord(m, cmdline)
  {
    hide LeBytes, LeValue, Word, HoldsPrefix, HoldsCString, BootParams, Pow256, UpToNul;
    BootParamsFields();
    WordSizes();
    OneByte(0xFF);
    OneByte(1);
    FieldIsRead(m, BOOT_PARAMS, BootParams(), 0xC00, 0x210, 0xFF, 1);
    FieldIsRead(m, BOOT_PARAMS, BootParams(), 0xC00, 0x1e8, 1, 1);
    FieldIsRead(m, BOOT_PARAMS, BootParams(), 0xC00, 0x2d0, 0, 8);
    FieldIsRead(m, BOOT_PARAMS, BootParams(), 0xC00, 0x2d8, 0x800_0000, 8);
    FieldIsRead(m, BOOT_PARAMS, BootParams(), 0xC00, 0x2e0, 1, 4);
    FieldIsRead(m, BOOT_PARAMS, BootParams(), 0xC00, 0x228, CMDLINE, 4);
    CmdlineIsCString(m, cmdline);
  }

  lemma OneByte(b: Byte)
    ensures LeBytes(b, 1) == [b] && b < Pow256(1)
  {
    assert LeBytes(b / 256, 0) == [];
  }

  lemma CmdlineIsCString(m: Image, cmdline: seq<Byte>)
    requires HoldsParams(m, cmdline)
    ensures HoldsCString(m, CMDLINE, UpToNul(cmdline))
  {
    var s := UpToNul(cmdline);
    forall i: nat | i < |s|
      ensures CMDLINE + i in m && m[CMDLINE + i] == s[i]
    {
      CmdlineByte(m, cmdline, i);
    }
    forall x: nat | CMDLINE <= x < CMDLINE + |s| + 1
      ensures x in m
    {
      CmdlineByte(m, cmdline, x - CMDLINE);
    }
    CmdlineByte(m, cmdline, |s|);
  }

  lemma CmdlineByte(m: Image, cmdline: seq<Byte>, i: nat)
    requires HoldsParams(m, cmdline) && i <= |cmdline|
    ensures HoldsByte(m, CMDLINE + i, if i < |cmdline| then cmdline[i] else 0)
  {
    assert HoldsByte(m, CMDLINE + i, (cmdline + [0])[i]);
  }

  // ----- After load_kernel -----

  function LoadedKernel(m: Image, file: seq<Byte>, elf: Elf, cmdline: seq<Byte>): Image {
    LoadReport(m, PAGE_TABLE_BASE, file, elf, cmdline).image
  }

  /** Every byte the boot writes put down is in memory. */
  ghost predicate HoldsBootBytes(m: Image, base: nat, cmdline: seq<Byte>) {
    forall a: nat :: a in m && LastByte(BootWrites(base, cmdline), a).Some? ==>
      m[a] == LastByte(BootWrites(base, cmdline), a).value
  }

  /** Whatever the segments wrote. */
  lemma BootBytesStay(m: Image, base: nat, file: seq<Byte>, elf: Elf, cmdline: seq<Byte>)
    requires |file| < U64_LIMIT && Accepted(m, base, file, elf, cmdline)
    ensures HoldsBootBytes(LoadReport(m, base, file, elf, cmdline).image, base, cmdline)
  {
    LoadExactly(m, base, file, elf, cmdline);
    var segments, boot := SegmentWrites(file, elf.headers), BootWrites(base, cmdline);
    forall a: nat | a in m && LastByte(boot, a).Some?
      ensures ApplyAll(m, segments + boot)[a] == LastByte(boot, a).value
    {
      ApplyAllAt(m, segments + boot, a);
      LastByteConcat(segments, boot, a);
    }
  }

  lemma BootByteInTables(base: nat, cmdline: seq<Byte>, d: nat)
    requires BOOT_PARAMS + 0x1000 <= base && base + 0x6000 <= CMDLINE
    requires d < 0x6000
    ensures LastByte(BootWrites(base, cmdline), base + d) == Some(TableByte(base, d))
  {
    TableBytes(base, d);
    LastByteConcat(TableWrites(base), ParamWrites(cmdline), base + d);
    UncoveredHasNoLastByte(ParamWrites(cmdline), base + d);
  }

  lemma BootByteInParams(base: nat, cmdline: seq<Byte>, k: nat, a: nat)
    requires k < 2 && ParamWrites(cmdline)[k].Covers(a)
    ensures LastByte(BootWrites(base, cmdline), a)
         == Some(ParamWrites(cmdline)[k].data[a - ParamWrites(cmdline)[k].addr])
  {
    LastByteConcat(TableWrites(base), ParamWrites(cmdline), a);
    LastByteIs(ParamWrites(cmdline), k, a);
  }

  lemma BootBytesHoldTables(m: Image, base: nat, cmdline: seq<Byte>)
    requires HoldsBootBytes(m, base, cmdline) && BootFits(m, base, cmdline)
    requires BOOT_PARAMS + 0x1000 <= base && base + 0x6000 <= CMDLINE
    ensures HoldsTables(m, base)
  {
    forall d: nat | d < 0x6000
      ensures HoldsByte(m, base + d, TableByte(base, d))
    {
      BootByteInTables(base, cmdline, d);
    }
  }

  lemma BootBytesHoldParams(m: Image, base: nat, cmdline: seq<Byte>)
    requires HoldsBootBytes(m, base, cmdline) && BootFits(m, base, cmdline)
    ensures HoldsParams(m, cmdline)
  {
    BootBytesHoldWrite(m, base, cmdline, 0);
    BootBytesHoldWrite(m, base, cmdline, 1);
  }

  lemma BootBytesHoldWrite(m: Image, base: nat, cmdline: seq<Byte>, k: nat)
    requires HoldsBootBytes(m, base, cmdline) && BootFits(m, base, cmdline)
    requires k < 2
    ensures var w := ParamWrites(cmdline)[k]; HoldsPrefix(m, w.addr, w.data, |w.data|)
  {
    var w := ParamWrites(cmdline)[k];
    assert Fits(m, w.addr, |w.data|);
    forall i: nat | i < |w.data|
      ensures HoldsByte(m, w.addr + i, w.data[i])
    {
      BootByteInParams(base, cmdline, k, w.addr + i);
    }
  }

  lemma KernelHoldsBootStructures(m: Image, file: seq<Byte>, elf: Elf, cmdline: seq<Byte>)
    requires |file| < U64_LIMIT
    requires Accepted(m, PAGE_TABLE_BASE, file, elf, cmdline)
    ensures HoldsTables(LoadedKernel(m, file, elf, cmdline), PAGE_TABLE_BASE)
    ensures HoldsParams(LoadedKernel(m, file, elf, cmdline), cmdline)
  {
    var base, final := PAGE_TABLE_BASE, LoadedKernel(m, file, elf, cmdline);
    LoadExactly(m, base, file, elf, cmdline);
    BootBytesStay(m, base, file, elf, cmdline);
    FitsByKeys(m, final, base, 0x6000);
    FitsByKeys(m, final, CMDLINE, |cmdline| + 1);
    FitsByKeys(m, final, BOOT_PARAMS, 0x1000);
    BootBytesHoldTables(final, base, cmdline);
    BootBytesHoldParams(final, base, cmdline);
  }

  /** A segment that is all tail, from 0x8000 to 0xA000. */
  const STRAY_TAIL: ProgramHeader := ProgramHeader(PT_LOAD, 0, 0, 0x2000, 0x8000)

  /** So a tail need not read as zero, even on zeroed memory and with no segment over it: here the page tables are. */
  lemma TailIsNotCleared(m: Image, file: seq<Byte>, elf: Elf, cmdline: seq<Byte>)
    requires |file| < U64_LIMIT
    requires Accepted(m, PAGE_TABLE_BASE, file, elf, cmdline)
    ensures !TailIsZero(LoadedKernel(m, file, elf, cmdline), STRAY_TAIL)
  {
    hide LoadedKernel;
    KernelHoldsBootStructures(m, file, elf, cmdline);
    var r := LoadedKernel(m, file, elf, cmdline);
    FirstTableByte(r);
    assert InTail(STRAY_TAIL, PAGE_TABLE_BASE);
  }

  lemma FirstTableByte(m: Image)
    requires HoldsTables(m, PAGE_TABLE_BASE)
    ensures HoldsByte(m, PAGE_TABLE_BASE, 3)
  {
    hide LeBytes;
    assert HoldsByte(m, PAGE_TABLE_BASE + 0, TableByte(PAGE_TABLE_BASE, 0));
    Pml4EntryValue();
    assert LeBytes(0xA003, 8)[0] == 3 by {
      LowByte(0xA003);
    }
  }

  lemma LowByte(v: nat)
    ensures LeBytes(v, 8)[0] == v % 256
  {
  }

  /**
   Whatever ELF file and command line the loader accepts, a page walk over the bytes it leaves is
   the identity on 4 GB and not present above, and the zero page and command line read back.
   */
  lemma KernelBoots(m: Image, file: seq<Byte>, elf: Elf, cmdline: seq<Byte>)
    requires |file| < U64_LIMIT
    requires Accepted(m, PAGE_TABLE_BASE, file, elf, cmdline)
    ensures IdentityMapped(LoadedKernel(m, file, elf, cmdline), PAGE_TABLE_BASE)
    ensures BootRecord(LoadedKernel(m, file, elf, cmdline), cmdline)
  {
    KernelHoldsBootStructures(m, file, elf, cmdline);
    TablesMapIdentity(LoadedKernel(m, file, elf, cmdline));
    ParamsGiveBootRecord(LoadedKernel(m, file, elf, cmdline), cmdline);
  }

  // ----- After load_bootloader -----

  /** Memory after `load_bootloader`, when it succeeds. */
  function Booted(m: Image, image: seq<Byte>): Image {
    RunWrites(m, BootloaderWrites(image, DUMMY_VECTORS)).image
  }

  predicate BootloaderFits(m: Image, image: seq<Byte>) {
    && Fits(m, BOOT_SECTOR, |image|)
    && Fits(m, 0x1000, 5) && Fits(m, 0x1010, 1)
    && Fits(m, 0x40, 4) && Fits(m, 0x4C, 4) && Fits(m, 0x54, 4) && Fits(m, 0x58, 4)
  }

  /** `load_bootloader` succeeds exactly when the image, the handlers and their vectors are in memory. */
  lemma BootloaderSucceedsExactly(m: Image, image: seq<Byte>)
    ensures RunWrites(m, BootloaderWrites(image, DUMMY_VECTORS)).outcome.Done? <==> BootloaderFits(m, image)
  {
    hide Fits;
    var ws := BootloaderWrites(image, DUMMY_VECTORS);
    BiosWritesAre(image);
    RunWritesExactly(m, ws);
    if AllFit(m, ws) {
      assert Fits(m, ws[0].addr, |ws[0].data|) && Fits(m, ws[1].addr, |ws[1].data|);
      assert Fits(m, ws[2].addr, |ws[2].data|) && Fits(m, ws[3].addr, |ws[3].data|);
      assert Fits(m, ws[4].addr, |ws[4].data|) && Fits(m, ws[5].addr, |ws[5].data|);
      assert Fits(m, ws[6].addr, |ws[6].data|);
    }
  }

  /** The boot sector and the bios leave everything outside their own ranges alone. */
  lemma BootloaderFrame(image: seq<Byte>, vectors: seq<nat>, a: nat)
    requires forall i :: 0 <= i < |vectors| ==> vectors[i] < 0x100
    requires 0x1011 <= a && !(BOOT_SECTOR <= a < BOOT_SECTOR + |image|)
    ensures LastByte(BootloaderWrites(image, vectors), a) == None
  {
    hide LastByte, IvtEntry, DummyWrites;
    LastByteConcat([Write(BOOT_SECTOR, image)], BiosWrites(vectors), a);
    LastByteConcat(HandlerWrites(), DummyWrites(vectors), a);
    UncoveredHasNoLastByte([Write(BOOT_SECTOR, image)], a);
    UncoveredHasNoLastByte(HandlerWrites(), a);
    UncoveredHasNoLastByte(DummyWrites(vectors), a);
  }

  /** An image of at most 0x1400 bytes ends at 0x9000, below the page tables. */
  lemma BootStructuresSurvive(m: Image, image: seq<Byte>, cmdline: seq<Byte>)
    requires BootloaderFits(m, image) && |image| <= 0x1400
    requires HoldsTables(m, PAGE_TABLE_BASE) && HoldsParams(m, cmdline)
    ensures HoldsTables(Booted(m, image), PAGE_TABLE_BASE) && HoldsParams(Booted(m, image), cmdline)
  {
    var final := Booted(m, image);
    forall d: nat | d < 0x6000
      ensures HoldsByte(final, PAGE_TABLE_BASE + d, TableByte(PAGE_TABLE_BASE, d))
    {
      assert HoldsByte(m, PAGE_TABLE_BASE + d, TableByte(PAGE_TABLE_BASE, d));
      ByteSurvives(m, image, PAGE_TABLE_BASE + d);
    }
    PrefixSurvives(m, image, CMDLINE, cmdline + [0], |cmdline| + 1);
    PrefixSurvives(m, image, BOOT_PARAMS, BootParams(), 0xC00);
  }

  lemma PrefixSurvives(m: Image, image: seq<Byte>, a: nat, s: seq<Byte>, n: nat)
    requires BootloaderFits(m, image) && HoldsPrefix(m, a, s, n)
    requires (BOOT_PARAMS <= a && a + n <= BOOT_SECTOR) || BOOT_SECTOR + |image| <= a
    ensures HoldsPrefix(Booted(m, image), a, s, n)
  {
    forall i: nat | i < n
      ensures HoldsByte(Booted(m, image), a + i, s[i])
    {
      assert HoldsByte(m, a + i, s[i]);
      ByteSurvives(m, image, a + i);
    }
  }

  lemma ByteSurvives(m: Image, image: seq<Byte>, a: nat)
    requires BootloaderFits(m, image) && a in m
    requires BOOT_PARAMS <= a < BOOT_SECTOR || BOOT_SECTOR + |image| <= a
    ensures Booted(m, image)[a] == m[a]
  {
    BootloaderSucceedsExactly(m, image);
    RunWritesAt(m, BootloaderWrites(image, DUMMY_VECTORS), a);
    BootloaderFrame(image, DUMMY_VECTORS, a);
  }

  // ----- The bios -----

  /** The writes after the boot sector, spelled out. */
  lemma BiosWritesAre(image: seq<Byte>)
    ensures BootloaderWrites(image, DUMMY_VECTORS)
         == [Write(BOOT_SECTOR, image), Write(0x1000, INT10_HANDLER), Write(0x40, [0x00, 0x10, 0, 0]),
             Write(0x1010, [IRET]), Write(0x4C, [0x10, 0x10, 0, 0]), Write(0x54, [0x10, 0x10, 0, 0]),
             Write(0x58, [0x10, 0x10, 0, 0])]
  {
  }

  lemma BiosByte(m: Image, image: seq<Byte>, k: nat, j: nat)
    requires BootloaderFits(m, image) && 1 <= k < 7
    requires |BootloaderWrites(image, DUMMY_VECTORS)| == 7
    requires var w := BootloaderWrites(image, DUMMY_VECTORS)[k]; j < |w.data|
    ensures var w := BootloaderWrites(image, DUMMY_VECTORS)[k]; HoldsByte(Booted(m, image), w.addr + j, w.data[j])
  {
    var ws := BootloaderWrites(image, DUMMY_VECTORS);
    BiosWritesAre(image);
    BootloaderSucceedsExactly(m, image);
    LastWriteStays(m, ws, k, ws[k].addr + j);
  }

  lemma VectorFromBytes(m: Image, v: nat, handler: nat)
    requires handler < 0x1_0000
    requires forall j: nat :: j < 4 ==> HoldsByte(m, 4 * v + j, IvtEntry(handler)[j])
    ensures Vector(m, v) == Some(handler)
  {
    var s := IvtEntry(handler);
    WordSizes();
    assert s[..2] == LeBytes(handler, 2) by {
      assert LeBytes(handler, 2) == [handler % 256] + LeBytes(handler / 256, 1);
    }
    assert s[2..] == LeBytes(0, 2);
    var lo, hi := s[..2], s[2..];
    forall j: nat | j < 2
      ensures HoldsByte(m, 4 * v + 2 + j, hi[j])
    {
      assert HoldsByte(m, 4 * v + (2 + j), s[2 + j]);
    }
    WordFromBytes(m, 4 * v, lo, handler);
    WordFromBytes(m, 4 * v + 2, hi, 0);
  }

  lemma BiosVector(m: Image, image: seq<Byte>, k: nat, v: nat, handler: nat)
    requires BootloaderFits(m, image) && 1 <= k < 7 && handler < 0x1_0000
    requires |BootloaderWrites(image, DUMMY_VECTORS)| == 7
    requires BootloaderWrites(image, DUMMY_VECTORS)[k] == Write(4 * v, IvtEntry(handler))
    ensures Vector(Booted(m, image), v) == Some(handler)
  {
    forall j: nat | j < 4
      ensures HoldsByte(Booted(m, image), 4 * v + j, IvtEntry(handler)[j])
    {
      BiosByte(m, image, k, j);
    }
    VectorFromBytes(Booted(m, image), v, handler);
  }

  lemma BootloaderInstallsBios(m: Image, image: seq<Byte>)
    requires BootloaderFits(m, image)
    ensures BiosInstalled(Booted(m, image))
  {
    BiosWritesAre(image);
    BiosVector(m, image, 2, 0x10, 0x1000);
    BiosVector(m, image, 4, 0x13, 0x1010);
    BiosVector(m, image, 5, 0x15, 0x1010);
    BiosVector(m, image, 6, 0x16, 0x1010);
    BiosByte(m, image, 3, 0);
    Int10HandlerIntact(m, image);
  }

  lemma Int10HandlerIntact(m: Image, image: seq<Byte>)
    requires BootloaderFits(m, image)
    ensures Fits(Booted(m, image), 0x1000, 5) && Fetch(Booted(m, image), 0x1000, 5) == INT10_HANDLER
  {
    BiosWritesAre(image);
    var final, handler := Booted(m, image), INT10_HANDLER;
    forall i: nat | i < 5
      ensures HoldsByte(final, 0x1000 + i, handler[i])
    {
      BiosByte(m, image, 1, i);
    }
    PrefixIsFetched(final, 0x1000, handler);
  }

  /** A boot sector of at most 0x1400 bytes keeps everything `load_kernel` built and gains a working bios. */
  lemma BootComposes(m: Image, file: seq<Byte>, elf: Elf, cmdline: seq<Byte>, image: seq<Byte>)
    requires |file| < U64_LIMIT
    requires Accepted(m, PAGE_TABLE_BASE, file, elf, cmdline)
    requires BootloaderFits(LoadedKernel(m, file, elf, cmdline), image) && |image| <= 0x1400
    ensures var final := Booted(LoadedKernel(m, file, elf, cmdline), image);
            IdentityMapped(final, PAGE_TABLE_BASE) && BootRecord(final, cmdline) && BiosInstalled(final)
  {
    var kernel := LoadedKernel(m, file, elf, cmdline);
    KernelHoldsBootStructures(m, file, elf, cmdline);
    BootStructuresSurvive(kernel, image, cmdline);
    TablesMapIdentity(Booted(kernel, image));
    ParamsGiveBootRecord(Booted(kernel, image), cmdline);
    BootloaderInstallsBios(kernel, image);
  }

  // ----- 0x1400 is the exact bound -----

  lemma ZeroImageUnmapsZero(m: Image, n: nat)
    requires BootloaderFits(m, Zeros(n)) && n > 0x1400
    ensures !IdentityMapped(Booted(m, Zeros(n)), PAGE_TABLE_BASE)
  {
    FirstTableByteIsZero(m, n);
    ClearBitStopsWalk(Booted(m, Zeros(n)), PAGE_TABLE_BASE);
  }

  lemma ClearBitStopsWalk(m: Image, root: nat)
    requires HoldsByte(m, root, 0)
    ensures !IdentityMapped(m, root)
  {
    var e := Entry(m, root, 0);
    if e.Some? {
      assert Fetch(m, root, 8)[0] == 0;
      assert !Present(e.value);
    }
    assert Walk(m, root, 0) != Page(0, true);
  }

  lemma FirstTableByteIsZero(m: Image, n: nat)
    requires BootloaderFits(m, Zeros(n)) && n > 0x1400
    ensures HoldsByte(Booted(m, Zeros(n)), PAGE_TABLE_BASE, 0)
  {
    var ws := BootloaderWrites(Zeros(n), DUMMY_VECTORS);
    BiosWritesAre(Zeros(n));
    BootloaderSucceedsExactly(m, Zeros(n));
    LastWriteStays(m, ws, 0, PAGE_TABLE_BASE);
  }

  /**
   For each image length n that fits in memory: every image of that length keeps the identity map
   if and only if n <= 0x1400.
   */
  lemma BootSectorBoundIsTight(m: Image, file: seq<Byte>, elf: Elf, cmdline: seq<Byte>, n: nat)
    requires |file| < U64_LIMIT
    requires Accepted(m, PAGE_TABLE_BASE, file, elf, cmdline)
    requires BootloaderFits(LoadedKernel(m, file, elf, cmdline), Zeros(n))
    ensures var kernel := LoadedKernel(m, file, elf, cmdline);
            (forall image :: |image| == n && BootloaderFits(kernel, image) ==>
               IdentityMapped(Booted(kernel, image), PAGE_TABLE_BASE)) <==> n <= 0x1400
  {
    var kernel := LoadedKernel(m, file, elf, cmdline);
    if n <= 0x1400 {
      forall image | |image| == n && BootloaderFits(kernel, image)
        ensures IdentityMapped(Booted(kernel, image), PAGE_TABLE_BASE)
      {
        BootComposes(m, file, elf, cmdline, image);
      }
    } else {
      ZeroImageUnmapsZero(kernel, n);
    }
  }
}
