/** Guest memory after both loaders, in numbers: zero page, command line, boot sector and bios, byte by byte. */
module BootLayout {
  import opened Words
  import opened GuestMemory
  import opened WriteLog
  import opened PageWalk
  import opened KernelLoader
  import opened Bootloader
  import opened BootImage

  // ----- The zero page -----

  /**
   The zero page byte by byte: loader type 0xFF, command line at 0x10000, one E820 entry with
   base 0, length 0x8000000 and type 1, and zero everywhere else.
   */
  function ZeroPageByte(x: nat): Byte {
    if x == 0x210 then 0xFF
    else if x == 0x22a then 1
    else if x == 0x1e8 then 1
    else if x == 0x2db then 8
    else if x == 0x2e0 then 1
    else 0
  }

  lemma FourBytes(v: nat)
    ensures LeBytes(v, 4) == [v % 256, v / 256 % 256, v / 256 / 256 % 256, v / 256 / 256 / 256 % 256]
  {
    assert LeBytes(v / 256 / 256 / 256, 1) == [v / 256 / 256 / 256 % 256] by {
      assert LeBytes(v / 256 / 256 / 256 / 256, 0) == [];
    }
    assert LeBytes(v / 256 / 256, 2) == [v / 256 / 256 % 256] + LeBytes(v / 256 / 256 / 256, 1);
    assert LeBytes(v / 256, 3) == [v / 256 % 256] + LeBytes(v / 256 / 256, 2);
  }

  lemma EightBytes(v: nat)
    requires v / 256 / 256 / 256 / 256 == 0
    ensures LeBytes(v, 8)
         == [v % 256, v / 256 % 256, v / 256 / 256 % 256, v / 256 / 256 / 256 % 256, 0, 0, 0, 0]
  {
    var v1, v2, v3 := v / 256, v / 256 / 256, v / 256 / 256 / 256;
    FourBytes(0);
    assert LeBytes(v3, 5) == [v3 % 256] + LeBytes(0, 4);
    assert LeBytes(v2, 6) == [v2 % 256] + LeBytes(v3, 5);
    assert LeBytes(v1, 7) == [v1 % 256] + LeBytes(v2, 6);
    assert LeBytes(v, 8) == [v % 256] + LeBytes(v1, 7);
  }

  lemma SpliceAt(s: seq<Byte>, at: nat, data: seq<Byte>, x: nat)
    requires at + |data| <= |s| && x < |s|
    ensures Splice(s, at, data)[x] == if at <= x < at + |data| then data[x - at] else s[x]
  {
  }

  lemma SplicedPage(ptr: seq<Byte>, base: seq<Byte>, size: seq<Byte>, kind: seq<Byte>, x: nat)
    requires |ptr| == 4 && |base| == 8 && |size| == 8 && |kind| == 4 && x < 4096
    ensures var s1 := Splice(Zeros(4096), 0x210, [0xFF]);
            var s2 := Splice(s1, 0x228, ptr);
            var s3 := Splice(s2, 0x1e8, [1]);
            var s4 := Splice(s3, 0x2d0, base);
            var s5 := Splice(s4, 0x2d8, size);
            Splice(s5, 0x2e0, kind)[x]
            == if x == 0x210 then 0xFF
               else if x == 0x1e8 then 1
               else if 0x228 <= x < 0x22c then ptr[x - 0x228]
               else if 0x2d0 <= x < 0x2d8 then base[x - 0x2d0]
               else if 0x2d8 <= x < 0x2e0 then size[x - 0x2d8]
               else if 0x2e0 <= x < 0x2e4 then kind[x - 0x2e0]
               else 0
  {
    hide Splice;
    var s1 := Splice(Zeros(4096), 0x210, [0xFF]);
    var s2 := Splice(s1, 0x228, ptr);
    var s3 := Splice(s2, 0x1e8, [1]);
    var s4 := Splice(s3, 0x2d0, base);
    var s5 := Splice(s4, 0x2d8, size);
    SpliceAt(Zeros(4096), 0x210, [0xFF], x);
    SpliceAt(s1, 0x228, ptr, x);
    SpliceAt(s2, 0x1e8, [1], x);
    SpliceAt(s3, 0x2d0, base, x);
    SpliceAt(s4, 0x2d8, size, x);
    SpliceAt(s5, 0x2e0, kind, x);
  }

  lemma FieldBytes()
    ensures LeBytes(0x1_0000, 4) == [0, 0, 1, 0]
    ensures LeBytes(0, 8) == [0, 0, 0, 0, 0, 0, 0, 0]
    ensures LeBytes(0x800_0000, 8) == [0, 0, 0, 8, 0, 0, 0, 0]
    ensures LeBytes(1, 4) == [1, 0, 0, 0]
  {
    hide LeBytes;
    FourBytes(0x1_0000);
    FourBytes(1);
    EightBytes(0);
    EightBytes(0x800_0000);
  }

  lemma ZeroPageBytes(x: nat)
    requires x < 4096
    ensures BootParams()[x] == ZeroPageByte(x)
  {
    hide LeBytes, Splice, Zeros;
    var ptr, base, size, kind := LeBytes(CMDLINE, 4), LeBytes(0, 8), LeBytes(0x800_0000, 8), LeBytes(1, 4);
    SplicedPage(ptr, base, size, kind, x);
    FieldBytes();
  }

  /** After every accepted load the zero page at 0x7000 is that page, to the last byte. */
  lemma LoadedZeroPage(m: Image, file: seq<Byte>, elf: Elf, cmdline: seq<Byte>, x: nat)
    requires |file| < U64_LIMIT && x < 4096
    requires Accepted(m, PAGE_TABLE_BASE, file, elf, cmdline)
    ensures HoldsByte(LoadedKernel(m, file, elf, cmdline), 0x7000 + x, ZeroPageByte(x))
  {
    hide LoadedKernel, BootParams, ZeroPageByte, HoldsByte;
    KernelHoldsBootWrites(m, file, elf, cmdline);
    ZeroPageBytes(x);
    assert HoldsByte(LoadedKernel(m, file, elf, cmdline), BOOT_PARAMS + x, BootParams()[x]);
  }

  lemma KernelHoldsBootWrites(m: Image, file: seq<Byte>, elf: Elf, cmdline: seq<Byte>)
    requires |file| < U64_LIMIT
    requires Accepted(m, PAGE_TABLE_BASE, file, elf, cmdline)
    ensures var r := LoadedKernel(m, file, elf, cmdline);
            && HoldsPrefix(r, BOOT_PARAMS, BootParams(), 4096)
            && HoldsPrefix(r, CMDLINE, cmdline + [0], |cmdline| + 1)
  {
    hide BootParams, HoldsPrefix, HoldsBootBytes;
    var r := LoadedKernel(m, file, elf, cmdline);
    LoadedBootFits(m, file, elf, cmdline);
    BootBytesStay(m, PAGE_TABLE_BASE, file, elf, cmdline);
    BootBytesHoldWrite(r, PAGE_TABLE_BASE, cmdline, 0);
    BootBytesHoldWrite(r, PAGE_TABLE_BASE, cmdline, 1);
  }

  lemma LoadedBootFits(m: Image, file: seq<Byte>, elf: Elf, cmdline: seq<Byte>)
    requires |file| < U64_LIMIT
    requires Accepted(m, PAGE_TABLE_BASE, file, elf, cmdline)
    ensures BootFits(LoadedKernel(m, file, elf, cmdline), PAGE_TABLE_BASE, cmdline)
  {
    hide Fits;
    var r := LoadedKernel(m, file, elf, cmdline);
    LoadExactly(m, PAGE_TABLE_BASE, file, elf, cmdline);
    FitsByKeys(m, r, PAGE_TABLE_BASE, 0x6000);
    FitsByKeys(m, r, CMDLINE, |cmdline| + 1);
    FitsByKeys(m, r, BOOT_PARAMS, 0x1000);
  }

  /** The command line stands at 0x10000, followed by a NUL, and the page tables at 0x9000 map the identity. */
  lemma LoadedCommandLine(m: Image, file: seq<Byte>, elf: Elf, cmdline: seq<Byte>, j: nat)
    requires |file| < U64_LIMIT && j <= |cmdline|
    requires Accepted(m, PAGE_TABLE_BASE, file, elf, cmdline)
    ensures var r := LoadedKernel(m, file, elf, cmdline);
            && HoldsByte(r, 0x1_0000 + j, if j < |cmdline| then cmdline[j] else 0)
            && IdentityMapped(r, 0x9000)
  {
    hide LoadedKernel, BootParams, HoldsByte, IdentityMapped;
    KernelHoldsBootWrites(m, file, elf, cmdline);
    KernelBoots(m, file, elf, cmdline);
    assert HoldsByte(LoadedKernel(m, file, elf, cmdline), CMDLINE + j, (cmdline + [0])[j]);
  }

  // ----- The boot sector and the bios -----

  /** The byte the boot loader puts at an address, if it writes there. */
  function BiosByteAt(image: seq<Byte>, a: nat): Option<Byte> {
    if 0x7c00 <= a < 0x7c00 + |image| then Some(image[a - 0x7c00])
    else if 0x1000 <= a < 0x1005 then Some([0xBA, 0xF8, 0x03, 0xEE, 0xCF][a - 0x1000])
    else if a == 0x1010 then Some(0xCF)
    else if 0x40 <= a < 0x44 then Some([0x00, 0x10, 0, 0][a - 0x40])
    else if 0x4C <= a < 0x50 then Some([0x10, 0x10, 0, 0][a - 0x4C])
    else if 0x54 <= a < 0x58 then Some([0x10, 0x10, 0, 0][a - 0x54])
    else if 0x58 <= a < 0x5C then Some([0x10, 0x10, 0, 0][a - 0x58])
    else None
  }

  /** The boot loader leaves the image at 0x7c00, handlers and vectors at their places, and no other byte changed. */
  lemma BootedMemory(m: Image, image: seq<Byte>, a: nat)
    requires BootloaderFits(m, image) && a in m
    ensures HoldsByte(Booted(m, image), a, BiosByteAt(image, a).GetOr(m[a]))
  {
    hide BootloaderWrites, BootloaderFits, LastByte;
    BootloaderSucceedsExactly(m, image);
    RunWritesAt(m, BootloaderWrites(image, DUMMY_VECTORS), a);
    BootedByte(image, a);
  }

  lemma BootedByte(image: seq<Byte>, a: nat)
    ensures LastByte(BootloaderWrites(image, DUMMY_VECTORS), a) == BiosByteAt(image, a)
  {
    hide BootloaderWrites;
    BiosWritesAre(image);
    var ws := [Write(BOOT_SECTOR, image), Write(0x1000, INT10_HANDLER), Write(0x40, [0x00, 0x10, 0, 0]),
               Write(0x1010, [IRET]), Write(0x4C, [0x10, 0x10, 0, 0]), Write(0x54, [0x10, 0x10, 0, 0]),
               Write(0x58, [0x10, 0x10, 0, 0])];
    if k :| 0 <= k < 7 && ws[k].Covers(a) {
      assert forall i :: k < i < 7 ==> !ws[i].Covers(a);
      LastByteIs(ws, k, a);
    } else {
      UncoveredHasNoLastByte(ws, a);
      assert !ws[0].Covers(a) && !ws[1].Covers(a) && !ws[2].Covers(a) && !ws[3].Covers(a);
      assert !ws[4].Covers(a) && !ws[5].Covers(a) && !ws[6].Covers(a);
    }
  }

  /** After both loaders the used part of the zero page still is that page. */
  lemma BootedZeroPage(m: Image, file: seq<Byte>, elf: Elf, cmdline: seq<Byte>, image: seq<Byte>, x: nat)
    requires |file| < U64_LIMIT && x < 0xC00
    requires Accepted(m, PAGE_TABLE_BASE, file, elf, cmdline)
    requires BootloaderFits(LoadedKernel(m, file, elf, cmdline), image)
    ensures HoldsByte(Booted(LoadedKernel(m, file, elf, cmdline), image), 0x7000 + x, ZeroPageByte(x))
  {
    hide LoadedKernel, Booted, BootloaderFits, ZeroPageByte;
    LoadedZeroPage(m, file, elf, cmdline, x);
    BootedMemory(LoadedKernel(m, file, elf, cmdline), image, 0x7000 + x);
  }
}
