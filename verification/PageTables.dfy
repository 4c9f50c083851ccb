/** The page tables `load_kernel` builds, read back by a page walk. */
module PageTables {
  import opened Words
  import opened GuestMemory
  import opened WriteLog
  import opened PageWalk
  import opened KernelLoader

  // ----- Bits of the entries -----

  lemma PowersOfTwo()
    ensures Pow2(12) == 0x1000
    ensures Pow2(21) == 0x20_0000
  {
    assert Pow2(6) == 64;
    assert Pow2(12) == 64 * Pow2(6);
    assert Pow2(15) == 8 * Pow2(12);
    assert Pow2(18) == 8 * Pow2(15);
    assert Pow2(21) == 8 * Pow2(18);
  }

  lemma Pml4EntryValue()
    ensures Pml4Entry(PAGE_TABLE_BASE) == 0xA003
  {
    hide BitOr, Pow2;
    PowersOfTwo();
    OrIntoClearBits(0xA, 3, 12);
  }

  lemma PdptEntryValue(i: nat)
    ensures PdptEntry(PAGE_TABLE_BASE, i) == 0x1000 * (0xB + i) + 3
  {
    hide BitOr, Pow2;
    PowersOfTwo();
    OrIntoClearBits(0xB + i, 3, 12);
  }

  lemma PdEntryValue(i: nat)
    ensures PdEntry(i) == 0x20_0000 * i + 0x83
  {
    hide BitOr, Pow2;
    PowersOfTwo();
    OrIntoClearBits(i, 0x83, 21);
  }

  // ----- Bytes of the tables -----

  lemma PdByte(base: nat, i: nat, j: nat)
    requires i < 2048 && j < 8
    ensures LastByte(PdWrites(base), base + 0x2000 + 8 * i + j) == Some(LeBytes(PdEntry(i), 8)[j])
  {
    LastByteIs(PdWrites(base), i, base + 0x2000 + 8 * i + j);
  }

  lemma PdptByte(base: nat, i: nat, j: nat)
    requires i < 4 && j < 8
    ensures LastByte(PdptWrites(base), base + 0x1000 + 8 * i + j) == Some(LeBytes(PdptEntry(base, i), 8)[j])
  {
    LastByteIs(PdptWrites(base), i, base + 0x1000 + 8 * i + j);
  }

  lemma HeadByte(base: nat, a: nat)
    requires base <= a < base + 0x6000
    ensures LastByte(Pml4Writes(base), a)
         == Some(if a < base + 8 then LeBytes(Pml4Entry(base), 8)[a - base] else 0)
  {
    var head := Pml4Writes(base);
    LastByteIs(head, if a < base + 8 then 1 else 0, a);
  }

  /** The byte the table writes leave at each of the 0x6000 addresses. */
  function TableByte(base: nat, d: nat): Byte
    requires d < 0x6000
  {
    if d < 8 then LeBytes(Pml4Entry(base), 8)[d]
    else if 0x1000 <= d < 0x1020 then LeBytes(PdptEntry(base, (d - 0x1000) / 8), 8)[(d - 0x1000) % 8]
    else if 0x2000 <= d then LeBytes(PdEntry((d - 0x2000) / 8), 8)[(d - 0x2000) % 8]
    else 0
  }

  lemma TableBytes(base: nat, d: nat)
    requires d < 0x6000
    ensures LastByte(TableWrites(base), base + d) == Some(TableByte(base, d))
  {
    var a := base + d;
    var head := Pml4Writes(base);
    LastByteConcat(head, PdptWrites(base), a);
    LastByteConcat(head + PdptWrites(base), PdWrites(base), a);
    if d >= 0x2000 {
      UpperTableBytes(base, d);
    } else {
      UncoveredHasNoLastByte(PdWrites(base), a);
      LowerTableBytes(base, d);
    }
  }

  lemma UpperTableBytes(base: nat, d: nat)
    requires 0x2000 <= d < 0x6000
    ensures LastByte(PdWrites(base), base + d) == Some(TableByte(base, d))
  {
    PdByte(base, (d - 0x2000) / 8, (d - 0x2000) % 8);
  }

  lemma LowerTableBytes(base: nat, d: nat)
    requires d < 0x2000
    ensures LastByte(Pml4Writes(base) + PdptWrites(base), base + d) == Some(TableByte(base, d))
  {
    var head := Pml4Writes(base);
    LastByteConcat(head, PdptWrites(base), base + d);
    if 0x1000 <= d < 0x1020 {
      PdptByte(base, (d - 0x1000) / 8, (d - 0x1000) % 8);
    } else {
      HeadByte(base, base + d);
      UncoveredHasNoLastByte(PdptWrites(base), base + d);
    }
  }

  /** Memory holds the six table pages the loader builds at base. */
  ghost predicate HoldsTables(m: Image, base: nat) {
    forall d: nat :: d < 0x6000 ==> HoldsByte(m, base + d, TableByte(base, d))
  }

  // ----- Words of the tables -----

  /** Eight consecutive table bytes spelling v are read back as v. */
  lemma EntryFromBytes(m: Image, base: nat, d: nat, v: nat)
    requires HoldsTables(m, base) && d + 8 <= 0x6000
    requires v < U64_LIMIT
    requires forall j: nat :: j < 8 ==> TableByte(base, d + j) == LeBytes(v, 8)[j]
    ensures Entry(m, base + d, 0) == Some(v)
  {
    var s := LeBytes(v, 8);
    forall j: nat | j < 8
      ensures HoldsByte(m, base + d + j, s[j])
    {
      assert HoldsByte(m, base + (d + j), TableByte(base, d + j));
    }
    WordSizes();
    WordFromBytes(m, base + d, s, v);
  }

  lemma Pml4Word(m: Image, base: nat, i: nat)
    requires HoldsTables(m, base) && i < 512 && Pml4Entry(base) < U64_LIMIT
    ensures Entry(m, base, i) == Some(if i == 0 then Pml4Entry(base) else 0)
  {
    ZeroWord(8);
    EntryFromBytes(m, base, 8 * i, if i == 0 then Pml4Entry(base) else 0);
  }

  lemma PdptWord(m: Image, base: nat, i: nat)
    requires HoldsTables(m, base) && i < 512 && PdptEntry(base, i) < U64_LIMIT
    ensures Entry(m, base + 0x1000, i) == Some(if i < 4 then PdptEntry(base, i) else 0)
  {
    ZeroWord(8);
    var v := if i < 4 then PdptEntry(base, i) else 0;
    forall j: nat | j < 8
      ensures TableByte(base, 0x1000 + 8 * i + j) == LeBytes(v, 8)[j]
    {
      assert (8 * i + j) / 8 == i && (8 * i + j) % 8 == j;
    }
    EntryFromBytes(m, base, 0x1000 + 8 * i, v);
  }

  lemma PdWord(m: Image, base: nat, i: nat)
    requires HoldsTables(m, base) && i < 2048 && PdEntry(i) < U64_LIMIT
    ensures Entry(m, base + 0x2000, i) == Some(PdEntry(i))
  {
    forall j: nat | j < 8
      ensures TableByte(base, 0x2000 + 8 * i + j) == LeBytes(PdEntry(i), 8)[j]
    {
      assert (8 * i + j) / 8 == i && (8 * i + j) % 8 == j;
    }
    EntryFromBytes(m, base, 0x2000 + 8 * i, PdEntry(i));
  }

  lemma Pml4Number(m: Image, i: nat)
    requires HoldsTables(m, PAGE_TABLE_BASE) && i < 512
    ensures Entry(m, PAGE_TABLE_BASE, i) == Some(if i == 0 then 0xA003 else 0)
  {
    hide BitOr;
    Pml4EntryValue();
    Pml4Word(m, PAGE_TABLE_BASE, i);
  }

  lemma PdptNumber(m: Image, i: nat)
    requires HoldsTables(m, PAGE_TABLE_BASE) && i < 512
    ensures Entry(m, 0xA000, i) == Some(if i < 4 then 0x1000 * (0xB + i) + 3 else 0)
  {
    hide BitOr;
    PdptEntryValue(i);
    PdptWord(m, PAGE_TABLE_BASE, i);
  }

  lemma PdNumber(m: Image, i: nat)
    requires HoldsTables(m, PAGE_TABLE_BASE) && i < 2048
    ensures Entry(m, 0xB000, i) == Some(0x20_0000 * i + 0x83)
  {
    hide BitOr;
    PdEntryValue(i);
    PdWord(m, PAGE_TABLE_BASE, i);
  }

  // ----- The walk -----

  lemma TableEntryBits(k: nat)
    requires k < 16
    ensures var e := 0x1000 * k + 3;
            Present(e) && Writable(e) && !LargePage(e) && TableOf(e) == 0x1000 * k
  {
  }

  lemma PagePresent(p: nat)
    ensures Present(0x20_0000 * p + 0x83)
  {
  }

  lemma PageWritable(p: nat)
    ensures Writable(0x20_0000 * p + 0x83)
  {
    assert (0x20_0000 * p + 0x83) / 2 == 0x10_0000 * p + 0x41;
  }

  lemma PageIsLarge(p: nat)
    ensures LargePage(0x20_0000 * p + 0x83)
  {
    assert 0x20_0000 * p + 0x83 == 0x80 * (0x4000 * p + 1) + 3;
    assert (0x20_0000 * p + 0x83) / 0x80 == 0x4000 * p + 1;
  }

  lemma PageReservedClear(p: nat)
    ensures ((0x20_0000 * p + 0x83) / 0x2000) % 0x100 == 0
  {
    assert (0x20_0000 * p + 0x83) / 0x2000 == 0x100 * p;
  }

  lemma PageFrame(p: nat)
    requires p < 2048
    ensures ((0x20_0000 * p + 0x83) / 0x20_0000) % 0x8000_0000 == p
  {
    assert (0x20_0000 * p + 0x83) / 0x20_0000 == p;
  }

  /** What the flags 0x83 say of a PD entry: present, writable, a 2 MB page, and the frame it names. */
  lemma PageEntryBits(p: nat)
    requires p < 2048
    ensures var e := 0x20_0000 * p + 0x83;
            && Present(e) && Writable(e) && LargePage(e)
            && (e / 0x2000) % 0x100 == 0
            && (e / 0x20_0000) % 0x8000_0000 == p
  {
    hide Present, Writable, LargePage;
    PagePresent(p);
    PageWritable(p);
    PageIsLarge(p);
    PageReservedClear(p);
    PageFrame(p);
  }

  lemma WalkPdBelowFourGb(m: Image, linear: nat)
    requires HoldsTables(m, PAGE_TABLE_BASE)
    requires linear < FOUR_GB
    ensures WalkPd(m, 0xB000 + 0x1000 * (linear / 0x4000_0000), true, linear) == Page(linear, true)
  {
    var i3, i2, page := linear / 0x4000_0000, (linear / 0x20_0000) % 512, linear / 0x20_0000;
    assert page == 512 * i3 + i2;
    PdNumber(m, page);
    assert Entry(m, 0xB000 + 0x1000 * i3, i2) == Entry(m, 0xB000, page);
    PageEntryBits(page);
  }

  lemma PdptStep(m: Image, table: nat, linear: nat, k: nat)
    requires k < 16
    requires Entry(m, table, (linear / 0x4000_0000) % 512) == Some(0x1000 * k + 3)
    ensures WalkPdpt(m, table, true, linear) == WalkPd(m, 0x1000 * k, true, linear)
  {
    TableEntryBits(k);
  }

  lemma WalkPdptBelowFourGb(m: Image, linear: nat)
    requires HoldsTables(m, PAGE_TABLE_BASE)
    requires linear < FOUR_GB
    ensures WalkPdpt(m, 0xA000, true, linear) == Page(linear, true)
  {
    var i3 := linear / 0x4000_0000;
    PdptNumber(m, i3);
    PdptStep(m, 0xA000, linear, 0xB + i3);
    WalkPdBelowFourGb(m, linear);
  }

  lemma WalkTop(m: Image, linear: nat)
    requires HoldsTables(m, PAGE_TABLE_BASE)
    requires linear < LINEAR_LIMIT
    ensures linear / 0x80_0000_0000 == 0 ==>
              Walk(m, PAGE_TABLE_BASE, linear) == WalkPdpt(m, 0xA000, true, linear)
    ensures linear / 0x80_0000_0000 > 0 ==> Walk(m, PAGE_TABLE_BASE, linear) == NotPresent(4)
  {
    Pml4Number(m, linear / 0x80_0000_0000);
    TableEntryBits(0xA);
  }

  lemma WalkPdptAboveFourGb(m: Image, linear: nat)
    requires HoldsTables(m, PAGE_TABLE_BASE)
    requires FOUR_GB <= linear < 0x80_0000_0000
    ensures WalkPdpt(m, 0xA000, true, linear) == NotPresent(3)
  {
    PdptNumber(m, linear / 0x4000_0000);
  }

  lemma TablesMapIdentity(m: Image)
    requires HoldsTables(m, PAGE_TABLE_BASE)
    ensures IdentityMapped(m, PAGE_TABLE_BASE)
  {
    forall linear: nat | linear < FOUR_GB
      ensures Walk(m, PAGE_TABLE_BASE, linear) == Page(linear, true)
    {
      WalkTop(m, linear);
      WalkPdptBelowFourGb(m, linear);
    }
    forall linear: nat | FOUR_GB <= linear < LINEAR_LIMIT
      ensures Walk(m, PAGE_TABLE_BASE, linear).NotPresent?
    {
      WalkTop(m, linear);
      if linear < 0x80_0000_0000 {
        WalkPdptAboveFourGb(m, linear);
      }
    }
  }
}
