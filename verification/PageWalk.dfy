/** The 4-level page walk of section 4.5 of the Intel SDM, volume 3A, over the bytes of guest memory. */
module PageWalk {
  import opened Words
  import opened GuestMemory

  const FOUR_GB: nat := 0x1_0000_0000
  const LINEAR_LIMIT: nat := 0x1_0000_0000_0000

  /** The result of a walk.  A page is writable when the R/W bit is set at every level. */
  datatype Translation = Page(phys: nat, writable: bool) | NotPresent(level: nat) | Malformed

  predicate Present(e: nat) {
    e % 2 == 1
  }

  predicate Writable(e: nat) {
    (e / 2) % 2 == 1
  }

  predicate LargePage(e: nat) {
    (e / 0x80) % 2 == 1
  }

  /** Bits 51:12 of an entry. */
  function TableOf(e: nat): nat {
    ((e / 0x1000) % 0x100_0000_0000) * 0x1000
  }

  /** The little-endian word of n bytes at a. */
  function Word(m: Image, a: nat, n: nat): Option<nat> {
    if Fits(m, a, n) then Some(LeValue(Fetch(m, a, n))) else None
  }

  function Entry(m: Image, table: nat, index: nat): Option<nat> {
    Word(m, table + 8 * index, 8)
  }

  function Walk(m: Image, root: nat, linear: nat): Translation {
    var e4 := Entry(m, root, (linear / 0x80_0000_0000) % 512);
    if e4.None? then Malformed
    else if !Present(e4.value) then NotPresent(4)
    else if LargePage(e4.value) then Malformed
    else WalkPdpt(m, TableOf(e4.value), Writable(e4.value), linear)
  }

  function WalkPdpt(m: Image, table: nat, writable: bool, linear: nat): Translation {
    var e3 := Entry(m, table, (linear / 0x4000_0000) % 512);
    if e3.None? then Malformed
    else if !Present(e3.value) then NotPresent(3)
    else if LargePage(e3.value) then
      if (e3.value / 0x2000) % 0x2_0000 != 0 then Malformed
      else Page(((e3.value / 0x4000_0000) % 0x40_0000) * 0x4000_0000 + linear % 0x4000_0000,
                writable && Writable(e3.value))
    else WalkPd(m, TableOf(e3.value), writable && Writable(e3.value), linear)
  }

  function WalkPd(m: Image, table: nat, writable: bool, linear: nat): Translation {
    var e2 := Entry(m, table, (linear / 0x20_0000) % 512);
    if e2.None? then Malformed
    else if !Present(e2.value) then NotPresent(2)
    else if LargePage(e2.value) then
      if (e2.value / 0x2000) % 0x100 != 0 then Malformed
      else Page(((e2.value / 0x20_0000) % 0x8000_0000) * 0x20_0000 + linear % 0x20_0000,
                writable && Writable(e2.value))
    else WalkPt(m, TableOf(e2.value), writable && Writable(e2.value), linear)
  }

  function WalkPt(m: Image, table: nat, writable: bool, linear: nat): Translation {
    var e1 := Entry(m, table, (linear / 0x1000) % 512);
    if e1.None? then Malformed
    else if !Present(e1.value) then NotPresent(1)
    else Page(TableOf(e1.value) + linear % 0x1000, writable && Writable(e1.value))
  }

  /** Every linear address below 4 GB maps to itself, writable; the rest of the 48-bit space is not present. */
  ghost predicate IdentityMapped(m: Image, root: nat) {
    && (forall linear: nat :: linear < FOUR_GB ==> Walk(m, root, linear) == Page(linear, true))
    && (forall linear: nat :: FOUR_GB <= linear < LINEAR_LIMIT ==> Walk(m, root, linear).NotPresent?)
  }

  /** Bytes in memory spelling v are read back as v. */
  lemma WordFromBytes(m: Image, a: nat, s: seq<Byte>, v: nat)
    requires s != [] && v < Pow256(|s|) && s == LeBytes(v, |s|)
    requires HoldsPrefix(m, a, s, |s|)
    ensures Word(m, a, |s|) == Some(v)
  {
    PrefixIsFetched(m, a, s);
    LeRoundTrip(v, |s|);
  }
}
