/**
 Guest physical memory as the vm-memory crate presents it: a byte behind every mapped
 address, and slice accesses that succeed exactly when the whole range is mapped.  An
 access that runs off the mapped range still transfers the prefix that was mapped.
 */
module GuestMemory {
  import opened Words

  type Image = map<nat, Byte>

  /** The access [addr, addr + n) is accepted.  Its first address must be mapped even when n is 0. */
  predicate Fits(m: Image, addr: nat, n: nat) {
    addr in m && forall a: nat :: addr <= a < addr + n ==> a in m
  }

  predicate HoldsByte(m: Image, a: nat, b: Byte) {
    a in m && m[a] == b
  }

  /** The first n bytes of s are in memory at a. */
  ghost predicate HoldsPrefix(m: Image, a: nat, s: seq<Byte>, n: nat) {
    n <= |s| && forall i: nat :: i < n ==> HoldsByte(m, a + i, s[i])
  }

  /** Length of the longest mapped prefix of [addr, addr + n). */
  function MappedPrefix(m: Image, addr: nat, n: nat): (k: nat)
    ensures k <= n
    ensures forall a: nat :: addr <= a < addr + k ==> a in m
    ensures k < n ==> addr + k !in m
    decreases n
  {
    if n == 0 || addr !in m then 0 else 1 + MappedPrefix(m, addr + 1, n - 1)
  }

  function Store(m: Image, addr: nat, data: seq<Byte>): (r: Image)
    ensures r.Keys == m.Keys
  {
    map a | a in m :: if addr <= a < addr + |data| then data[a - addr] else m[a]
  }

  function Fetch(m: Image, addr: nat, n: nat): (s: seq<Byte>)
    requires forall a: nat :: addr <= a < addr + n ==> a in m
    ensures |s| == n
  {
    seq(n, i requires 0 <= i < n => m[addr + i])
  }

  function Zeros(n: nat): (s: seq<Byte>)
    ensures |s| == n && forall i :: 0 <= i < n ==> s[i] == 0
  {
    seq(n, i => 0)
  }

  /** What `write_slice` leaves in memory, whether or not it reports success. */
  function WriteThrough(m: Image, addr: nat, data: seq<Byte>): (r: Image)
    ensures r.Keys == m.Keys
    ensures Fits(m, addr, |data|) ==> r == Store(m, addr, data)
  {
    assert Fits(m, addr, |data|) ==> data[..MappedPrefix(m, addr, |data|)] == data;
    Store(m, addr, data[..MappedPrefix(m, addr, |data|)])
  }

  /** What `read_slice` leaves in a zeroed buffer of n bytes, whether or not it reports success. */
  function ReadThrough(m: Image, addr: nat, n: nat): (s: seq<Byte>)
    ensures |s| == n
    ensures Fits(m, addr, n) ==> s == Fetch(m, addr, n)
  {
    var k := MappedPrefix(m, addr, n);
    Fetch(m, addr, k) + Zeros(n - k)
  }

  /** The bytes of zero are zeros. */
  lemma {:induction false} ZeroWord(n: nat)
    ensures LeBytes(0, n) == Zeros(n)
  {
    if n == 0 {
    } else {
      ZeroWord(n - 1);
    }
  }

  lemma FitsByKeys(m: Image, m1: Image, addr: nat, n: nat)
    requires m.Keys == m1.Keys
    ensures Fits(m, addr, n) <==> Fits(m1, addr, n)
  {
    assert forall a: nat :: a in m <==> a in m1;
  }

  lemma PrefixIsFetched(m: Image, a: nat, s: seq<Byte>)
    requires s != [] && HoldsPrefix(m, a, s, |s|)
    ensures Fits(m, a, |s|) && Fetch(m, a, |s|) == s
  {
    forall x: nat | a <= x < a + |s|
      ensures x in m && m[x] == s[x - a]
    {
      assert HoldsByte(m, a + (x - a), s[x - a]);
    }
    assert Fetch(m, a, |s|) == s;
  }

  /** Guest memory shared by the loaders and the devices. */
  class Ram {
    var bytes: Image

    constructor (bytes: Image)
      ensures this.bytes == bytes
    {
      this.bytes := bytes;
    }

    method WriteSlice(data: seq<Byte>, addr: nat) returns (ok: bool)
      modifies this
      ensures ok == Fits(old(bytes), addr, |data|)
      ensures bytes == WriteThrough(old(bytes), addr, data)
    {
      ok := Fits(bytes, addr, |data|);
      bytes := WriteThrough(bytes, addr, data);
    }

    method ReadSlice(addr: nat, n: nat) returns (ok: bool, data: seq<Byte>)
      ensures ok == Fits(bytes, addr, n)
      ensures data == ReadThrough(bytes, addr, n)
    {
      ok := Fits(bytes, addr, n);
      data := ReadThrough(bytes, addr, n);
    }
  }
}
