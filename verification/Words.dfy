/** Machine words: bytes, bounded unsigned integers, little-endian words and bitwise or. */
module Words {

  type Byte = x: int | 0 <= x < 0x100
  type U16 = x: int | 0 <= x < 0x1_0000
  type U32 = x: int | 0 <= x < 0x1_0000_0000
  type U64 = x: int | 0 <= x < 0x1_0000_0000_0000_0000

  const U32_LIMIT := 0x1_0000_0000
  const U64_LIMIT := 0x1_0000_0000_0000_0000

  datatype Option<+T> = None | Some(value: T) {
    function GetOr(default: T): T {
      if Some? then value else default
    }
  }

  function Pow2(k: nat): (p: nat)
    ensures p > 0
  {
    if k == 0 then 1 else 2 * Pow2(k - 1)
  }

  function Pow256(k: nat): (p: nat)
    ensures p > 0
  {
    if k == 0 then 1 else 256 * Pow256(k - 1)
  }

  /** The low n bytes of v, least significant first (`to_le_bytes`). */
  function LeBytes(v: nat, n: nat): (s: seq<Byte>)
    ensures |s| == n
  {
    if n == 0 then [] else [v % 256] + LeBytes(v / 256, n - 1)
  }

  /** The number spelled by s, least significant byte first (`from_le_bytes`). */
  function LeValue(s: seq<Byte>): (v: nat)
    ensures v < Pow256(|s|)
  {
    if s == [] then 0 else s[0] + 256 * LeValue(s[1..])
  }

  lemma {:induction false} LeRoundTrip(v: nat, n: nat)
    requires v < Pow256(n)
    ensures LeValue(LeBytes(v, n)) == v
  {
    if n == 0 {
    } else {
      assert LeBytes(v, n)[1..] == LeBytes(v / 256, n - 1);
      LeRoundTrip(v / 256, n - 1);
    }
  }

  lemma {:induction false} LeValueConcat(s: seq<Byte>, t: seq<Byte>)
    ensures LeValue(s + t) == LeValue(s) + Pow256(|s|) * LeValue(t)
  {
    if s == [] {
      assert s + t == t;
      assert 1 * LeValue(t) == LeValue(t);
    } else {
      var p, x, lo := Pow256(|s| - 1), LeValue(t), LeValue(s[1..]);
      calc {
        LeValue(s + t);
        { assert (s + t)[1..] == s[1..] + t; }
        s[0] + 256 * LeValue(s[1..] + t);
        { LeValueConcat(s[1..], t); }
        s[0] + 256 * (lo + p * x);
        { HornerStep(s[0], lo, p, x); }
        (s[0] + 256 * lo) + (256 * p) * x;
      }
    }
  }

  lemma HornerStep(d: nat, lo: nat, p: nat, x: nat)
    ensures d + 256 * (lo + p * x) == (d + 256 * lo) + (256 * p) * x
  {
  }

  /** Values of the word widths in use. */
  lemma WordSizes()
    ensures Pow256(2) == 0x1_0000
    ensures Pow256(4) == U32_LIMIT
    ensures Pow256(8) == U64_LIMIT
  {
    assert Pow256(3) == 256 * Pow256(2);
    assert Pow256(5) == 256 * Pow256(4);
    assert Pow256(7) == 256 * Pow256(6);
  }

  /** Bitwise or of two naturals. */
  function BitOr(a: nat, b: nat): (r: nat)
    decreases a + b
  {
    if a == 0 then b
    else if b == 0 then a
    else (if a % 2 == 1 || b % 2 == 1 then 1 else 0) + 2 * BitOr(a / 2, b / 2)
  }

  /** Or-ing flags below bit k into a multiple of 2^k is adding them. */
  lemma {:induction false} OrIntoClearBits(q: nat, b: nat, k: nat)
    requires b < Pow2(k)
    ensures BitOr(Pow2(k) * q, b) == Pow2(k) * q + b
    decreases k
  {
    if k == 0 {
    } else {
      DoubleProduct(Pow2(k - 1), q);
      OrIntoClearBits(q, b / 2, k - 1);
    }
  }

  lemma DoubleProduct(p: nat, q: nat)
    ensures (2 * p) * q == 2 * (p * q)
  {
  }

  /** Four bytes spell their little-endian number. */
  lemma WordOfFour(a: Byte, b: Byte, c: Byte, d: Byte)
    ensures LeValue([a, b, c, d]) == a + 0x100 * b + 0x1_0000 * c + 0x100_0000 * d
  {
    assert [d][1..] == [] && LeValue([d]) == d;
    assert [c, d][1..] == [d] && LeValue([c, d]) == c + 256 * d;
    assert [b, c, d][1..] == [c, d] && LeValue([b, c, d]) == b + 256 * LeValue([c, d]);
    assert [a, b, c, d][1..] == [b, c, d] && LeValue([a, b, c, d]) == a + 256 * LeValue([b, c, d]);
  }
}
