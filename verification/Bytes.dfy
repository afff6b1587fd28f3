/** Byte strings, network-order integers, bitwise exclusive-or and substring search:
    the vocabulary the wire formats share. */
module Bytes {
  type byte = x: int | 0 <= x < 256
  type bytes = seq<byte>

  datatype Option<+T> = None | Some(value: T)

  function Pow256(n: nat): (p: nat)
    ensures p > 0
  {
    if n == 0 then 1 else 256 * Pow256(n - 1)
  }

  /** The value of a big-endian byte string, as `int.from_bytes(s, "big")` reads it. */
  function FromBigEndian(s: bytes): (v: nat)
    ensures v < Pow256(|s|)
  {
    if s == [] then 0 else FromBigEndian(s[..|s| - 1]) * 256 + s[|s| - 1]
  }

  /** The big-endian encoding in a fixed width, as `struct.pack("!H" / "!I" / "!Q")` writes it. */
  function BigEndian(width: nat, v: nat): (s: bytes)
    requires v < Pow256(width)
    ensures |s| == width
    ensures FromBigEndian(s) == v
  {
    if width == 0 then [] else BigEndian(width - 1, v / 256) + [v % 256]
  }

  lemma {:induction false} BigEndianOfValue(s: bytes)
    ensures BigEndian(|s|, FromBigEndian(s)) == s
  {
    if s != [] {
      var front, last := s[..|s| - 1], s[|s| - 1];
      BigEndianOfValue(front);
      assert FromBigEndian(s) / 256 == FromBigEndian(front) && FromBigEndian(s) % 256 == last;
      assert s == front + [last];
    }
  }

  /** The leading byte is the most significant. */
  lemma {:induction false} LeadingByte(x: byte, s: bytes)
    ensures FromBigEndian([x] + s) == x * Pow256(|s|) + FromBigEndian(s)
  {
    var t := [x] + s;
    if s == [] {
      assert t[..0] == [];
    } else {
      var front := s[..|s| - 1];
      assert t[..|t| - 1] == [x] + front && t[|t| - 1] == s[|s| - 1];
      LeadingByte(x, front);
      assert x * Pow256(|s|) == 256 * (x * Pow256(|front|));
    }
  }

  function Pow2(n: nat): (p: nat)
    ensures p > 0
  {
    if n == 0 then 1 else 2 * Pow2(n - 1)
  }

  lemma {:induction false} Pow2OfSixteen()
    ensures Pow2(16) == 65536
  {
    assert Pow2(8) == 256;
    assert Pow2(12) == 16 * Pow2(8);
    assert Pow2(16) == 16 * Pow2(12);
  }

  /** Bitwise exclusive-or of two `bits`-wide words. */
  function Xor(bits: nat, a: nat, b: nat): (r: nat)
    requires a < Pow2(bits) && b < Pow2(bits)
    ensures r < Pow2(bits)
  {
    if bits == 0 then 0
    else 2 * Xor(bits - 1, a / 2, b / 2) + if a % 2 == b % 2 then 0 else 1
  }

  lemma {:induction false} XorUndoes(bits: nat, a: nat, b: nat)
    requires a < Pow2(bits) && b < Pow2(bits)
    ensures Xor(bits, Xor(bits, a, b), b) == a
  {
    if bits > 0 {
      var x := Xor(bits, a, b);
      assert x / 2 == Xor(bits - 1, a / 2, b / 2);
      assert x % 2 == if a % 2 == b % 2 then 0 else 1;
      XorUndoes(bits - 1, a / 2, b / 2);
      assert Xor(bits, x, b) / 2 == a / 2;
      assert Xor(bits, x, b) % 2 == a % 2;
    }
  }

  /** The bit of weight 2^i. */
  function Bit(n: nat, i: nat): bool { n / Pow2(i) % 2 == 1 }

  lemma {:induction false} BitAbove(n: nat, i: nat)
    requires i > 0
    ensures Bit(n, i) == Bit(n / 2, i - 1)
  {
    var p := Pow2(i - 1);
    assert Pow2(i) == 2 * p;
    DivideTwice(n, p);
  }

  lemma {:induction false} DivideTwice(n: nat, p: nat)
    requires p > 0
    ensures n / (2 * p) == n / 2 / p
  {
    var m := n / 2;
    var q, r := m / p, m % p;
    assert m == p * q + r;
    assert n == 2 * m + n % 2;
    assert n == (2 * p) * q + (2 * r + n % 2);
    QuotientIs(n, 2 * p, q, 2 * r + n % 2);
  }

  lemma {:induction false} QuotientIs(n: nat, d: nat, q: nat, r: nat)
    requires d > 0 && n == d * q + r && r < d
    ensures n / d == q
  {
    var p, s := n / d, n % d;
    assert n == d * p + s;
    if p < q { Spread(d, p, q); } else if q < p { Spread(d, q, p); }
  }

  lemma {:induction false} Spread(d: nat, p: nat, q: nat)
    requires p < q
    ensures d * q >= d * p + d
  {
    var k := q - p - 1;
    assert d * q == d * p + d + d * k;
  }

  /** `Xor` is the exclusive-or of each pair of bits. */
  lemma {:induction false} XorBits(bits: nat, a: nat, b: nat, i: nat)
    requires a < Pow2(bits) && b < Pow2(bits) && i < bits
    ensures Bit(Xor(bits, a, b), i) <==> (Bit(a, i) != Bit(b, i))
  {
    var x := Xor(bits, a, b);
    assert x / 2 == Xor(bits - 1, a / 2, b / 2) && x % 2 == if a % 2 == b % 2 then 0 else 1;
    if i == 0 {
      assert Pow2(0) == 1;
      hide Xor;
    } else {
      hide Xor, Bit;
      BitAbove(x, i);
      BitAbove(a, i);
      BitAbove(b, i);
      XorBits(bits - 1, a / 2, b / 2, i - 1);
    }
  }

  function XorByte(a: byte, b: byte): (r: byte)
  {
    assert Pow2(8) == 256;
    Xor(8, a, b)
  }

  lemma {:induction false} XorByteBits(a: byte, b: byte, i: nat)
    requires i < 8
    ensures Bit(XorByte(a, b), i) <==> (Bit(a, i) != Bit(b, i))
  {
    assert Pow2(8) == 256;
    XorBits(8, a, b, i);
  }

  lemma {:induction false} XorByteUndoes(a: byte, b: byte)
    ensures XorByte(XorByte(a, b), b) == a
  {
    assert Pow2(8) == 256;
    XorUndoes(8, a, b);
  }

  // ---- Substring search --------------------------------------------------

  const CR: byte := 13
  const LF: byte := 10
  const CRLF: bytes := [CR, LF]
  const BLANK_LINE: bytes := [CR, LF, CR, LF]

  predicate At(s: bytes, pat: bytes, i: int) {
    0 <= i && i + |pat| <= |s| && s[i..i + |pat|] == pat
  }

  lemma {:induction false} AtByte(s: bytes, pat: bytes, i: int, j: nat)
    requires j < |pat|
    ensures At(s, pat, i) ==> s[i + j] == pat[j]
  {
    if At(s, pat, i) { assert s[i..i + |pat|][j] == s[i + j]; }
  }

  /** A concatenation found at a position is its parts found one after the other. */
  lemma {:induction false} AtSplit(s: bytes, a: bytes, b: bytes, i: int)
    ensures At(s, a + b, i) <==> At(s, a, i) && At(s, b, i + |a|)
  {
    if 0 <= i && i + |a| + |b| <= |s| {
      var whole := s[i..i + |a| + |b|];
      assert whole[..|a|] == s[i..i + |a|] && whole[|a|..] == s[i + |a|..i + |a| + |b|];
      assert (a + b)[..|a|] == a && (a + b)[|a|..] == b;
      assert whole == whole[..|a|] + whole[|a|..];
    }
  }

  lemma {:induction false} SliceOfPrefix(s: bytes, k: nat, a: nat, b: nat)
    requires a <= b <= k <= |s|
    ensures s[..k][a..b] == s[a..b]
  {
  }

  lemma {:induction false} SliceOfConcat(s: bytes, more: bytes, a: nat, b: nat)
    requires a <= b <= |s|
    ensures (s + more)[a..b] == s[a..b]
  {
  }

  lemma {:induction false} AtFront(s: bytes, rest: bytes)
    ensures At(s + rest, s, 0)
  {
    assert (s + rest)[..|s|] == s;
  }

  /** Python's `s.find(pat, from)`: the least match at or after `from`, or -1. */
  function Find(s: bytes, pat: bytes, from: nat): (r: int)
    ensures r == -1 ==> forall i :: from <= i ==> !At(s, pat, i)
    ensures r != -1 ==> from <= r && r + |pat| <= |s| && At(s, pat, r) && forall i :: from <= i < r ==> !At(s, pat, i)
    decreases |s| - from
  {
    if from + |pat| > |s| then -1
    else if s[from..from + |pat|] == pat then from
    else if from == |s| then -1
    else Find(s, pat, from + 1)
  }

  /** Cutting the haystack hides exactly the matches that do not fit in the cut. */
  lemma {:induction false} FindInPrefix(s: bytes, k: nat, pat: bytes, from: nat)
    requires k <= |s|
    ensures Find(s[..k], pat, from)
         == if Find(s, pat, from) != -1 && Find(s, pat, from) + |pat| <= k then Find(s, pat, from) else -1
  {
    forall i: int
      ensures At(s[..k], pat, i) <==> At(s, pat, i) && i + |pat| <= k
    {
      if 0 <= i && i + |pat| <= k {
        assert s[..k][i..i + |pat|] == s[i..i + |pat|];
      }
    }
  }

  function Concat(pieces: seq<bytes>): (r: bytes)
  {
    if pieces == [] then [] else Concat(pieces[..|pieces| - 1]) + pieces[|pieces| - 1]
  }
}
