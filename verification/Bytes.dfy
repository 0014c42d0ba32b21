/** Bytes as numbers, and the bit operations the protocols apply to them. Where the source
    combines disjoint bit fields with `|`, `&` and shifts, the model adds, divides and takes
    remainders by powers of two. */
module Bytes {

  /** An unsigned byte. */
  type Byte = b: nat | b < 256

  /** Exclusive or of two `n`-bit numbers, bit by bit. */
  function XorBits(a: nat, b: nat, n: nat): (x: nat)
    requires a < Pow2(n) && b < Pow2(n)
    ensures x < Pow2(n)
  {
    if n == 0 then 0
    else (a % 2 + b % 2) % 2 + 2 * XorBits(a / 2, b / 2, n - 1)
  }

  function Pow2(n: nat): (p: nat)
    ensures p > 0
  {
    if n == 0 then 1 else 2 * Pow2(n - 1)
  }

  lemma SplitBit(x: nat, bit: nat, hi: nat)
    requires x == bit + 2 * hi && bit < 2
    ensures x % 2 == bit && x / 2 == hi
  {
  }

  lemma BitTwice(p: nat, q: nat)
    requires p < 2 && q < 2
    ensures ((p + q) % 2 + q) % 2 == p
  {
  }

  lemma {:induction false} XorTwice(a: nat, b: nat, n: nat)
    requires a < Pow2(n) && b < Pow2(n)
    ensures XorBits(XorBits(a, b, n), b, n) == a
  {
    if n > 0 {
      var x, hi := XorBits(a, b, n), XorBits(a / 2, b / 2, n - 1);
      var bit := (a % 2 + b % 2) % 2;
      SplitBit(x, bit, hi);
      XorTwice(a / 2, b / 2, n - 1);
      BitTwice(a % 2, b % 2);
    }
  }

  /** `a ^ b` on bytes. */
  function Xor(a: Byte, b: Byte): Byte {
    assert Pow2(8) == 256;
    XorBits(a, b, 8)
  }

  lemma XorInvolution(a: Byte, b: Byte)
    ensures Xor(Xor(a, b), b) == a
  {
    assert Pow2(8) == 256;
    XorTwice(a, b, 8);
  }

  // ---------------------------------------------------------------- bits and digits

  /** The bit of weight `Pow2(k)`. */
  function Bit(x: nat, k: nat): (b: nat)
    ensures b < 2
  {
    x / Pow2(k) % 2
  }

  lemma {:induction false} Further(d: nat, p: nat, q: nat)
    requires p < q
    ensures d * p + d <= d * q
  {
    if p + 1 < q {
      Further(d, p, q - 1);
    }
    assert d * q == d * (q - 1) + d;
  }

  lemma QuotientIs(x: nat, d: nat, q: nat, r: nat)
    requires x == d * q + r && r < d
    ensures x / d == q
  {
    var p := x / d;
    assert x == d * p + x % d;
    if p < q {
      Further(d, p, q);
    } else if p > q {
      Further(d, q, p);
    }
  }

  lemma Composed(x: nat, a: nat, y: nat, t: nat, b: nat, q: nat, r: nat)
    requires x == a * y + t && t < a && y == b * q + r && r < b
    ensures x == a * b * q + (a * r + t) && a * r + t < a * b
  {
    Distributed(a, b, q, r);
    Further(a, r, b);
  }

  lemma Quotient(x: nat, d: nat) returns (q: nat, r: nat)
    requires d > 0
    ensures x == d * q + r && r < d && q == x / d
  {
    q, r := x / d, x % d;
  }

  /** Dividing twice. */
  lemma DivideTwice(x: nat, a: nat, b: nat)
    requires a > 0 && b > 0
    ensures a * b > 0 && x / (a * b) == x / a / b
  {
    var y, t := Quotient(x, a);
    var q, r := Quotient(y, b);
    Composed(x, a, y, t, b, q, r);
    QuotientIs(x, a * b, q, a * r + t);
  }

  lemma Distributed(a: nat, b: nat, q: nat, r: nat)
    ensures a * (b * q + r) == a * b * q + a * r
  {
  }

  lemma BitHalf(x: nat, k: nat)
    requires k > 0
    ensures Bit(x, k) == Bit(x / 2, k - 1)
  {
    DivideTwice(x, 2, Pow2(k - 1));
  }

  lemma BitZero(x: nat)
    ensures Bit(x, 0) == x % 2
  {
    assert Pow2(0) == 1;
  }

  lemma {:induction false} XorBitsAt(a: nat, b: nat, n: nat, k: nat)
    requires a < Pow2(n) && b < Pow2(n) && k < n
    ensures Bit(XorBits(a, b, n), k) == 1 <==> Bit(a, k) != Bit(b, k)
  {
    hide Bit;
    var hi := XorBits(a / 2, b / 2, n - 1);
    SplitBit(XorBits(a, b, n), (a % 2 + b % 2) % 2, hi);
    if k == 0 {
      BitZero(a);
      BitZero(b);
      BitZero(XorBits(a, b, n));
    } else {
      BitHalf(a, k);
      BitHalf(b, k);
      BitHalf(XorBits(a, b, n), k);
      XorBitsAt(a / 2, b / 2, n - 1, k - 1);
    }
  }

  /** A bit of `a ^ b` is set if and only if it is set in exactly one of the two. */
  lemma XorBit(a: Byte, b: Byte, k: nat)
    requires k < 8
    ensures Bit(Xor(a, b), k) == 1 <==> Bit(a, k) != Bit(b, k)
  {
    assert Pow2(8) == 256;
    XorBitsAt(a, b, 8, k);
  }

  /** The bytes of a number in network order: the one at `i` has the weight `Pow256(n - 1 - i)`. */
  lemma {:induction false} BigEndianAt(v: nat, n: nat, i: nat)
    requires i < n
    ensures BigEndian(v, n)[i] == Digit256(v, n - 1 - i)
  {
    if i < n - 1 {
      BigEndianAt(v / 256, n - 1, i);
      DivideTwice(v, 256, Pow256(n - 2 - i));
    }
  }

  /** The digit of weight `Pow256(k)`. */
  function Digit256(v: nat, k: nat): Byte {
    v / Pow256(k) % 256
  }

  /** The last `n` bytes of `v`, most significant first. */
  function BigEndian(v: nat, n: nat): (s: seq<Byte>)
    ensures |s| == n
  {
    if n == 0 then [] else BigEndian(v / 256, n - 1) + [v % 256]
  }

  /** Reading bytes most significant first, on top of what has been read. */
  function FoldBytes(acc: nat, s: seq<Byte>): nat {
    if s == [] then acc else FoldBytes(acc, s[..|s| - 1]) * 256 + s[|s| - 1]
  }

  lemma {:induction false} BigEndianRoundTrip(v: nat, n: nat)
    requires v < Pow256(n)
    ensures FoldBytes(0, BigEndian(v, n)) == v
  {
    if n > 0 {
      BigEndianRoundTrip(v / 256, n - 1);
      assert BigEndian(v, n)[..n - 1] == BigEndian(v / 256, n - 1);
    }
  }

  function Pow256(n: nat): (p: nat)
    ensures p > 0
  {
    if n == 0 then 1 else 256 * Pow256(n - 1)
  }
}
