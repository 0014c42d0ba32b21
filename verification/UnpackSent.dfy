/** What a sender means by a package, in each mode of lib/libhv/event/unpack.c, and the proof that the
    receiver cuts it so and delivers it. */
module UnpackSent {
  import opened Bytes
  import opened Folding
  import opened UnpackSpec
  import opened Unpack
  import Varint

  /** The field holds the number `n` in this coding: digits to base 256, the most or the least significant
      first, or digits to base 128 with the top bit set on all but the last. */
  ghost predicate Codes(field: seq<Byte>, coding: Coding, n: nat) {
    match coding
    case BigEndianCoding => n < Pow256(|field|) && MostFirst(field, n)
    case LittleEndianCoding => n < Pow256(|field|) && LeastFirst(field, n)
    case VarintCoding => field == Varint.Encode(n) && |field| <= Varint.MAX_BYTES
  }

  ghost predicate MostFirst(s: seq<Byte>, n: nat) {
    forall i :: 0 <= i < |s| ==> s[i] == Digit256(n, |s| - 1 - i)
  }

  ghost predicate LeastFirst(s: seq<Byte>, n: nat) {
    forall i :: 0 <= i < |s| ==> s[i] == Digit256(n, i)
  }

  /** The package `p` says how long it is: with the number `n` in its length field, which a varint makes longer
      or shorter than announced in the setting, and `adjust` on top. */
  ghost predicate Announces(body: nat, at: nat, width: nat, adjust: int, coding: Coding, p: seq<Byte>, n: nat) {
    var w := if coding == VarintCoding then |Varint.Encode(n)| else width;
    && n < 0x1_0000_0000 && at + w <= |p| && Codes(p[at..at + w], coding, n)
    && |p| == body + (w - width) + n + adjust
  }

  /** A package as it is meant. */
  ghost predicate Proper(m: Mode, p: seq<Byte>) {
    match m
    case FixedLength(n) => |p| == n
    case Delimiter(d) => |p| >= |d| && At(p, d, |p| - |d|) && forall j :: 0 <= j < |p| - |d| ==> !At(p, d, j)
    case LengthField(body, at, width, adjust, coding) =>
      body <= |p| < 0x8000_0000 && exists n :: Announces(body, at, width, adjust, coding, p, n)
  }

  // ---------------------------------------------------------------- what a length field means

  lemma {:induction false} BigReads(s: seq<Byte>, n: nat)
    requires |s| <= 4 && n < Pow256(|s|) && MostFirst(s, n)
    ensures Big(s) == n
  {
    hide Digit256, Pow256;
    Powers(n, |s|);
    if s != [] {
      var r := s[..|s| - 1];
      forall i | 0 <= i < |r|
        ensures r[i] == Digit256(n / 256, |r| - 1 - i)
      {
        DigitUp(n, |r| - 1 - i);
      }
      BigReads(r, n / 256);
      LastDigit(n);
      Pow256Small(|s|);
    }
  }

  lemma Powers(n: nat, k: nat)
    requires n < Pow256(k)
    ensures if k == 0 then n == 0 else n / 256 < Pow256(k - 1)
  {
  }

  lemma LastDigit(n: nat)
    ensures Digit256(n, 0) == n % 256
  {
  }

  lemma Pow256Small(k: nat)
    requires k <= 4
    ensures Pow256(k) <= 0x1_0000_0000
  {
    assert Pow256(2) == 0x1_0000 && Pow256(4) == 0x1_0000_0000 && Pow256(3) == 0x100_0000 && Pow256(1) == 256;
  }

  lemma DigitUp(n: nat, k: nat)
    ensures Digit256(n, k + 1) == Digit256(n / 256, k)
  {
    DivideTwice(n, 256, Pow256(k));
  }

  lemma {:induction false} LittleReads(s: seq<Byte>, n: nat)
    requires LeastFirst(s, n)
    ensures Little(s) == n % Pow256(|s|)
  {
    if s != [] {
      var k := |s| - 1;
      LittleReads(s[..k], n);
      DigitSplit(n, k);
    }
  }

  /** The last `k + 1` digits are the digit at `k` and the last `k`. */
  lemma DigitSplit(n: nat, k: nat)
    ensures n % Pow256(k + 1) == n % Pow256(k) + Digit256(n, k) * Pow256(k)
  {
    var d := Pow256(k);
    var q, r := Quotient(n, d);
    var a, b := Quotient(q, 256);
    Regrouped(n, d, q, r, a, b);
    QuotientIs(n, 256 * d, a, b * d + r);
    assert 256 * d * a == 256 * d * (n / (256 * d));
  }

  lemma Regrouped(n: nat, d: nat, q: nat, r: nat, a: nat, b: nat)
    requires n == d * q + r && r < d && q == 256 * a + b && b < 256
    ensures n == 256 * d * a + (b * d + r) && b * d + r < 256 * d
  {
    Distributed(d, 256, a, b);
    Further(d, b, 256);
  }

  lemma VarintCut(m: Mode, p: seq<Byte>, n: nat)
    requires SaneMode(m) && m.LengthField? && m.coding == VarintCoding && m.body <= |p| < 0x8000_0000
    requires Announces(m.body, m.at, m.width, m.adjust, m.coding, p, n)
    ensures CutOf(m, p) == Package(|p|)
  {
    hide Varint.Encode, Varint.SpanOf, Varint.Value;
    var code := Varint.Encode(n);
    Varint.RoundTrip(n, p[m.at + |code|..]);
    assert p[m.at..] == code + p[m.at + |code|..];
  }

  lemma BigCut(m: Mode, p: seq<Byte>, n: nat)
    requires SaneMode(m) && m.LengthField? && m.coding == BigEndianCoding && m.body <= |p| < 0x8000_0000
    requires Announces(m.body, m.at, m.width, m.adjust, m.coding, p, n)
    ensures CutOf(m, p) == Package(|p|)
  {
    hide Big, MostFirst, Pow256;
    BigReads(p[m.at..m.at + m.width], n);
  }

  lemma LittleCut(m: Mode, p: seq<Byte>, n: nat)
    requires SaneMode(m) && m.LengthField? && m.coding == LittleEndianCoding && m.body <= |p| < 0x8000_0000
    requires Announces(m.body, m.at, m.width, m.adjust, m.coding, p, n)
    ensures CutOf(m, p) == Package(|p|)
  {
    hide Little, LeastFirst, Pow256;
    var field := p[m.at..m.at + m.width];
    LittleReads(field, n);
    assert n % Pow256(|field|) == n by {
      QuotientIs(n, Pow256(|field|), 0, n);
    }
  }

  /** A package with a length field is cut off as a whole, whatever the coding. */
  lemma FieldCut(m: Mode, p: seq<Byte>, n: nat)
    requires SaneMode(m) && m.LengthField? && m.body <= |p| < 0x8000_0000
    requires Announces(m.body, m.at, m.width, m.adjust, m.coding, p, n)
    ensures CutOf(m, p) == Package(|p|)
  {
    hide CutOf, Announces, SaneMode;
    match m.coding
    case VarintCoding => VarintCut(m, p, n);
    case BigEndianCoding => BigCut(m, p, n);
    case LittleEndianCoding => LittleCut(m, p, n);
  }

  /** A proper package is cut off as a whole, whatever follows it. */
  lemma ProperCut(m: Mode, p: seq<Byte>)
    requires SaneMode(m) && Proper(m, p)
    ensures CutOf(m, p) == Package(|p|)
  {
    match m
    case FixedLength(_) =>
    case Delimiter(d) =>
      NoDelimiter(p, d, 0);
      FindEndBound(p, d, 0);
      assert At(p, d, |p| - |d|);
      var n := FindEnd(p, d, 0).length;
      Shortest(p, d, 0, n);
    case LengthField(body, at, width, adjust, coding) =>
      var n :| Announces(body, at, width, adjust, coding, p, n);
      FieldCut(m, p, n);
  }

  // ---------------------------------------------------------------- from sender to receiver

  /** Halfway through a stream of proper packages: those that are complete have come out, and what is left
      over begins the next. */
  lemma Halfway(m: Mode, ps: seq<seq<Byte>>, x: seq<Byte>, y: seq<Byte>)
    requires SaneMode(m) && (forall i :: 0 <= i < |ps| ==> Proper(m, ps[i])) && x + y == Join(ps)
    ensures var done := Packages(m, x);
            && done <= ps && Rest(m, x) + y == Join(ps[|done|..])
            && (y == [] ==> done == ps)
            && (|done| < |ps| ==> CutOf(m, Rest(m, x) + y) == Package(|ps[|done|]|))
  {
    hide CutOf, Proper, Packages, Rest;
    forall i | 0 <= i < |ps|
      ensures CutOf(m, ps[i]) == Package(|ps[i]|)
    {
      ProperCut(m, ps[i]);
    }
    Framed(m, ps);
    PackagesMore(m, x, y);
    var done, z := Packages(m, x), Rest(m, x) + y;
    assert ps[|done|..] == Packages(m, z);
    Conserved(m, z);
    assert Join(Packages(m, z)) + [] == Join(Packages(m, z));
    if |done| < |ps| {
      FirstCut(m, ps[|done|..]);
    }
    if y == [] {
      assert x + y == x;
    }
  }

  lemma FirstCut(m: Mode, ps: seq<seq<Byte>>)
    requires SaneMode(m) && ps != [] && CutOf(m, ps[0]) == Package(|ps[0]|)
    ensures CutOf(m, Join(ps)) == Package(|ps[0]|)
  {
    hide CutOf;
    CutStable(m, ps[0], Join(ps[1..]));
  }

  /** Packages that are proper and within the limit never close the io, wherever the stream is cut. */
  lemma NotClosed(s: Setting, ps: seq<seq<Byte>>, x: seq<Byte>, y: seq<Byte>)
    requires Sane(s) && x + y == Join(ps)
    requires forall i :: 0 <= i < |ps| ==> Proper(s.mode, ps[i]) && |ps[i]| <= s.max
    ensures CutOf(s.mode, Rest(s.mode, x)) != Outside && !Oversized(s, Rest(s.mode, x))
  {
    hide CutOf, Proper, Packages, Rest, Oversized;
    var m := s.mode;
    var rest, done := Rest(m, x), Packages(m, x);
    Halfway(m, ps, x, y);
    CutStable(m, rest, y);
    if |done| == |ps| {
      assert rest == [];
      EmptyRest(s);
    } else if Oversized(s, rest) {
      NeverWithinLimit(s, rest, y);
    }
  }

  lemma EmptyRest(s: Setting)
    requires Sane(s)
    ensures CutOf(s.mode, []) != Outside && !Oversized(s, [])
  {
  }

  lemma Slices(s: seq<Byte>, n: nat, k: nat)
    requires n + k <= |s|
    ensures s[..n] + s[n..n + k] == s[..n + k] && s[..n + k] + s[n + k..] == s
  {
  }

  /** A connection that carries proper packages, in reads of any sizes that the buffer has room for: all of
      them are delivered, each with its own bytes, in order, and the io stays open. */
  method ReadStream(u: Unpacker, stream: seq<Byte>, ghost ps: seq<seq<Byte>>)
    requires u.Valid() && !u.closed && u.received == [] && stream == Join(ps)
    requires forall i :: 0 <= i < |ps| ==> Proper(u.setting.mode, ps[i]) && |ps[i]| <= u.setting.max
    modifies u, u.base
    ensures u.Valid() && !u.closed && u.received == stream && u.delivered == ps
  {
    hide CutOf, Proper, Packages, Rest, Oversized, Join, SaneMode;
    var n := 0;
    Halfway(u.setting.mode, ps, [], stream);
    while n < |stream|
      invariant n <= |stream| && u.Valid() && !u.closed && u.received == stream[..n]
      invariant u.base == old(u.base) || fresh(u.base)
    {
      var k :| 0 < k <= |stream| - n && k <= u.base.Length - u.tail;
      Slices(stream, n, k);
      NotClosed(u.setting, ps, stream[..n + k], stream[n + k..]);
      u.Read(stream[n..n + k]);
      n := n + k;
    }
    assert stream[..n] == stream && stream + [] == stream;
    Halfway(u.setting.mode, ps, stream, []);
  }
}
