/** The variable-length integers of lib/libhv/base/hmath.h: seven bits a byte, low bits first, the
    top bit set on every byte but the last. */
module Varint {
  import opened Bytes
  import opened Folding

  const MAX_BYTES: nat := 10

  /** `varint_encode` of a value that is not negative. */
  function Encode(value: nat): (r: seq<Byte>)
    ensures |r| >= 1
  {
    if value < 128 then [value] else [value % 128 + 128] + Encode(value / 128)
  }

  /** The value of a varint, seven bits a byte. */
  function Value(s: seq<Byte>): nat {
    if s == [] then 0 else s[0] % 128 + 128 * Value(s[1..])
  }

  /** The bytes of the varint at the start of `s`, up to ten: its length, or nothing if the bytes run
      out, or too many. */
  datatype Span = Short | Long | Span(bytes: nat)

  function SpanOf(s: seq<Byte>, from: nat): Span
    requires from <= |s|
    decreases |s| - from
  {
    if from == MAX_BYTES then Long
    else if from == |s| then Short
    else if s[from] < 128 then Span(from + 1)
    else SpanOf(s, from + 1)
  }

  /** More bytes behind a complete or overlong varint change nothing. */
  lemma {:induction false} SpanStable(s: seq<Byte>, t: seq<Byte>, from: nat)
    requires from <= |s|
    ensures SpanOf(s, from) != Short ==> SpanOf(s + t, from) == SpanOf(s, from)
    ensures SpanOf(s, from).Span? ==> from < SpanOf(s, from).bytes <= |s|
    ensures SpanOf(s, from) == Short ==> |s| < MAX_BYTES || from > MAX_BYTES
    decreases |s| - from
  {
    if from != MAX_BYTES && from < |s| {
      assert (s + t)[from] == s[from];
      SpanStable(s, t, from + 1);
    }
  }

  /** `varint_encode`, which writes the bytes into a buffer. */
  method EncodeInto(value: nat, buf: array<Byte>) returns (bytes: nat)
    requires buf.Length >= |Encode(value)|
    modifies buf
    ensures bytes == |Encode(value)| && buf[..bytes] == Encode(value)
    ensures forall i :: bytes <= i < buf.Length ==> buf[i] == old(buf[i])
  {
    hide Encode;
    var v := value;
    bytes := 0;
    var more := true;
    ghost var done: seq<Byte> := [];
    while more
      invariant bytes == |done| <= buf.Length
      invariant forall i :: 0 <= i < bytes ==> buf[i] == done[i]
      invariant forall i :: bytes <= i < buf.Length ==> buf[i] == old(buf[i])
      invariant more ==> done + Encode(v) == Encode(value)
      invariant !more ==> done == Encode(value)
      decreases more, v
    {
      EncodeNext(done, v, Encode(value));
      var ch := v % 128;
      v := v / 128;
      more := v != 0;
      buf[bytes] := if more then ch + 128 else ch;
      done := done + [buf[bytes]];
      bytes := bytes + 1;
    }
    assert buf[..bytes] == done;
  }

  lemma EncodeNext(done: seq<Byte>, v: nat, all: seq<Byte>)
    requires done + Encode(v) == all
    ensures |done| < |all|
    ensures v / 128 == 0 ==> done + [v % 128] == all
    ensures v / 128 > 0 ==> v / 128 < v && done + [v % 128 + 128] + Encode(v / 128) == all
  {
  }

  /** `varint_decode` with the number of bytes at hand: how many bytes the varint takes, 0 if it is
      incomplete and -1 if it is too long. At least one byte must be at hand, since a length of 0
      switches the check off. */
  method Decode(buf: seq<Byte>) returns (value: nat, bytes: int)
    requires buf != []
    ensures match SpanOf(buf, 0)
            case Short => bytes == 0
            case Long => bytes == -1
            case Span(n) => bytes == n && n <= |buf| && value == Value(buf[..n])
  {
    value, bytes := 0, 0;
    var weight: nat := 1;
    while bytes < MAX_BYTES
      invariant 0 <= bytes <= |buf| && bytes <= MAX_BYTES && SpanOf(buf, bytes) == SpanOf(buf, 0)
      invariant weight == Power128(bytes) && value == Value(buf[..bytes])
    {
      if bytes == |buf| {
        return 0, 0;
      }
      ValueMore(buf[..bytes], buf[bytes]);
      assert buf[..bytes + 1] == buf[..bytes] + [buf[bytes]];
      value := value + buf[bytes] % 128 * weight;
      bytes := bytes + 1;
      if buf[bytes - 1] < 128 {
        return;
      }
      weight := weight * 128;
    }
    bytes := -1;
  }

  function Power128(n: nat): (p: nat)
    ensures p > 0
  {
    if n == 0 then 1 else 128 * Power128(n - 1)
  }

  lemma {:induction false} ValueMore(s: seq<Byte>, b: Byte)
    ensures Value(s + [b]) == Value(s) + b % 128 * Power128(|s|)
  {
    if s == [] {
      assert [b][1..] == [];
    } else {
      assert (s + [b])[1..] == s[1..] + [b];
      ValueMore(s[1..], b);
      var x, y := b % 128, Power128(|s| - 1);
      assert 128 * (x * y) == x * (128 * y);
    }
  }

  lemma {:induction false} ValueOfEncode(value: nat)
    ensures Value(Encode(value)) == value
  {
    if value >= 128 {
      ValueOfEncode(value / 128);
      assert Encode(value)[1..] == Encode(value / 128);
    } else {
      assert [value][1..] == [];
    }
  }

  /** A varint holds the digits of its value to base 128, the least significant first and no more than needed;
      the top bit says that another byte follows. */
  lemma {:induction false} EncodeDigits(value: nat, i: nat)
    requires i < |Encode(value)|
    ensures Encode(value)[i] % 128 == value / Power128(i) % 128
    ensures Encode(value)[i] >= 128 <==> i < |Encode(value)| - 1
    ensures value < Power128(|Encode(value)|)
    ensures |Encode(value)| > 1 ==> value >= Power128(|Encode(value)| - 1)
  {
    if value >= 128 {
      assert Encode(value)[1..] == Encode(value / 128);
      if i > 0 {
        EncodeDigits(value / 128, i - 1);
        DivideTwice(value, 128, Power128(i - 1));
      } else {
        EncodeDigits(value / 128, 0);
      }
    }
  }

  lemma {:induction false} SpanOfEncode(value: nat, before: seq<Byte>, rest: seq<Byte>)
    requires |before| + |Encode(value)| <= MAX_BYTES
    ensures SpanOf(before + Encode(value) + rest, |before|) == Span(|before| + |Encode(value)|)
    decreases value
  {
    var code := Encode(value);
    var s := before + code + rest;
    assert s[|before|] == code[0];
    if value >= 128 {
      var more := Encode(value / 128);
      assert code == [code[0]] + more;
      Assoc(before, [code[0]], more);
      SpanOfEncode(value / 128, before + [code[0]], rest);
    }
  }

  /** What was encoded is decoded, whatever follows it. */
  lemma RoundTrip(value: nat, rest: seq<Byte>)
    requires |Encode(value)| <= MAX_BYTES
    ensures SpanOf(Encode(value) + rest, 0) == Span(|Encode(value)|)
    ensures Value((Encode(value) + rest)[..|Encode(value)|]) == value
  {
    hide Encode, Value, SpanOf;
    ValueOfEncode(value);
    SpanOfEncode(value, [], rest);
    assert [] + Encode(value) == Encode(value);
    assert (Encode(value) + rest)[..|Encode(value)|] == Encode(value);
  }

  /** Nine bytes hold every value below 2^63, so every `long long` that is not negative. */
  lemma {:induction false} LengthBound(value: nat, n: nat)
    requires n >= 1 && value < Power128(n)
    ensures |Encode(value)| <= n
  {
    if value >= 128 {
      LengthBound(value / 128, n - 1);
    }
  }
}
