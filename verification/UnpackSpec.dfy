/** Stream framing of lib/libhv/event/unpack.c as functions of the bytes alone: where the first
    package of a stream ends, and how a stream falls into packages. */
module UnpackSpec {
  import opened Bytes
  import opened Folding
  import Varint

  const READ_BUFSIZE: nat := 8192
  const HIGH_WATER: nat := 65536

  datatype Coding = BigEndianCoding | LittleEndianCoding | VarintCoding

  /** `unpack_setting_t`. In length-field mode: the offset of the body, the offset and width of the
      length field, and `length_adjustment`. */
  datatype Mode =
    | FixedLength(length: nat)
    | Delimiter(bytes: seq<Byte>)
    | LengthField(body: nat, at: nat, width: nat, adjust: int, coding: Coding)

  datatype Setting = Setting(mode: Mode, max: nat)

  /** Settings that make sense: what `hio_set_unpack` asserts, a delimiter, and a header that fits the
      smallest read buffer. */
  predicate Sane(s: Setting) {
    s.max > 0 && SaneMode(s.mode) &&
    match s.mode
    case FixedLength(n) => n <= s.max
    case Delimiter(_) => true
    case LengthField(body, at, _, _, coding) =>
      body <= Smallest(s) && (coding == VarintCoding ==> at + Varint.MAX_BYTES <= Smallest(s))
  }

  predicate SaneMode(m: Mode) {
    match m
    case FixedLength(n) => n > 0
    case Delimiter(d) => d != []
    case LengthField(body, at, width, _, coding) =>
      at + width <= body && width > 0 && (coding != VarintCoding ==> width <= 4)
  }

  function Smallest(s: Setting): nat {
    if s.max < READ_BUFSIZE then s.max else READ_BUFSIZE
  }

  /** What the beginning of a stream says: nothing yet; a package announced but not all there; a
      package of this length; a varint that is too big; or a length that is not positive or does not
      fit, on which the code relies not to meet. */
  datatype Cut = More | Wait(need: nat) | Package(length: nat) | TooBig | Outside

  function FindEnd(s: seq<Byte>, d: seq<Byte>, k: nat): Cut
    decreases |s| - k
  {
    if k + |d| > |s| then More
    else if s[k..k + |d|] == d then Package(k + |d|)
    else FindEnd(s, d, k + 1)
  }

  /** `body_len << 8 | byte` and so on, in 32 bits. */
  function Big(s: seq<Byte>): nat {
    if s == [] then 0 else (Big(s[..|s| - 1]) * 256 + s[|s| - 1]) % 0x1_0000_0000
  }

  function Little(s: seq<Byte>): nat {
    if s == [] then 0 else Little(s[..|s| - 1]) + s[|s| - 1] * Pow256(|s| - 1)
  }

  function Finish(n: int, have: nat): Cut {
    if n < 1 || n >= 0x8000_0000 then Outside else if have >= n then Package(n) else Wait(n)
  }

  function CutOf(m: Mode, s: seq<Byte>): (c: Cut)
    requires SaneMode(m)
    ensures c.Package? ==> 0 < c.length <= |s|
    ensures c.Wait? ==> |s| < c.need < 0x8000_0000
  {
    match m
    case FixedLength(n) => if |s| >= n then Package(n) else More
    case Delimiter(d) => FindEndBound(s, d, 0); FindEnd(s, d, 0)
    case LengthField(body, at, width, adjust, coding) =>
      if |s| < body then More
      else match coding
        case BigEndianCoding => Finish(body + Big(s[at..at + width]) + adjust, |s|)
        case LittleEndianCoding => Finish(body + Little(s[at..at + width]) + adjust, |s|)
        case VarintCoding =>
          var span := Varint.SpanOf(s[at..], 0);
          if span.Short? then More
          else if span.Long? then TooBig
          else
            Varint.SpanStable(s[at..], [], 0);
            Finish(body + span.bytes - width + Varint.Value(s[at..][..span.bytes]) % 0x1_0000_0000 + adjust, |s|)
  }

  lemma {:induction false} FindEndBound(s: seq<Byte>, d: seq<Byte>, k: nat)
    ensures FindEnd(s, d, k).Package? || FindEnd(s, d, k) == More
    ensures FindEnd(s, d, k).Package? ==> k + |d| <= FindEnd(s, d, k).length <= |s|
    decreases |s| - k
  {
    if k + |d| <= |s| && s[k..k + |d|] != d {
      FindEndBound(s, d, k + 1);
    }
  }

  /** The delimiter stands at offset `j`. */
  predicate At(s: seq<Byte>, d: seq<Byte>, j: nat) {
    j + |d| <= |s| && s[j..j + |d|] == d
  }

  /** In delimiter mode a package is the shortest prefix that ends in the delimiter. */
  lemma {:induction false} Shortest(s: seq<Byte>, d: seq<Byte>, k: nat, n: nat)
    requires FindEnd(s, d, k) == Package(n)
    ensures k + |d| <= n <= |s| && At(s, d, n - |d|)
    ensures forall j :: k <= j < n - |d| ==> !At(s, d, j)
    decreases |s| - k
  {
    if s[k..k + |d|] != d {
      Shortest(s, d, k + 1, n);
    }
  }

  /** And without one there is no delimiter at all. */
  lemma {:induction false} NoDelimiter(s: seq<Byte>, d: seq<Byte>, k: nat)
    ensures FindEnd(s, d, k) == More <==> forall j :: j >= k ==> !At(s, d, j)
    decreases |s| - k
  {
    if k + |d| <= |s| {
      if s[k..k + |d|] == d {
        assert At(s, d, k);
      } else {
        NoDelimiter(s, d, k + 1);
      }
    }
  }

  lemma {:induction false} FindEndStable(s: seq<Byte>, t: seq<Byte>, d: seq<Byte>, k: nat)
    requires FindEnd(s, d, k).Package?
    ensures FindEnd(s + t, d, k) == FindEnd(s, d, k)
    decreases |s| - k
  {
    assert (s + t)[k..k + |d|] == s[k..k + |d|];
    if s[k..k + |d|] != d {
      FindEndStable(s, t, d, k + 1);
    }
  }

  /** A decision once made is not changed by bytes that arrive later. */
  lemma CutStable(m: Mode, s: seq<Byte>, t: seq<Byte>)
    requires SaneMode(m)
    ensures CutOf(m, s).Package? || CutOf(m, s).TooBig? || CutOf(m, s).Outside? ==> CutOf(m, s + t) == CutOf(m, s)
  {
    match m
    case FixedLength(_) =>
    case Delimiter(d) =>
      if FindEnd(s, d, 0).Package? {
        FindEndStable(s, t, d, 0);
      }
      FindEndBound(s, d, 0);
    case LengthField(body, at, width, adjust, coding) =>
      if |s| >= body {
        assert (s + t)[at..at + width] == s[at..at + width];
        assert (s + t)[at..] == s[at..] + t;
        Varint.SpanStable(s[at..], t, 0);
        var span := Varint.SpanOf(s[at..], 0);
        if span.Span? {
          assert (s[at..] + t)[..span.bytes] == s[at..][..span.bytes];
        }
      }
  }

  // ---------------------------------------------------------------- packages of a stream

  function Packages(m: Mode, s: seq<Byte>): seq<seq<Byte>>
    requires SaneMode(m)
    decreases |s|
  {
    var c := CutOf(m, s);
    if c.Package? then [s[..c.length]] + Packages(m, s[c.length..]) else []
  }

  function Rest(m: Mode, s: seq<Byte>): seq<Byte>
    requires SaneMode(m)
    decreases |s|
  {
    var c := CutOf(m, s);
    if c.Package? then Rest(m, s[c.length..]) else s
  }

  /** No byte is lost, added or moved: the packages and the rest are the stream. */
  lemma {:induction false} Conserved(m: Mode, s: seq<Byte>)
    requires SaneMode(m)
    ensures Join(Packages(m, s)) + Rest(m, s) == s
    decreases |s|
  {
    hide CutOf, Join;
    var c := CutOf(m, s);
    if c.Package? {
      var x, y := s[..c.length], s[c.length..];
      Conserved(m, y);
      JoinFirst(x, Packages(m, y));
      Grouped(x, Join(Packages(m, y)), Rest(m, y));
    } else {
      JoinNone<Byte>();
    }
  }

  lemma Grouped<T>(a: seq<T>, b: seq<T>, c: seq<T>)
    ensures a + b + c == a + (b + c)
  {
  }

  lemma JoinNone<T>()
    ensures Join<T>([]) == []
  {
  }

  lemma JoinFirst<T>(x: seq<T>, ps: seq<seq<T>>)
    ensures Join([x] + ps) == x + Join(ps)
  {
    assert ([x] + ps)[1..] == ps;
  }

  /** The rest holds no package. */
  lemma {:induction false} RestUncut(m: Mode, s: seq<Byte>)
    requires SaneMode(m)
    ensures !CutOf(m, Rest(m, s)).Package?
    decreases |s|
  {
    hide CutOf;
    var c := CutOf(m, s);
    if c.Package? {
      RestUncut(m, s[c.length..]);
    }
  }

  /** Cutting the stream anywhere, and continuing with what was left over, gives the same packages. */
  lemma {:induction false} PackagesMore(m: Mode, s: seq<Byte>, t: seq<Byte>)
    requires SaneMode(m)
    ensures Packages(m, s + t) == Packages(m, s) + Packages(m, Rest(m, s) + t)
    ensures Rest(m, s + t) == Rest(m, Rest(m, s) + t)
    decreases |s|
  {
    hide CutOf, SaneMode;
    var c := CutOf(m, s);
    if c.Package? {
      CutStable(m, s, t);
      var n := c.length;
      assert (s + t)[..n] == s[..n] && (s + t)[n..] == s[n..] + t;
      PackagesMore(m, s[n..], t);
    }
  }

  /** One package further into a buffer. */
  lemma PackagesFrom(m: Mode, s: seq<Byte>, p: nat)
    requires SaneMode(m) && p <= |s| && CutOf(m, s[p..]).Package?
    ensures var n := CutOf(m, s[p..]).length;
            && p + n <= |s| && Packages(m, s[p..]) == [s[p..p + n]] + Packages(m, s[p + n..])
            && Rest(m, s[p..]) == Rest(m, s[p + n..])
  {
    hide CutOf;
    var n := CutOf(m, s[p..]).length;
    assert s[p..][..n] == s[p..p + n] && s[p..][n..] == s[p + n..];
  }
}
