/** Content-Length and chunk-size digits: accepted digits give the exact value, without wrapping. */
module HttpNumbers {
  import opened HttpChars
  import opened HttpStep
  import opened HttpTrace
  import opened HttpInvariant
  import opened HttpWords
  import opened Folding

  predicate Digits(d: string) {
    forall i :: 0 <= i < |d| ==> IsNum(d[i])
  }

  predicate HexDigits(d: string) {
    forall i :: 0 <= i < |d| ==> Unhex(d[i]) != -1
  }

  /** The number one gets by writing the decimal digits `d` behind `v`. */
  function Decimal(v: nat, d: string): nat
    requires Digits(d)
  {
    if d == "" then v else Decimal(v, d[..|d| - 1]) * 10 + Digit(d[|d| - 1])
  }

  function Hex(v: nat, d: string): nat
    requires HexDigits(d)
  {
    if d == "" then v else Hex(v, d[..|d| - 1]) * 16 + Unhex(d[|d| - 1])
  }

  lemma {:induction false} DecimalGrows(v: nat, d: string, k: nat)
    requires Digits(d) && k <= |d|
    ensures Decimal(v, d[..k]) <= Decimal(v, d)
  {
    if k < |d| {
      DecimalGrows(v, d[..|d| - 1], k);
      assert d[..|d| - 1][..k] == d[..k];
    } else {
      assert d[..k] == d;
    }
  }

  lemma {:induction false} HexGrows(v: nat, d: string, k: nat)
    requires HexDigits(d) && k <= |d|
    ensures Hex(v, d[..k]) <= Hex(v, d)
  {
    if k < |d| {
      HexGrows(v, d[..|d| - 1], k);
      assert d[..|d| - 1][..k] == d[..k];
    } else {
      assert d[..k] == d;
    }
  }

  // ---------------------------------------------------------------- Content-Length

  /** One byte of a value that is taken over as text. */
  lemma ValueStep(s: State, c: char)
    requires Running(s.core) && s.core.phase == Heading(HeaderValue) && c != CR && c != LF
    requires s.core.conf.lenient || IsHeaderChar(c)
    ensures var v := ValueChar(Counted(s.core), c);
            if v.errno == OK then
              Step(s, c) == State(Counted(s.core).(name := Matcher(v.header, v.index),
                                    frame := Framing(v.flags, v.length, s.core.frame.nread + 1)),
                                      Emit(s.events, Value, [c]))
            else Step(s, c).core.errno == v.errno
  {
    hide ValueChar, Emit, IsHeaderChar;
    ApplySingle(s.events, Take(Value), c);
  }

  function Lengthened(s: Core, length: nat, n: nat): Core {
    s.(frame := s.frame.(length := length, nread := s.frame.nread + n))
  }

  lemma LengthStep(s: State, c: char)
    requires Running(s.core) && s.core.phase == Heading(HeaderValue) && s.core.name.header == ContentLengthNum
        && IsNum(c)
    ensures if s.core.frame.length <= LENGTH_LIMIT then
              Step(s, c) == State(Lengthened(s.core, s.core.frame.length * 10 + Digit(c), 1),
                Emit(s.events, Value, [c]))
            else Step(s, c).core.errno == INVALID_CONTENT_LENGTH
  {
    hide Emit, Step;
    ValueStep(s, c);
  }

  /** Digits after the first: if the number without its last digit is within the limit, the length is
      the exact number; otherwise the message is refused. */
  lemma {:induction false} LengthRun(s: State, d: string)
    requires Running(s.core) && s.core.phase == Heading(HeaderValue) && s.core.name.header == ContentLengthNum
        && Digits(d)
    ensures if d == "" || Decimal(s.core.frame.length, d[..|d| - 1]) <= LENGTH_LIMIT then
              Run(s, d) == State(Lengthened(s.core, Decimal(s.core.frame.length, d), |d|), if d == "" then s.events
                else Emit(s.events, Value, d))
            else Run(s, d).core.errno == INVALID_CONTENT_LENGTH
  {
    hide Emit, Step;
    if d != "" {
      var n := |d| - 1;
      var r, c := d[..n], d[n];
      assert d == r + [c];
      LengthRun(s, r);
      RunLast(s, r, c);
      if r != "" && Decimal(s.core.frame.length, r[..n - 1]) > LENGTH_LIMIT {
        StoppedAt(Run(s, r), c);
        DecimalGrows(s.core.frame.length, r, n - 1);
      } else {
        LengthStep(Run(s, r), c);
        EmitTwice(s.events, Value, r, [c]);
      }
    }
  }

  lemma StoppedAt(s: State, c: char)
    requires s.core.errno != OK
    ensures Step(s, c) == s
  {
  }

  /** The first digit may be taken as the number to start from. */
  lemma {:induction false} DecimalTail(d: string)
    requires Digits(d) && d != ""
    ensures Decimal(Digit(d[0]), d[1..]) == Decimal(0, d)
    ensures d[1..] != "" ==> Decimal(Digit(d[0]), d[1..][..|d[1..]| - 1]) == Decimal(0, d[..|d| - 1])
  {
    if |d| > 1 {
      DecimalTail(d[..|d| - 1]);
      assert d[1..][..|d| - 2] == d[..|d| - 1][1..];
    } else {
      assert d[1..] == "" && d[..0] == "";
    }
  }

  // ---------------------------------------------------------------- chunk sizes

  lemma SizeStep(s: State, c: char)
    requires Running(s.core) && s.core.phase == Chunking(ChunkSize) && Unhex(c) != -1 && c != CR
    ensures if s.core.frame.length <= CHUNK_LIMIT then
              Step(s, c) == State(Lengthened(s.core, s.core.frame.length * 16 + Unhex(c), 1), s.events)
            else Step(s, c).core.errno == INVALID_CONTENT_LENGTH
  {
    hide Unhex;
    ApplySingle(s.events, Take(Body), c);
  }

  lemma {:induction false} SizeRun(s: State, d: string)
    requires Running(s.core) && s.core.phase == Chunking(ChunkSize) && HexDigits(d)
    ensures if d == "" || Hex(s.core.frame.length, d[..|d| - 1]) <= CHUNK_LIMIT then
              Run(s, d) == State(Lengthened(s.core, Hex(s.core.frame.length, d), |d|), s.events)
            else Run(s, d).core.errno == INVALID_CONTENT_LENGTH
  {
    hide Step;
    if d != "" {
      var n := |d| - 1;
      var r, c := d[..n], d[n];
      assert d == r + [c];
      SizeRun(s, r);
      RunLast(s, r, c);
      if r != "" && Hex(s.core.frame.length, r[..n - 1]) > CHUNK_LIMIT {
        StoppedAt(Run(s, r), c);
        HexGrows(s.core.frame.length, r, n - 1);
      } else {
        SizeStep(Run(s, r), c);
      }
    }
  }

  /** The first digit may be taken as the number to start from. */
  lemma {:induction false} HexTail(d: string)
    requires HexDigits(d) && d != ""
    ensures Hex(Unhex(d[0]), d[1..]) == Hex(0, d)
    ensures d[1..] != "" ==> Hex(Unhex(d[0]), d[1..][..|d[1..]| - 1]) == Hex(0, d[..|d| - 1])
  {
    if |d| > 1 {
      HexTail(d[..|d| - 1]);
      assert d[1..][..|d| - 2] == d[..|d| - 1][1..];
    } else {
      assert d[1..] == "" && d[..0] == "";
    }
  }

  // ---------------------------------------------------------------- printing

  /** A number in decimal, as it is printed. */
  function ToDecimal(n: nat): (d: string)
    ensures Digits(d) && d != ""
  {
    var last := [('0' as int + n % 10) as char];
    if n < 10 then last else ToDecimal(n / 10) + last
  }

  /** `%x`. */
  function ToHex(n: nat): (d: string)
    ensures HexDigits(d) && d != ""
  {
    var last := [HexChar(n % 16)];
    if n < 16 then last else ToHex(n / 16) + last
  }

  function HexChar(v: nat): (c: char)
    requires v < 16
    ensures Unhex(c) == v && c != CR
  {
    if v < 10 then ('0' as int + v) as char else ('a' as int + (v - 10)) as char
  }

  lemma {:induction false} DecimalRoundTrip(n: nat)
    ensures Decimal(0, ToDecimal(n)) == n
    ensures Decimal(0, ToDecimal(n)[..|ToDecimal(n)| - 1]) == n / 10
  {
    var d := ToDecimal(n);
    if n >= 10 {
      DecimalRoundTrip(n / 10);
      assert d[..|d| - 1] == ToDecimal(n / 10);
    } else {
      assert d[..|d| - 1] == "";
    }
  }

  lemma {:induction false} HexRoundTrip(n: nat)
    ensures Hex(0, ToHex(n)) == n
    ensures Hex(0, ToHex(n)[..|ToHex(n)| - 1]) == n / 16
  {
    var d := ToHex(n);
    if n >= 16 {
      HexRoundTrip(n / 16);
      assert d[..|d| - 1] == ToHex(n / 16);
    } else {
      assert d[..|d| - 1] == "";
    }
  }
}
