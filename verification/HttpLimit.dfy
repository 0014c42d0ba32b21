/** The limit on the size of a header, `max_header_size` of http_parser.c: `COUNT_HEADER_SIZE` counts every
    byte that belongs to no body, and the parser gives up when the count of one header exceeds it. */
module HttpLimit {
  import opened HttpChars
  import opened HttpStep
  import opened HttpTrace
  import opened Folding

  /** The next byte passes `COUNT_HEADER_SIZE(1)`. */
  predicate RoomFor(s: Core, max: nat) {
    s.phase.Payload? || s.frame.nread < max
  }

  /** The parser has stopped behind `x`, or the next byte passes the limit. */
  ghost predicate RoomAfter(s: State, x: string, max: nat) {
    var t := Run(s, x).core;
    Running(t) ==> RoomFor(t, max)
  }

  /** No byte of `x` makes a header larger than the limit. */
  ghost predicate Within(s: State, x: string, max: nat) {
    forall n :: 0 <= n < |x| ==> RoomAfter(s, x[..n], max)
  }

  lemma WithinConcat(s: State, x: string, y: string, max: nat)
    ensures Within(s, x + y, max) <==> Within(s, x, max) && Within(Run(s, x), y, max)
  {
    hide RoomAfter, Step;
    forall n | 0 <= n < |x|
      ensures RoomAfter(s, (x + y)[..n], max) == RoomAfter(s, x[..n], max)
    {
      assert (x + y)[..n] == x[..n];
    }
    forall n | 0 <= n < |y|
      ensures RoomAfter(Run(s, x), y[..n], max) == RoomAfter(s, (x + y)[..|x| + n], max)
    {
      assert (x + y)[..|x| + n] == x + y[..n];
      RunConcat(s, x, y[..n]);
      SameState(s, x + y[..n], Run(s, x), y[..n], max);
    }
    if Within(s, x, max) && Within(Run(s, x), y, max) {
      forall n | 0 <= n < |x + y|
        ensures RoomAfter(s, (x + y)[..n], max)
      {
        if n >= |x| {
          assert RoomAfter(Run(s, x), y[..n - |x|], max);
          assert n == |x| + (n - |x|);
        }
      }
    }
  }

  lemma SameState(s: State, x: string, t: State, y: string, max: nat)
    requires Run(s, x) == Run(t, y)
    ensures RoomAfter(s, x, max) == RoomAfter(t, y, max)
  {
  }

  // ---------------------------------------------------------------- how the count grows

  /** No state function adds to the count. */
  predicate NoMore(s: Core, o: Out) {
    o.core.frame.nread <= s.frame.nread
  }

  lemma StartCount(s: Core, at: BeginAt, c: char)
    ensures NoMore(s, OnStart(s, at, c))
  {
    hide FirstGuess, IsAlpha;
  }

  lemma DoneCount(s: Core, c: char)
    ensures NoMore(s, OnHeadersAlmostDone(s, c))
  {
    hide NeedsEof, KeepsAlive, NewMessage;
  }

  lemma FieldStartCount(s: Core, c: char)
    ensures NoMore(s, OnFieldStart(s, c))
  {
    hide OnHeadersAlmostDone, Token;
    DoneCount(s.(phase := Heading(HeadersAlmostDone)), c);
  }

  lemma ValueStartCount(s: Core, c: char)
    ensures NoMore(s, OnValueStart(s, c))
  {
    hide Lower;
  }

  lemma HeaderCount(s: Core, at: HeadingAt, c: char)
    ensures NoMore(s, OnHeader(s, at, c))
  {
    hide OnHeadersAlmostDone, OnFieldStart, OnValueStart, ValueChar, NameChar, Token, IsHeaderChar, SetFlags;
    FieldStartCount(s, c);
    FieldStartCount(NextHeader(s), c);
    DoneCount(s, c);
    ValueStartCount(s, c);
    var h := if s.name.header == ContentLengthNum then ContentLengthWs else s.name.header;
    ValueStartCount(Named(s.(phase := Heading(ValueStart)), h), c);
  }

  lemma UrlCount(s: Core, at: UrlAt, c: char)
    ensures NoMore(s, OnUrl(s, at, c))
  {
    hide UrlChar;
  }

  lemma ByteCount(s: Core, c: char)
    ensures NoMore(s, OnByte(s, c))
  {
    hide OnHeader, OnStart, OnUrl, NewMessage, Unhex, NextGuess, Name;
    match s.phase
    case Begin(at) => StartCount(s, at, c);
    case Heading(at) => HeaderCount(s, at, c);
    case Target(at) => UrlCount(s, at, c);
    case _ =>
  }

  /** One byte adds at most 1, and a byte of a body adds nothing. */
  lemma StepCount(s: State, c: char)
    ensures Step(s, c).core.frame.nread <= s.core.frame.nread + if s.core.phase.Payload? then 0 else 1
  {
    hide OnByte, Apply;
    ByteCount(Counted(s.core), c);
  }

  lemma {:induction false} CountGrows(s: State, x: string)
    ensures Run(s, x).core.frame.nread <= s.core.frame.nread + |x|
  {
    hide Step;
    if x != "" {
      CountGrows(s, x[..|x| - 1]);
      StepCount(Run(s, x[..|x| - 1]), x[|x| - 1]);
    }
  }

  /** As many bytes as there is room for. */
  lemma ShortWithin(s: State, x: string, max: nat)
    requires s.core.frame.nread + |x| <= max
    ensures Within(s, x, max)
  {
    forall n | 0 <= n < |x|
      ensures RoomAfter(s, x[..n], max)
    {
      CountGrows(s, x[..n]);
    }
  }

  /** Bytes that were all counted, and too many. */
  lemma LongBreaks(s: State, x: string, max: nat)
    requires Running(Run(s, x).core) && Run(s, x).core.frame.nread == s.core.frame.nread + |x| > max && x != ""
    ensures !Within(s, x, max)
  {
    hide Step;
    var y, c := x[..|x| - 1], x[|x| - 1];
    assert x == y + [c];
    RunLast(s, y, c);
    StepCount(Run(s, y), c);
    CountGrows(s, y);
    if !Running(Run(s, y).core) {
      Stopped(Run(s, y), [c]);
      RunOne(Run(s, y), c);
    }
    assert !RoomAfter(s, x[..|y|], max);
  }
}
