/** Message bodies through the HTTP parser: Content-Length bodies and chunked transfer coding
    (RFC 7230, section 4.1), as HttpResponseWriter.h prints them. */
module HttpBody {
  import opened HttpChars
  import opened HttpStep
  import opened HttpTrace
  import opened HttpInvariant
  import opened HttpNumbers
  import opened Folding

  const CRLF := "\r\n"

  /** The body bytes the callbacks of a trace have delivered. */
  function BodyOf(events: seq<Event>): string {
    if events == [] then ""
    else
      var e := events[|events| - 1];
      BodyOf(events[..|events| - 1]) + (if e.Data? && e.part == Body then e.text else "")
  }

  lemma BodyOfMore(events: seq<Event>, e: Event)
    ensures BodyOf(events + [e]) == BodyOf(events) + (if e.Data? && e.part == Body then e.text else "")
  {
    assert (events + [e])[..|events|] == events;
  }

  // ---------------------------------------------------------------- Content-Length bodies

  lemma BodyStep(s: State, c: char)
    requires Running(s.core) && s.core.phase == Payload(BodyIdentity) && s.core.frame.length > 1
    ensures Step(s, c) == State(Sized(s.core, s.core.frame.length - 1), Emit(s.events, Body, [c]))
  {
    hide Emit;
    ApplySingle(s.events, Take(Body), c);
  }

  lemma LastBodyStep(s: State, c: char)
    requires Running(s.core) && s.core.phase == Payload(BodyIdentity) && s.core.frame.length == 1
    ensures Step(s, c) == State(OnMessageDone(Sized(s.core.(phase := Payload(MessageDone)), 0)).core,
                                Emit(s.events, Body, [c]) + [MessageComplete])
  {
    hide Emit, NewMessage;
    var acts := [Take(Body), Flush(Body), Notify(MessageComplete)];
    assert [Take(Body), Flush(Body)] + [Notify(MessageComplete)] == acts;
    ThreeActs(s.events, Take(Body), Flush(Body), Notify(MessageComplete), c);
  }

  lemma ThreeActs(events: seq<Event>, a: Act, b: Act, d: Act, c: char)
    ensures Apply(events, [a, b, d], c) == ApplyOne(ApplyOne(ApplyOne(events, a, c), b, c), d, c)
  {
    assert [a, b, d][..2] == [a, b] && [a, b][..1] == [a];
    ApplySingle(events, a, c);
  }

  lemma TwoActs(events: seq<Event>, a: Act, b: Act, c: char)
    ensures Apply(events, [a, b], c) == ApplyOne(ApplyOne(events, a, c), b, c)
  {
    assert [a, b][..1] == [a];
    ApplySingle(events, a, c);
  }

  /** A part of the body. */
  lemma {:induction false} BodyPart(s: State, x: string)
    requires Running(s.core) && s.core.phase == Payload(BodyIdentity) && |x| < s.core.frame.length
    ensures Run(s, x) == State(Sized(s.core, s.core.frame.length - |x|), if x == "" then s.events
        else Emit(s.events, Body, x))
  {
    hide Emit, Step;
    if x != "" {
      var r, c := x[..|x| - 1], x[|x| - 1];
      assert x == r + [c];
      BodyPart(s, r);
      RunLast(s, r, c);
      BodyStep(Run(s, r), c);
      EmitTwice(s.events, Body, r, [c]);
    }
  }

  /** A body of the announced length: it is delivered, the message is complete, and the parser is
      ready for the next one. */
  lemma BodyRun(s: State, x: string)
    requires Running(s.core) && s.core.phase == Payload(BodyIdentity) && |x| == s.core.frame.length > 0
    ensures Run(s, x) == State(OnMessageDone(Sized(s.core.(phase := Payload(MessageDone)), 0)).core,
                               Emit(s.events, Body, x) + [MessageComplete])
  {
    hide Emit, Step, OnMessageDone;
    var r, c := x[..|x| - 1], x[|x| - 1];
    assert x == r + [c];
    BodyPart(s, r);
    RunLast(s, r, c);
    LastBodyStep(Run(s, r), c);
    if r == "" {
      assert x == [c];
    }
    EmitTwice(s.events, Body, r, [c]);
  }

  // ---------------------------------------------------------------- chunked bodies

  function Chunk(data: string): string {
    ToHex(|data|) + CRLF + data + CRLF
  }

  const LAST_CHUNK := "0\r\n\r\n"

  /** At the start of a chunk. */
  predicate AtChunk(s: State) {
    && Running(s.core) && s.core.phase == Chunking(ChunkSizeStart)
    && s.core.frame.nread == 0 && !s.core.frame.flags.trailing
  }

  lemma FirstDigit(s: State, c: char)
    requires AtChunk(s) && Unhex(c) != -1
    ensures Step(s, c) == State(Lengthened(s.core.(phase := Chunking(ChunkSize)), Unhex(c), 1), s.events)
  {
    hide Unhex;
    ApplySingle(s.events, Take(Body), c);
  }

  /** The size of a chunk. */
  lemma SizeRead(s: State, n: nat)
    requires AtChunk(s) && n / 16 <= CHUNK_LIMIT
    ensures Run(s, ToHex(n)) == State(Lengthened(s.core.(phase := Chunking(ChunkSize)), n, |ToHex(n)|), s.events)
  {
    hide Step, ToHex, Unhex;
    var d := ToHex(n);
    var t := Step(s, d[0]);
    FirstDigit(s, d[0]);
    assert d == [d[0]] + d[1..];
    RunFirst(s, d[0], d[1..]);
    HexRoundTrip(n);
    HexTail(d);
    SizeRun(t, d[1..]);
  }

  /** The line end after the size. */
  lemma SizeEnd(s: State)
    requires Running(s.core) && s.core.phase == Chunking(ChunkSize)
    ensures var c := s.core.(frame := s.core.frame.(nread := 0));
            Run(s, CRLF) == State(
              if s.core.frame.length > 0 then c.(phase := Payload(ChunkData))
              else Flagged(c.(phase := Heading(HeaderFieldStart)), c.frame.flags.(trailing := true)),
              s.events + [ChunkHeader(s.core.frame.length)])
  {
    hide Emit, Unhex, OnHeader, OnStart, OnStatusLine, OnMethod, OnUrl, OnVersion, OnBody;
    var t := Step(s, CR);
    assert CRLF == [CR] + [LF];
    RunFirst(s, CR, [LF]);
    RunOne(t, LF);
    ApplySingle(s.events, Notify(ChunkHeader(s.core.frame.length)), LF);
  }

  // ---------------------------------------------------------------- what passes for a chunk size

  /** A hexadecimal digit of section 4.1 of RFC 7230. */
  predicate IsHex(c: char) {
    IsNum(c) || 'a' <= c <= 'f' || 'A' <= c <= 'F'
  }

  lemma HexOrHigh(c: char)
    ensures Unhex(c) != -1 <==> IsHex(c) || c >= '\U{80}'
  {
  }

  /** A word whose size the parser takes: every character passes for a digit, and the number without its last
      digit is within the limit. */
  predicate Measured(q: string) {
    q != "" && HexDigits(q) && Hex(0, q[..|q| - 1]) <= CHUNK_LIMIT
  }

  predicate NoBreak(q: string) {
    CR !in q && ';' !in q && ' ' !in q
  }

  lemma FirstOther(s: State, c: char)
    requires AtChunk(s) && Unhex(c) == -1
    ensures Step(s, c).core.errno != OK
  {
    hide Unhex;
  }

  lemma NextOther(s: State, c: char)
    requires Running(s.core) && s.core.phase == Chunking(ChunkSize)
    requires Unhex(c) == -1 && c != CR && c != ';' && c != ' '
    ensures Step(s, c).core.errno != OK
  {
    hide Unhex;
  }

  lemma {:induction false} SizeWord(s: State, q: string)
    requires AtChunk(s) && q != "" && NoBreak(q)
    ensures var t := Run(s, q);
            if Measured(q) then t == State(Lengthened(s.core.(phase := Chunking(ChunkSize)), Hex(0, q), |q|), s.events)
            else t.core.errno != OK
  {
    hide Step, Unhex;
    var r, c := q[..|q| - 1], q[|q| - 1];
    assert q == r + [c];
    RunLast(s, r, c);
    if r == "" {
      if Unhex(c) == -1 {
        FirstOther(s, c);
      } else {
        FirstDigit(s, c);
      }
    } else {
      SizeWord(s, r);
      var t := Run(s, r);
      if !Measured(r) {
        StoppedAt(t, c);
        if HexDigits(r) {
          HexGrows(0, r, |r| - 1);
        } else {
          var i :| 0 <= i < |r| && Unhex(r[i]) == -1;
          assert q[i] == r[i];
        }
      } else if Unhex(c) == -1 {
        NextOther(t, c);
      } else {
        SizeStep(t, c);
      }
    }
  }

  /** A word up to the line end is accepted as a chunk size if and only if every character is a hexadecimal digit
      or a byte from 0x80 up, and the number is within the limit; then the size is that number. */
  lemma SizeAccepted(s: State, q: string)
    requires AtChunk(s) && q != "" && NoBreak(q)
    ensures var t := Run(s, q + [CR]);
            && (t.core.errno == OK <==> Measured(q))
            && (Measured(q) ==> t.core.phase == Chunking(ChunkSizeAlmostDone) && t.core.frame.length == Hex(0, q)
                                && t.events == s.events)
    ensures HexDigits(q) <==> forall i :: 0 <= i < |q| ==> IsHex(q[i]) || q[i] >= '\U{80}'
  {
    hide Unhex, Hex;
    SizeWord(s, q);
    RunLast(s, q, CR);
    if Measured(q) {
      SizeCr(Run(s, q));
    } else {
      StoppedAt(Run(s, q), CR);
    }
    forall i | 0 <= i < |q|
      ensures Unhex(q[i]) != -1 <==> IsHex(q[i]) || q[i] >= '\U{80}'
    {
      HexOrHigh(q[i]);
    }
  }

  lemma SizeCr(s: State)
    requires Running(s.core) && s.core.phase == Chunking(ChunkSize)
    ensures var t := Step(s, CR);
            && t.core.errno == OK && t.core.phase == Chunking(ChunkSizeAlmostDone)
            && t.core.frame.length == s.core.frame.length && t.events == s.events
  {
    hide Unhex;
    ApplySingle(s.events, Take(Body), CR);
  }

  /** So an accepted word is a chunk size of RFC 7230 if and only if it has no byte from 0x80 up. */
  lemma SizeLawful(s: State, q: string)
    requires AtChunk(s) && q != "" && NoBreak(q) && Run(s, q + [CR]).core.errno == OK
    ensures (forall i :: 0 <= i < |q| ==> IsHex(q[i])) <==> (forall i :: 0 <= i < |q| ==> q[i] < '\U{80}')
  {
    hide Step, Run;
    SizeAccepted(s, q);
  }

  /** A digit 1 and a byte 0x80 open a chunk of 16 bytes. */
  lemma HighByteAccepted(s: State)
    requires AtChunk(s)
    ensures var t := Run(s, "1\U{80}" + CRLF);
            && t.core.errno == OK && t.core.phase == Payload(ChunkData) && t.core.frame.length == 16
            && t.events == s.events + [ChunkHeader(16)]
  {
    hide Step;
    var q := "1\U{80}";
    assert q[..1] == "1" && "1"[..0] == "";
    assert Hex(0, "1") == Hex(0, "") * 16 + 1 == 1 && Hex(0, q) == 16;
    SizeWord(s, q);
    RunConcat(s, q, CRLF);
    SizeEnd(Run(s, q));
  }

  // ---------------------------------------------------------------- chunks

  lemma DataStep(s: State, c: char)
    requires Running(s.core) && s.core.phase == Payload(ChunkData) && s.core.frame.length > 0
    ensures var n := s.core.frame.length - 1;
            Step(s, c) == State(Sized(s.core, n).(phase := Payload(if n == 0 then ChunkDataAlmostDone else ChunkData)),
                                Emit(s.events, Body, [c]))
  {
    hide Emit;
    ApplySingle(s.events, Take(Body), c);
  }

  lemma {:induction false} DataRun(s: State, x: string)
    requires Running(s.core) && s.core.phase == Payload(ChunkData) && 0 < |x| <= s.core.frame.length
    ensures var n := s.core.frame.length - |x|;
            Run(s, x) == State(Sized(s.core, n).(phase := Payload(if n == 0 then ChunkDataAlmostDone else ChunkData)),
                               Emit(s.events, Body, x))
  {
    hide Emit, Step;
    var r, c := x[..|x| - 1], x[|x| - 1];
    assert x == r + [c];
    RunLast(s, r, c);
    if r == "" {
      assert x == [c];
      DataStep(s, c);
    } else {
      DataRun(s, r);
      DataStep(Run(s, r), c);
      EmitTwice(s.events, Body, r, [c]);
    }
  }

  /** The line end after the data. */
  lemma DataEnd(s: State)
    requires Running(s.core) && s.core.phase == Payload(ChunkDataAlmostDone)
    ensures Run(s, CRLF) == State(s.core.(phase := Chunking(ChunkSizeStart), frame := s.core.frame.(nread := 0)),
                                  s.events + [ChunkComplete])
  {
    hide Emit;
    var t := Step(s, CR);
    assert CRLF == [CR] + [LF];
    RunFirst(s, CR, [LF]);
    RunOne(t, LF);
    ApplySingle(s.events, Flush(Body), CR);
    ApplySingle(s.events, Notify(ChunkComplete), LF);
  }

  /** The callbacks of one chunk. */
  function ChunkEvents(data: string): seq<Event> {
    [ChunkHeader(|data|), Data(Body, data), ChunkComplete]
  }

  lemma EmitAfter(events: seq<Event>, e: Event, part: Part, x: string)
    requires !e.Data?
    ensures Emit(events + [e], part, x) == events + [e, Data(part, x)]
  {
    assert events + [e] + [Data(part, x)] == events + [e, Data(part, x)];
  }

  /** One chunk is read back: its size, its data, and the parser is at the start of the next chunk. */
  lemma ChunkRead(s: State, data: string)
    requires AtChunk(s) && data != "" && |data| / 16 <= CHUNK_LIMIT
    ensures var t := Run(s, Chunk(data));
            t == State(Sized(s.core, 0), s.events + ChunkEvents(data)) && AtChunk(t)
  {
    hide Step, ToHex, Emit;
    var x, y := ToHex(|data|), CRLF + data + CRLF;
    assert Chunk(data) == x + (CRLF + (data + CRLF));
    RunConcat(s, x, CRLF + (data + CRLF));
    SizeRead(s, |data|);
    var t1 := Run(s, x);
    RunConcat(t1, CRLF, data + CRLF);
    SizeEnd(t1);
    var t2 := Run(t1, CRLF);
    RunConcat(t2, data, CRLF);
    DataRun(t2, data);
    EmitAfter(s.events, ChunkHeader(|data|), Body, data);
    DataEnd(Run(t2, data));
    assert s.events + [ChunkHeader(|data|), Data(Body, data)] + [ChunkComplete] == s.events + ChunkEvents(data);
  }

  /** The state after the last chunk. */
  function ChunksDone(s: Core): Core {
    OnMessageDone(s.(phase := Payload(MessageDone),
                     frame := Framing(s.frame.flags.(trailing := true), 0, 2))).core
  }

  lemma HeadersEndCr(s: State)
    requires Running(s.core) && s.core.phase == Heading(HeaderFieldStart)
    ensures Step(s, CR) == State(Counted(s.core).(phase := Heading(HeadersAlmostDone)), s.events)
  {
    hide OnHeadersAlmostDone, Token;
    ApplySingle(s.events, Notify(ChunkComplete), CR);
  }

  lemma TrailerEnd(s: State)
    requires Running(s.core) && s.core.phase == Heading(HeadersAlmostDone) && s.core.frame.flags.trailing
    ensures Step(s, LF) == State(OnMessageDone(Counted(s.core).(phase := Payload(MessageDone))).core,
                                 s.events + [ChunkComplete, MessageComplete])
  {
    hide NewMessage, OnHeadersDone, Decided;
    assert [Notify(ChunkComplete)] + [Notify(MessageComplete)] == [Notify(ChunkComplete), Notify(MessageComplete)];
    TwoActs(s.events, Notify(ChunkComplete), Notify(MessageComplete), LF);
    assert s.events + [ChunkComplete] + [MessageComplete] == s.events + [ChunkComplete, MessageComplete];
  }

  lemma NoMoreHeaders(s: State)
    requires Running(s.core) && s.core.phase == Heading(HeaderFieldStart) && s.core.frame.flags.trailing
    ensures Run(s, CRLF) == State(
      OnMessageDone(s.core.(phase := Payload(MessageDone),
        frame := s.core.frame.(nread := s.core.frame.nread + 2))).core,
      s.events + [ChunkComplete, MessageComplete])
  {
    hide Step, OnMessageDone;
    assert CRLF == [CR] + [LF];
    RunFirst(s, CR, [LF]);
    RunOne(Step(s, CR), LF);
    HeadersEndCr(s);
    TrailerEnd(Step(s, CR));
  }

  lemma LastChunkRead(s: State)
    requires AtChunk(s)
    ensures Run(s, LAST_CHUNK) == State(ChunksDone(s.core), s.events + [ChunkHeader(0), ChunkComplete, MessageComplete])
  {
    hide Step, OnMessageDone;
    assert ToHex(0) == "0";
    assert LAST_CHUNK == "0" + (CRLF + CRLF);
    RunConcat(s, "0", CRLF + CRLF);
    SizeRead(s, 0);
    var t1 := Run(s, "0");
    RunConcat(t1, CRLF, CRLF);
    SizeEnd(t1);
    NoMoreHeaders(Run(t1, CRLF));
    assert s.events + [ChunkHeader(0)] + [ChunkComplete, MessageComplete]
        == s.events + [ChunkHeader(0), ChunkComplete, MessageComplete];
  }

  function Chunks(parts: seq<string>): string {
    if parts == [] then "" else Chunk(parts[0]) + Chunks(parts[1..])
  }

  function ChunksEvents(parts: seq<string>): seq<Event> {
    if parts == [] then [] else ChunkEvents(parts[0]) + ChunksEvents(parts[1..])
  }

  predicate Sendable(parts: seq<string>) {
    forall i :: 0 <= i < |parts| ==> parts[i] != "" && |parts[i]| / 16 <= CHUNK_LIMIT
  }

  /** A body cut into any chunks: every chunk is reported with its own bytes, then the message is
      complete, once. */
  lemma {:induction false} ChunkedRead(s: State, parts: seq<string>)
    requires AtChunk(s) && Sendable(parts)
    ensures Run(s, Chunks(parts) + LAST_CHUNK)
         == State(ChunksDone(s.core), s.events + ChunksEvents(parts) + [ChunkHeader(0), ChunkComplete, MessageComplete])
    decreases |parts|
  {
    hide Step, OnMessageDone, Chunk;
    if parts == [] {
      assert Chunks(parts) + LAST_CHUNK == LAST_CHUNK;
      LastChunkRead(s);
      assert s.events + ChunksEvents(parts) == s.events;
    } else {
      var x := Chunk(parts[0]);
      assert Chunks(parts) + LAST_CHUNK == x + (Chunks(parts[1..]) + LAST_CHUNK);
      RunConcat(s, x, Chunks(parts[1..]) + LAST_CHUNK);
      ChunkRead(s, parts[0]);
      ChunkedRead(Run(s, x), parts[1..]);
      Assoc(s.events, ChunkEvents(parts[0]), ChunksEvents(parts[1..]));
    }
  }

  /** The message is not complete before its last byte. */
  lemma {:induction false} ChunkedUnread(s: State, parts: seq<string>)
    requires AtChunk(s) && Sendable(parts)
    ensures Running(Run(s, Chunks(parts) + "0\r\n\r").core)
    decreases |parts|
  {
    hide Step, Chunk;
    var last := "0\r\n\r";
    if parts == [] {
      assert Chunks(parts) + last == "0" + (CRLF + [CR]) && ToHex(0) == "0";
      RunConcat(s, "0", CRLF + [CR]);
      SizeRead(s, 0);
      RunConcat(Run(s, "0"), CRLF, [CR]);
      SizeEnd(Run(s, "0"));
      var t := Run(Run(s, "0"), CRLF);
      RunOne(t, CR);
      HeadersEndCr(t);
    } else {
      var x := Chunk(parts[0]);
      assert Chunks(parts) + last == x + (Chunks(parts[1..]) + last);
      RunConcat(s, x, Chunks(parts[1..]) + last);
      ChunkRead(s, parts[0]);
      ChunkedUnread(Run(s, x), parts[1..]);
    }
  }

  lemma {:induction false} BodyOfConcat(a: seq<Event>, b: seq<Event>)
    ensures BodyOf(a + b) == BodyOf(a) + BodyOf(b)
  {
    if b == [] {
      assert a + b == a;
    } else {
      var c, e := b[..|b| - 1], b[|b| - 1];
      BodyOfConcat(a, c);
      assert b == c + [e];
      Assoc(a, c, [e]);
      hide BodyOf;
      BodyOfMore(c, e);
      BodyOfMore(a + c, e);
      Assoc(BodyOf(a), BodyOf(c), if e.Data? && e.part == Body then e.text else "");
    }
  }

  /** The bytes delivered are the body, however it was cut. */
  lemma {:induction false} ChunkedBody(parts: seq<string>)
    ensures BodyOf(ChunksEvents(parts)) == Join(parts)
    decreases |parts|
  {
    if parts != [] {
      ChunkedBody(parts[1..]);
      BodyOfConcat(ChunkEvents(parts[0]), ChunksEvents(parts[1..]));
      ChunkBody(parts[0]);
    }
  }

  lemma ChunkBody(data: string)
    ensures BodyOf(ChunkEvents(data)) == data
  {
    hide BodyOf;
    var a, b, c := ChunkHeader(|data|), Data(Body, data), ChunkComplete;
    BodyOfNone();
    BodyOfMore([], a);
    BodyOfMore([a], b);
    BodyOfMore([a, b], c);
    assert [] + [a] == [a] && [a] + [b] == [a, b] && [a, b] + [c] == ChunkEvents(data);
    assert "" + data + "" == data;
  }

  lemma BodyOfNone()
    ensures BodyOf([]) == ""
  {
  }
}
