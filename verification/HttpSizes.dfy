/** Which printed requests keep to the limit on the header size, and what a parser with that limit makes of
    a connection that carries them. */
module HttpSizes {
  import opened HttpChars
  import opened Options
  import opened HttpStep
  import opened HttpTrace
  import opened HttpNumbers
  import opened HttpBody
  import opened HttpLines
  import opened HttpMessages
  import opened HttpLimit
  import opened Folding
  import P = HttpParser

  /** The request line, the headers and the blank line. */
  function Head(r: Message): string {
    HeadText(r, CRLF)
  }

  /** What the parser counts for a request. Behind a chunked body, the two bytes that end the message are
      still in the count when the next request begins. */
  predicate Small(r: Message, max: nat) {
    |Head(r)| + 2 <= max
  }

  lemma PrintSplit(r: Message)
    ensures Print(r) == Head(r) + ContentText(r.content) && |Head(r)| >= 17
  {
    hide Name, LinesText, FramingText, ContentText;
    var body := ContentText(r.content);
    Assoc(LinesText(r.more), CRLF, body);
    Assoc(FramingText(r.content), LinesText(r.more) + CRLF, body);
    Assoc(LinesText(r.lines), FramingText(r.content) + (LinesText(r.more) + CRLF), body);
    Assoc(StartText(r), LinesText(r.lines) + (FramingText(r.content) + (LinesText(r.more) + CRLF)), body);
    NameNotEmpty(r.verb);
  }

  lemma NameNotEmpty(m: Method)
    ensures |Name(m)| >= 3
  {
  }

  // ---------------------------------------------------------------- chunks

  function Power16(k: nat): nat {
    if k == 0 then 1 else 16 * Power16(k - 1)
  }

  lemma {:induction false} HexLength(n: nat, k: nat)
    requires n < Power16(k) && k >= 1
    ensures |ToHex(n)| <= k
  {
    if n >= 16 {
      HexLength(n / 16, k - 1);
    }
  }

  lemma SizeLength(n: nat)
    requires n / 16 <= CHUNK_LIMIT
    ensures |ToHex(n)| <= 16
  {
    hide ToHex;
    assert Power16(4) == 0x1_0000 && Power16(8) == 0x1_0000_0000;
    assert Power16(12) == 0x1_0000_0000_0000 && Power16(16) == 0x1_0000_0000_0000_0000;
    HexLength(n, 16);
  }

  lemma Uncounted(s: State, x: string, max: nat)
    requires |x| <= 1 && s.core.phase.Payload?
    ensures Within(s, x, max)
  {
    hide Step;
    assert x[..0] == "";
  }

  /** Bytes of a body are not counted. */
  lemma DataWithin(s: State, x: string, max: nat)
    requires Running(s.core) && |x| <= s.core.frame.length
    requires s.core.phase == Payload(ChunkData) || s.core.phase == Payload(BodyIdentity)
    ensures Within(s, x, max)
  {
    hide Step, Emit;
    forall n | 0 <= n < |x|
      ensures RoomAfter(s, x[..n], max)
    {
      if s.core.phase == Payload(BodyIdentity) {
        BodyPart(s, x[..n]);
      } else if n > 0 {
        DataRun(s, x[..n]);
      }
    }
  }

  lemma ChunkWithin(s: State, data: string, max: nat)
    requires AtChunk(s) && data != "" && |data| / 16 <= CHUNK_LIMIT && max >= 18
    ensures Within(s, Chunk(data), max)
  {
    hide Step, ToHex, Emit, Within;
    var x := ToHex(|data|);
    SizeLength(|data|);
    SizeRead(s, |data|);
    var t1 := Run(s, x);
    RunConcat(s, x, CRLF);
    SizeEnd(t1);
    var t2 := Run(t1, CRLF);
    DataRun(t2, data);
    var t3 := Run(t2, data);
    ShortWithin(s, x + CRLF, max);
    DataWithin(t2, data, max);
    EndWithin(t3, max);
    WithinConcat(s, x + CRLF, data, max);
    RunConcat(s, x + CRLF, data);
    WithinConcat(s, x + CRLF + data, CRLF, max);
  }

  /** The line end behind the data of a chunk is not counted either. */
  lemma EndWithin(s: State, max: nat)
    requires Running(s.core) && s.core.phase == Payload(ChunkDataAlmostDone)
    ensures Within(s, CRLF, max)
  {
    assert CRLF == [CR] + [LF];
    WithinConcat(s, [CR], [LF], max);
    RunOne(s, CR);
    Uncounted(s, [CR], max);
    Uncounted(Step(s, CR), [LF], max);
  }

  lemma LastWithin(s: State, max: nat)
    requires AtChunk(s) && max >= 18
    ensures Within(s, LAST_CHUNK, max)
  {
    hide Step, Within;
    assert ToHex(0) == "0";
    SizeRead(s, 0);
    var t := Run(s, "0");
    RunConcat(s, "0", CRLF);
    SizeEnd(t);
    ShortWithin(s, "0" + CRLF, max);
    ShortWithin(Run(t, CRLF), CRLF, max);
    WithinConcat(s, "0" + CRLF, CRLF, max);
    assert LAST_CHUNK == "0" + CRLF + CRLF;
  }

  lemma {:induction false} ChunksWithin(s: State, parts: seq<string>, max: nat)
    requires AtChunk(s) && Sendable(parts) && max >= 18
    ensures Within(s, Chunks(parts) + LAST_CHUNK, max)
    decreases |parts|
  {
    hide Step, Chunk, Within;
    if parts == [] {
      assert Chunks(parts) + LAST_CHUNK == LAST_CHUNK;
      LastWithin(s, max);
    } else {
      var x, rest := Chunk(parts[0]), Chunks(parts[1..]) + LAST_CHUNK;
      assert Chunks(parts) + LAST_CHUNK == x + rest;
      WithinConcat(s, x, rest, max);
      ChunkWithin(s, parts[0], max);
      ChunkRead(s, parts[0]);
      ChunksWithin(Run(s, x), parts[1..], max);
    }
  }

  // ---------------------------------------------------------------- requests

  /** A request whose head is small enough keeps to the limit, however large its body is. */
  lemma RequestWithin(s: State, r: Message, max: nat)
    requires Idle(s) && s.core.frame.nread <= 2 && Printable(r) && Small(r, max)
    ensures Within(s, Print(r), max)
  {
    hide Step, AtHeader, Idle, Allowed, Framable, HeadText, ContentText, Within, Settled, Print, FlagsOf, HeadEvents,
        EndsThere, Usual;
    PrintSplit(r);
    ShortWithin(s, Head(r), max);
    WithinConcat(s, Head(r), ContentText(r.content), max);
    var t, g := HeadRead(s, r, CRLF);
    RequestEnds(g, r);
    ContentWithin(t, g, FlagsOf(r), r.content, max);
  }

  lemma ContentWithin(s: State, g: Given, f: Flags, content: Content, max: nat)
    requires AtHeader(s, g, f, LengthFor(content)) && Usual(g) && g.reply == 0
    requires Framable(content) && Settled(f, content) && (content.Bare? ==> EndsThere(g, f, content))
    requires (g.line.verb == CONNECT ==> content.Bare?) && max >= 18
    ensures Within(Run(s, CRLF), ContentText(content), max)
  {
    hide Step, Chunks, Sendable, Within, UntilEof, Ended, Leaves, Usual;
    var t := BlankLine(s, g, f, content, "");
    match content
    case Bare => ShortWithin(t, "", max);
    case Whole(body) =>
      if body == "" {
        ShortWithin(t, "", max);
      } else {
        DataWithin(t, body, max);
      }
    case InChunks(parts) => ChunksWithin(t, parts, max);
  }

  /** Requests that can follow each other, each with a head that is small enough. */
  ghost predicate SmallRow(rs: seq<Message>, max: nat) {
    Row(rs) && forall i :: 0 <= i < |rs| ==> Small(rs[i], max)
  }

  lemma {:induction false} AllWithin(s: State, rs: seq<Message>, max: nat)
    requires Idle(s) && s.core.frame.nread <= 2 && SmallRow(rs, max)
    ensures Within(s, PrintAll(rs), max)
    decreases |rs|
  {
    hide Step, Printable, Print, EventsOf, Stays, Switches, Within, Small;
    if rs == [] {
      P.NothingWithin(s, max);
    } else {
      WithinConcat(s, Print(rs[0]), PrintAll(rs[1..]), max);
      RequestWithin(s, rs[0], max);
      RequestRead(s, rs[0]);
      if |rs| == 1 {
        P.NothingWithin(Run(s, Print(rs[0])), max);
      } else {
        AllWithin(Run(s, Print(rs[0])), rs[1..], max);
      }
    }
  }

  predicate SwitchesLast(rs: seq<Message>) {
    rs != [] && Switches(rs[|rs| - 1])
  }

  /** `http_parser_execute` on the reads of a connection that carries these requests: it accepts all of them,
      and the callbacks are those of the requests, one after another. */
  method ReadRequests(parser: P.HttpParser, pieces: seq<string>, ghost rs: seq<Message>) returns (ok: bool)
    requires parser.Valid() && Idle(parser.Contents()) && parser.core.frame.nread <= 2
    requires (forall i :: 0 <= i < |pieces| ==> pieces[i] != "") && Join(pieces) == PrintAll(rs)
    requires SmallRow(rs, parser.max) && !SwitchesLast(rs)
    modifies parser
    ensures ok && parser.Valid() && BehindAll(parser.Contents(), rs)
    ensures parser.Contents().events == old(parser.Contents().events) + EventsOfAll(rs)
  {
    hide Step, Row, EventsOfAll, Small, Within;
    AllRead(parser.Contents(), rs);
    AllWithin(parser.Contents(), rs, parser.max);
    ok := parser.ExecuteAll(pieces);
  }

  // ---------------------------------------------------------------- a change of protocol

  /** The parser leaves with the last byte of `x`, and not before. */
  ghost predicate LeavesBehind(s: State, x: string) {
    x != "" && Running(Run(s, x[..|x| - 1]).core) && Run(s, x).core.left && Run(s, x).core.errno == OK
  }

  lemma {:induction false} AllUnread(s: State, rs: seq<Message>)
    requires Idle(s) && Row(rs) && SwitchesLast(rs)
    ensures LeavesBehind(s, PrintAll(rs))
    decreases |rs|
  {
    hide Step, Run, Printable, Print, Stays, Switches;
    var x, y := Print(rs[0]), PrintAll(rs[1..]);
    if |rs| == 1 {
      assert x + y == x;
      SwitchRead(s, rs[0]);
    } else {
      RequestRead(s, rs[0]);
      AllUnread(Run(s, x), rs[1..]);
      assert (x + y)[..|x + y| - 1] == x + y[..|y| - 1];
      RunConcat(s, x, y[..|y| - 1]);
      RunConcat(s, x, y);
    }
  }

  /** What is left to read when the last buffer arrives. */
  lemma LastPiece(s: State, x: string, before: string, last: string, rest: string, max: nat) returns (y: string)
    requires LeavesBehind(s, x) && Within(s, x, max) && before + last == x + rest && |rest| < |last|
    ensures before + y == x && last == y + rest && Run(Run(s, before), y) == Run(s, x)
    ensures Running(Run(s, before).core) && Within(s, before, max) && Within(Run(s, before), y, max)
    ensures LeavesBehind(Run(s, before), y)
  {
    hide Step, Run, Within;
    var k := |before|;
    assert k == |x| + |rest| - |last| < |x|;
    assert before == (before + last)[..k] == (x + rest)[..k] == x[..k];
    y := x[k..];
    assert last == (before + last)[k..] == (x + rest)[k..] == y + rest;
    WithinConcat(s, before, y, max);
    var z := x[..|x| - 1];
    assert z == before + y[..|y| - 1] && z[..k] == before;
    RunConcat(s, before, y[..|y| - 1]);
    RunConcat(s, before, y);
    if !Running(Run(s, before).core) {
      P.StopsWithin(s, z, k);
    }
  }

  /** Where the byte machine is in that buffer. */
  lemma InLast(s: State, y: string, rest: string, n: nat, max: nat)
    requires LeavesBehind(s, y) && Within(s, y, max) && n <= |y + rest|
    ensures Within(s, y + rest, max) && Run(s, y + rest) == Run(s, y)
    ensures var t := Run(s, (y + rest)[..n]); if n < |y| then Running(t.core) else t == Run(s, y)
  {
    hide Step, Run, Within;
    RunConcat(s, y, rest);
    WithinConcat(s, y, rest, max);
    Stopped(Run(s, y), rest);
    StoppedWithin(Run(s, y), rest, max);
    var x := (y + rest)[..n];
    if n < |y| {
      var z := y[..|y| - 1];
      assert x == z[..n];
      if !Running(Run(s, x).core) {
        P.StopsWithin(s, z, n);
      }
    } else {
      assert x == y + rest[..n - |y|];
      RunConcat(s, y, rest[..n - |y|]);
      Stopped(Run(s, y), rest[..n - |y|]);
    }
  }

  lemma StoppedWithin(s: State, x: string, max: nat)
    requires !Running(s.core)
    ensures Within(s, x, max)
  {
    hide Step;
    forall n | 0 <= n < |x|
      ensures RoomAfter(s, x[..n], max)
    {
      Stopped(s, x[..n]);
    }
  }

  /** `http_parser_execute` on a stream in which it leaves: it returns behind the byte that made it leave, and the
      rest of the buffer is left to the other protocol. */
  method ReadUntilLeft(parser: P.HttpParser, pieces: seq<string>, last: string, ghost x: string, ghost rest: string)
    returns (ok: bool, n: nat, left: bool)
    requires parser.Valid() && parser.core.errno == OK
    requires LeavesBehind(parser.Contents(), x) && Within(parser.Contents(), x, parser.max)
    requires (forall i :: 0 <= i < |pieces| ==> pieces[i] != "") && Join(pieces) + last == x + rest && |rest| < |last|
    modifies parser
    ensures ok && left && n == |last| - |rest| && parser.core.errno == OK
    ensures P.Merged(parser.calls) == Run(old(parser.Contents()), x).events
  {
    hide Step, Within, LeavesBehind;
    ghost var y := LastPiece(parser.Contents(), x, Join(pieces), last, rest, parser.max);
    ok := parser.ExecuteAll(pieces);
    ghost var t := parser.Contents();
    LeavesSomewhere(t, y);
    n, left := parser.Execute(last);
    InLast(t, y, rest, n, parser.max);
    if left {
      InLast(t, y, rest, n - 1, parser.max);
    } else if n < |last| {
      InLast(t, y, rest, n + 1, parser.max);
    }
  }

  lemma LeavesSomewhere(s: State, x: string)
    requires LeavesBehind(s, x)
    ensures x != "" && Run(s, x).core.left && Run(s, x).core.errno == OK
  {
    hide Run;
  }

  /** A connection whose last request changes to another protocol. */
  method ReadSwitch(parser: P.HttpParser, pieces: seq<string>, last: string, ghost rs: seq<Message>,
                    ghost rest: string) returns (ok: bool, n: nat, left: bool)
    requires parser.Valid() && Idle(parser.Contents()) && parser.core.frame.nread <= 2
    requires SmallRow(rs, parser.max) && SwitchesLast(rs)
    requires forall i :: 0 <= i < |pieces| ==> pieces[i] != ""
    requires Join(pieces) + last == PrintAll(rs) + rest && |rest| < |last|
    modifies parser
    ensures ok && left && n == |last| - |rest| && parser.core.errno == OK
    ensures P.Merged(parser.calls) == old(parser.Contents().events) + EventsOfAll(rs)
  {
    hide Step, Row, Small, EventsOfAll, Within, SwitchesLast, PrintAll, LeavesBehind, BehindAll;
    AllUnread(parser.Contents(), rs);
    AllRead(parser.Contents(), rs);
    AllWithin(parser.Contents(), rs, parser.max);
    ok, n, left := ReadUntilLeft(parser, pieces, last, PrintAll(rs), rest);
  }
}
