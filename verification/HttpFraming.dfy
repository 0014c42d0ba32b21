/** The rest of the framing of a message: header lines behind a chunked body, and messages whose headers
    contradict each other about the body. */
module HttpFraming {
  import opened HttpChars
  import opened HttpStep
  import opened HttpTrace
  import opened HttpWords
  import opened HttpNumbers
  import opened HttpBody
  import opened HttpLines
  import opened HttpOptions
  import opened HttpMessages
  import opened HttpReplies
  import opened Folding

  /** Nothing but connection options differs. */
  predicate OptionsDiffer(f: Flags, r: Flags) {
    r == f.(keepAlive := r.keepAlive, close := r.close, connUpgrade := r.connUpgrade, upgrade := r.upgrade)
  }

  lemma LineKeeps(f: Flags, h: Line)
    ensures OptionsDiffer(f, LineFlags(f, h))
  {
    hide OptionFlags, Recognised, Lowered;
    if h.value != "" && Recognised(Lowered(h.name)) == Connection {
      OptionsOnly(f, h.value);
    }
  }

  lemma {:induction false} LinesKeep(f: Flags, lines: seq<Line>)
    ensures OptionsDiffer(f, LinesFlags(f, lines))
    decreases |lines|
  {
    hide LineFlags;
    if lines != [] {
      LineKeeps(f, lines[0]);
      LinesKeep(LineFlags(f, lines[0]), lines[1..]);
    }
  }

  // ---------------------------------------------------------------- trailers

  lemma {:induction false} ChunksRun(s: State, parts: seq<string>)
    requires AtChunk(s) && Sendable(parts)
    ensures var t := Run(s, Chunks(parts));
            && AtChunk(t) && t.events == s.events + ChunksEvents(parts)
            && t.core == if parts == [] then s.core else Sized(s.core, 0)
    decreases |parts|
  {
    hide Step, Chunk;
    if parts == [] {
      assert s.events + [] == s.events;
    } else {
      RunConcat(s, Chunk(parts[0]), Chunks(parts[1..]));
      ChunkRead(s, parts[0]);
      ChunksRun(Run(s, Chunk(parts[0])), parts[1..]);
      Assoc(s.events, ChunkEvents(parts[0]), ChunksEvents(parts[1..]));
    }
  }

  /** A chunked body with header lines behind the last chunk. */
  function TrailedText(parts: seq<string>, trailer: seq<Line>): string {
    Chunks(parts) + ("0" + (CRLF + (LinesText(trailer) + CRLF)))
  }

  /** Behind the last chunk. */
  lemma LastSizeRead(s: State, g: Given) returns (t: State)
    requires AtChunk(s) && InMessage(s.core, g)
    ensures Run(s, "0" + CRLF) == t && AtHeader(t, g, s.core.frame.flags.(trailing := true), 0)
    ensures t.events == s.events + [ChunkHeader(0)]
  {
    hide Step;
    assert ToHex(0) == "0";
    RunConcat(s, "0", CRLF);
    SizeRead(s, 0);
    SizeEnd(Run(s, "0"));
    t := Run(s, "0" + CRLF);
  }

  /** The header lines are reported behind the last chunk, before the message is complete; a connection option
      among them still decides whether the connection stays. */
  lemma TrailersRead(s: State, g: Given, parts: seq<string>, trailer: seq<Line>)
    requires AtChunk(s) && InMessage(s.core, g) && Sendable(parts)
    requires forall i :: 0 <= i < |trailer| ==> Allowed(trailer[i])
    ensures var t, f := Run(s, TrailedText(parts, trailer)), s.core.frame.flags.(trailing := true);
            && t.core.errno == OK && InMessage(t.core, g)
            && t.core.phase == Begin(if !Persistent(g.line, LinesFlags(f, trailer)) then Dead
                                     else if g.line.kind == Request then StartReq else StartRes)
            && t.events == s.events + ChunksEvents(parts) + [ChunkHeader(0)] + LinesEvents(trailer)
                           + [ChunkComplete, MessageComplete]
  {
    hide Step, Run, Allowed, Sendable, LinesFlags, Persistent, NewMessage, AtChunk, Chunks, LinesText, ChunksEvents;
    var f := s.core.frame.flags.(trailing := true);
    var x := LinesText(trailer) + CRLF;
    assert "0" + (CRLF + x) == "0" + CRLF + x;
    RunConcat(s, Chunks(parts), "0" + CRLF + x);
    ChunksRun(s, parts);
    var t := Run(s, Chunks(parts));
    RunConcat(t, "0" + CRLF, x);
    var u := LastSizeRead(t, g);
    var v := LinesRun(u, g, f, 0, trailer, CRLF);
    LinesKeep(f, trailer);
    NoMoreHeaders(v);
    Again(v.core.(phase := Payload(MessageDone), frame := v.core.frame.(nread := v.core.frame.nread + 2)), g,
          LinesFlags(f, trailer));
  }

  // ---------------------------------------------------------------- two headers about the body

  /** Both a length and chunks. */
  lemma BothRefused(s: State, g: Given, f: Flags, n: nat)
    requires AtHeader(s, g, f, n) && f.chunked && f.contentLength && !f.trailing
    ensures Run(s, CRLF).core.errno == UNEXPECTED_CONTENT_LENGTH && Run(s, CRLF).events == s.events
  {
    hide Step;
    assert CRLF == [CR] + [LF];
    RunFirst(s, CR, [LF]);
    RunOne(Step(s, CR), LF);
    HeadersEndCr(s);
    BothFail(Step(s, CR));
  }

  lemma BothFail(s: State)
    requires Running(s.core) && s.core.phase == Heading(HeadersAlmostDone)
    requires s.core.frame.flags.chunked && s.core.frame.flags.contentLength && !s.core.frame.flags.trailing
    ensures Step(s, LF).core.errno == UNEXPECTED_CONTENT_LENGTH && Step(s, LF).events == s.events
  {
    ApplySingle(s.events, Notify(ChunkComplete), LF);
  }

  /** A second length. */
  lemma SecondLength(s: State, g: Given, f: Flags, n: nat, body: string)
    requires AtHeader(s, g, f, n) && f.contentLength
    ensures var t := Run(s, LineText(ContentLine(Whole(body))));
            && t.core.errno == UNEXPECTED_CONTENT_LENGTH && t.events == s.events + [Data(Field, "Content-Length")]
  {
    hide Step, Emit, AtHeader, ToDecimal, Recognised, Lowered, Tokens, LineText;
    var h := ContentLine(Whole(body));
    FramingNames();
    assert LineText(h) + "" == LineText(h) && CRLF + "" == CRLF;
    LineSplit(s, h, "");
    NameAndBlank(s, g, f, n, h.name);
    var t := Run(s, h.name + ":" + " ");
    var d := h.value;
    assert d == [d[0]] + d[1..];
    RunFirst(t, d[0], d[1..]);
    LengthFails(t, d[0]);
    Stopped(Step(t, d[0]), d[1..]);
    Stopped(Step(t, d[0]), CRLF);
  }

  lemma LengthFails(s: State, c: char)
    requires Running(s.core) && s.core.phase == Heading(ValueDiscardWs) && s.core.name.header == ContentLength
    requires s.core.frame.flags.contentLength && IsNum(c)
    ensures Step(s, c).core.errno == UNEXPECTED_CONTENT_LENGTH && Step(s, c).events == s.events
  {
    ApplySingle(s.events, Take(Value), c);
  }

  /** Behind one header about the body, a second one leads to an error, no later than at the blank line: unless
      both say `chunked`. */
  lemma SecondRefused(s: State, g: Given, f: Flags, n: nat, second: Content, tail: seq<Line>, rest: string)
    requires AtHeader(s, g, f, n) && !f.trailing && !second.Bare? && Framable(second)
    requires if second.Whole? then f.contentLength || (f.chunked && n == ABSENT) else f.contentLength
    requires forall i :: 0 <= i < |tail| ==> Allowed(tail[i])
    ensures Run(s, FramingText(second) + (LinesText(tail) + (CRLF + rest))).core.errno == UNEXPECTED_CONTENT_LENGTH
  {
    hide Step, Run, Allowed, AtHeader, LinesFlags, LinesText, LineText, ContentLine;
    var more := LinesText(tail) + (CRLF + rest);
    if second.Whole? && f.contentLength {
      SecondLength(s, g, f, n, second.body);
      RunConcat(s, FramingText(second), more);
      Stopped(Run(s, FramingText(second)), more);
    } else {
      LinesStart(tail, CRLF + rest);
      var t := FramingLine(s, g, f, n, second, more);
      var h := Framed(f, second);
      var u := LinesRun(t, g, h, LengthNow(n, second), tail, CRLF + rest);
      LinesKeep(h, tail);
      BothRefused(u, g, LinesFlags(h, tail), LengthNow(n, second));
      RunConcat(u, CRLF, rest);
      Stopped(Run(u, CRLF), rest);
    }
  }

  /** Whether the two headers are more than a repeated `chunked`. */
  predicate Contradictory(first: Content, second: Content) {
    !first.Bare? && !second.Bare? && (first.Whole? || second.Whole?)
  }

  /** A request with two headers about its body is never read, wherever they stand and whatever follows. */
  lemma RequestFramedTwice(s: State, r: Message, second: Content, tail: seq<Line>, rest: string)
    requires Idle(s) && Printable(r) && Contradictory(r.content, second) && Framable(second)
    requires forall i :: 0 <= i < |tail| ==> Allowed(tail[i])
    ensures Run(s, HeadText(r, FramingText(second) + (LinesText(tail) + (CRLF + rest)))).core.errno
         == UNEXPECTED_CONTENT_LENGTH
  {
    hide Step, Run, Allowed, AtHeader, FlagsOf, LinesText, FramingText, HeadText, Idle, Printable, HeadEvents;
    FramingBegins(second, LinesText(tail) + (CRLF + rest));
    var t, g := HeadRead(s, r, FramingText(second) + (LinesText(tail) + (CRLF + rest)));
    SecondRefused(t, g, FlagsOf(r), LengthFor(r.content), second, tail, rest);
  }

  lemma FramingBegins(content: Content, rest: string)
    requires !content.Bare?
    ensures FramingText(content) + rest != "" && !Blank((FramingText(content) + rest)[0])
  {
    hide ToDecimal;
  }

  /** Nor is such a response. */
  lemma ReplyFramedTwice(s: State, r: Reply, second: Content, tail: seq<Line>, rest: string)
    requires ReplyIdle(s) && PrintableReply(r) && Contradictory(r.content, second) && Framable(second)
    requires forall i :: 0 <= i < |tail| ==> Allowed(tail[i])
    ensures Run(s, ReplyText(r, FramingText(second) + (LinesText(tail) + (CRLF + rest)))).core.errno
         == UNEXPECTED_CONTENT_LENGTH
  {
    hide Step, Run, Allowed, AtHeader, ReplyFlags, LinesText, FramingText, ReplyText, ReplyIdle, PrintableReply,
        ReplyHeadEvents, LineOf;
    FramingBegins(second, LinesText(tail) + (CRLF + rest));
    var t, g := ReplyHeadRead(s, r, FramingText(second) + (LinesText(tail) + (CRLF + rest)));
    SecondRefused(t, g, ReplyFlags(r), LengthFor(r.content), second, tail, rest);
  }
}
