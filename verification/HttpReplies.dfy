/** Responses, read back by the parser: any version, status and reason, with headers and a body framed in any
    way, one after another on a connection, and one that ends with the connection. */
module HttpReplies {
  import opened HttpChars
  import opened Options
  import opened HttpStep
  import opened HttpTrace
  import opened HttpWords
  import opened HttpNumbers
  import opened HttpBody
  import opened HttpLines
  import opened HttpMessages
  import opened HttpLimit
  import opened HttpSizes
  import opened Folding
  import P = HttpParser

  /** The version and the three digits of the status are given as characters; the reason may be missing
      together with the blank before it. */
  datatype Reply = Reply(major: char, minor: char, code: string, reason: Option<string>,
                         lines: seq<Line>, content: Content, more: seq<Line>)

  ghost predicate PrintableReply(r: Reply) {
    && IsNum(r.major) && IsNum(r.minor) && |r.code| == 3 && IsNum(r.code[0]) && IsNum(r.code[1]) && IsNum(r.code[2])
    && NoLineEnd(Reason(r))
    && (forall i :: 0 <= i < |r.lines| ==> Allowed(r.lines[i]))
    && (forall i :: 0 <= i < |r.more| ==> Allowed(r.more[i]))
    && Framable(r.content)
  }

  predicate NoLineEnd(x: string) {
    forall i :: 0 <= i < |x| ==> x[i] != CR && x[i] != LF
  }

  function Reason(r: Reply): string {
    if r.reason.Some? then r.reason.value else ""
  }

  // ---------------------------------------------------------------- printing, and what the callbacks should see

  function StatusText(r: Reply): string {
    "HT" + ("TP/" + ([r.major, '.', r.minor] + (" " + (r.code + ReasonText(r.reason)))))
  }

  function ReasonText(reason: Option<string>): string {
    if reason.Some? then [' '] + (reason.value + CRLF) else CRLF
  }

  function ReplyText(r: Reply, rest: string): string {
    StatusText(r) + (LinesText(r.lines) + (FramingText(r.content) + (LinesText(r.more) + rest)))
  }

  function PrintReply(r: Reply): string {
    ReplyText(r, CRLF + ContentText(r.content))
  }

  function ReplyFlags(r: Reply): Flags {
    LinesFlags(Framed(LinesFlags(NONE, r.lines), r.content), r.more)
  }

  /** The status as a number. */
  function StatusOf(code: string): nat
    requires |code| == 3 && IsNum(code[0]) && IsNum(code[1]) && IsNum(code[2])
  {
    100 * Digit(code[0]) + 10 * Digit(code[1]) + Digit(code[2])
  }

  /** What the parser should report about the first line. */
  function LineOf(r: Reply, verb: Method): StartLine
    requires |r.code| == 3 && IsNum(r.code[0]) && IsNum(r.code[1]) && IsNum(r.code[2])
    requires IsNum(r.major) && IsNum(r.minor)
  {
    StartLine(Response, verb, StatusOf(r.code), Digit(r.major), Digit(r.minor))
  }

  function ReplyHeadEvents(r: Reply): seq<Event> {
    [MessageBegin, Data(Status, Reason(r))] + LinesEvents(r.lines) + FramingEvents(r.content) + LinesEvents(r.more)
  }

  function EventsOfReply(r: Reply): seq<Event> {
    ReplyHeadEvents(r) + [HeadersComplete] + ContentEvents(r.content)
  }

  // ---------------------------------------------------------------- the status line

  /** Ready for a response: between two of them, or a new parser that takes either kind of message. */
  predicate ReplyIdle(s: State) {
    && Running(s.core) && s.core.line.verb != CONNECT
    && ((s.core.phase == Begin(StartRes) && s.core.line.kind == Response)
        || (s.core.phase == Begin(StartReqOrRes) && s.core.line.kind == Both))
  }

  /** Inside the status line. */
  predicate InStatus(s: State, at: StatusAt, l: StartLine, reply: nat) {
    && Running(s.core) && s.core.phase == StatusLine(at) && s.core.line == l && s.core.conf.reply == reply
    && s.core.frame.flags == NONE && s.core.frame.length == ABSENT
  }

  lemma TwoSteps(s: State, a: char, b: char)
    ensures Run(s, [a, b]) == Step(Step(s, a), b)
  {
    assert [a, b] == [a] + [b];
    RunFirst(s, a, [b]);
    RunOne(Step(s, a), b);
  }

  lemma ReplyStart(s: State)
    requires ReplyIdle(s)
    ensures var t := Run(s, "HT");
            InStatus(t, ResHT, s.core.line.(kind := Response), s.core.conf.reply)
              && t.events == s.events + [MessageBegin]
  {
    hide OnMethod, OnUrl, OnVersion, OnHeader, OnChunkSize, OnBody, OnStartReq;
    assert "HT" == ['H', 'T'];
    TwoSteps(s, 'H', 'T');
    ApplySingle(s.events, Notify(MessageBegin), 'H');
    ApplySingle(s.events + [MessageBegin], Notify(MessageBegin), 'T');
  }

  /** A byte of the status line that makes no callback. */
  lemma QuietStep(s: State, at: StatusAt, c: char)
    requires Running(s.core) && s.core.phase == StatusLine(at) && at != ResStatusStart && at != ResStatus
    requires at == ResStatusCode ==> IsNum(c) || c == ' '
    ensures Step(s, c) == State(OnStatusLine(Counted(s.core), at, c).core, s.events)
  {
    ApplySingle(s.events, Flush(Url), c);
  }

  lemma ReplyName(s: State, l: StartLine, reply: nat)
    requires InStatus(s, ResHT, l, reply)
    ensures var t := Run(s, "TP/"); InStatus(t, ResMajor, l, reply) && t.events == s.events
  {
    hide Step;
    assert "TP/" == ['T', 'P', '/'];
    ThreeSteps(s, 'T', 'P', '/');
    QuietStep(s, ResHT, 'T');
    QuietStep(Step(s, 'T'), ResHTT, 'P');
    QuietStep(Step(Step(s, 'T'), 'P'), ResHTTP, '/');
  }

  lemma ReplyVersion(s: State, l: StartLine, reply: nat, major: char, minor: char)
    requires InStatus(s, ResMajor, l, reply) && IsNum(major) && IsNum(minor)
    ensures var t := Run(s, [major, '.', minor]);
            InStatus(t, ResEnd, l.(major := Digit(major), minor := Digit(minor)), reply) && t.events == s.events
  {
    hide Step;
    ThreeSteps(s, major, '.', minor);
    QuietStep(s, ResMajor, major);
    QuietStep(Step(s, major), ResDot, '.');
    QuietStep(Step(Step(s, major), '.'), ResMinor, minor);
  }

  lemma ReplyBlank(s: State, l: StartLine, reply: nat)
    requires InStatus(s, ResEnd, l, reply)
    ensures var t := Run(s, " "); InStatus(t, ResFirstStatusCode, l, reply) && t.events == s.events
  {
    hide Step;
    RunOne(s, ' ');
    QuietStep(s, ResEnd, ' ');
  }

  /** The three digits of the status. */
  lemma ReplyCode(s: State, l: StartLine, reply: nat, code: string)
    requires InStatus(s, ResFirstStatusCode, l, reply)
    requires |code| == 3 && IsNum(code[0]) && IsNum(code[1]) && IsNum(code[2])
    ensures var t := Run(s, code);
            InStatus(t, ResStatusCode, l.(status := StatusOf(code)), reply) && t.events == s.events
  {
    hide Step;
    assert code == [code[0], code[1], code[2]];
    ThreeSteps(s, code[0], code[1], code[2]);
    QuietStep(s, ResFirstStatusCode, code[0]);
    var t := Step(s, code[0]);
    QuietStep(t, ResStatusCode, code[1]);
    var u := Step(t, code[1]);
    QuietStep(u, ResStatusCode, code[2]);
  }

  lemma ReasonFirst(s: State, l: StartLine, reply: nat, c: char)
    requires InStatus(s, ResStatusStart, l, reply) && c != CR && c != LF
    ensures InStatus(Step(s, c), ResStatus, l, reply) && Step(s, c).events == Emit(s.events, Status, [c])
  {
    hide Emit;
    ApplySingle(s.events, Take(Status), c);
  }

  lemma ReasonNext(s: State, l: StartLine, reply: nat, c: char)
    requires InStatus(s, ResStatus, l, reply) && c != CR && c != LF
    ensures InStatus(Step(s, c), ResStatus, l, reply) && Step(s, c).events == Emit(s.events, Status, [c])
  {
    hide Emit;
    ApplySingle(s.events, Take(Status), c);
  }

  lemma {:induction false} ReasonRun(s: State, l: StartLine, reply: nat, x: string)
    requires InStatus(s, ResStatusStart, l, reply) && x != "" && NoLineEnd(x)
    ensures InStatus(Run(s, x), ResStatus, l, reply) && Run(s, x).events == Emit(s.events, Status, x)
  {
    hide Emit, Step;
    var r, c := x[..|x| - 1], x[|x| - 1];
    assert x == r + [c];
    RunLast(s, r, c);
    if r == "" {
      ReasonFirst(s, l, reply, c);
    } else {
      ReasonRun(s, l, reply, r);
      ReasonNext(Run(s, r), l, reply, c);
      EmitTwice(s.events, Status, r, [c]);
    }
  }

  /** The end of the status line, behind the status, a blank or the reason. */
  lemma StatusEnd(s: State, at: StatusAt, l: StartLine, reply: nat)
    requires InStatus(s, at, l, reply) && (at == ResStatusCode || at == ResStatusStart || at == ResStatus)
    ensures var t := Run(s, CRLF);
            && Running(t.core) && t.core.phase == Heading(HeaderFieldStart) && InMessage(t.core, Given(l, reply))
            && t.core.frame.flags == NONE && t.core.frame.length == ABSENT
            && t.events == if at == ResStatus then s.events else Emit(s.events, Status, "")
  {
    hide Step, Emit;
    assert CRLF == [CR, LF];
    TwoSteps(s, CR, LF);
    StatusCr(s, at, l, reply);
    QuietStep(Step(s, CR), ResLineAlmostDone, LF);
  }

  lemma StatusCr(s: State, at: StatusAt, l: StartLine, reply: nat)
    requires InStatus(s, at, l, reply) && (at == ResStatusCode || at == ResStatusStart || at == ResStatus)
    ensures InStatus(Step(s, CR), ResLineAlmostDone, l, reply)
    ensures Step(s, CR).events == if at == ResStatus then s.events else Emit(s.events, Status, "")
  {
    hide Emit;
    ApplySingle(s.events, Flush(Status), CR);
    ApplySingle(s.events, Empty(Status), CR);
  }

  /** What follows the status. */
  lemma ReasonEnd(s: State, l: StartLine, reply: nat, reason: Option<string>)
    requires InStatus(s, ResStatusCode, l, reply) && (reason.Some? ==> NoLineEnd(reason.value))
    ensures var t := Run(s, ReasonText(reason));
            && Running(t.core) && t.core.phase == Heading(HeaderFieldStart) && InMessage(t.core, Given(l, reply))
            && t.core.frame.flags == NONE && t.core.frame.length == ABSENT
            && t.events == Emit(s.events, Status, if reason.Some? then reason.value else "")
  {
    hide Step, Emit;
    if reason.None? {
      StatusEnd(s, ResStatusCode, l, reply);
    } else {
      var x := reason.value;
      RunFirst(s, ' ', x + CRLF);
      QuietStep(s, ResStatusCode, ' ');
      var t := Step(s, ' ');
      RunConcat(t, x, CRLF);
      if x == "" {
        StatusEnd(t, ResStatusStart, l, reply);
      } else {
        ReasonRun(t, l, reply, x);
        StatusEnd(Run(t, x), ResStatus, l, reply);
      }
    }
  }

  /** A printed status line is read back: status, version, and the reason to the callbacks. */
  lemma StatusRun(s: State, r: Reply)
    requires ReplyIdle(s) && PrintableReply(r)
    ensures var t := Run(s, StatusText(r));
            && AtHeader(t, GivenBy(t), NONE, ABSENT)
            && GivenBy(t) == Given(LineOf(r, s.core.line.verb), s.core.conf.reply)
            && t.events == s.events + [MessageBegin, Data(Status, Reason(r))]
  {
    hide Step, Framable, Allowed, ReasonText, InStatus;
    var a, b, c, d, e := "HT", "TP/", [r.major, '.', r.minor], " ", ReasonText(r.reason);
    var l := s.core.line.(kind := Response);
    var reply := s.core.conf.reply;
    RunConcat(s, a, b + (c + (d + (r.code + e))));
    ReplyStart(s);
    var t := Run(s, a);
    RunConcat(t, b, c + (d + (r.code + e)));
    ReplyName(t, l, reply);
    var u := Run(t, b);
    RunConcat(u, c, d + (r.code + e));
    ReplyVersion(u, l, reply, r.major, r.minor);
    l := l.(major := Digit(r.major), minor := Digit(r.minor));
    var v := Run(u, c);
    RunConcat(v, d, r.code + e);
    ReplyBlank(v, l, reply);
    var w := Run(v, d);
    RunConcat(w, r.code, e);
    ReplyCode(w, l, reply, r.code);
    ReasonEnd(Run(w, r.code), l.(status := StatusOf(r.code)), reply, r.reason);
    assert s.events + [MessageBegin] + [Data(Status, Reason(r))] == s.events + [MessageBegin, Data(Status, Reason(r))];
  }

  // ---------------------------------------------------------------- whole responses

  /** A printed response up to the blank line. */
  lemma ReplyHeadRead(s: State, r: Reply, rest: string) returns (t: State, g: Given)
    requires ReplyIdle(s) && PrintableReply(r) && rest != "" && !Blank(rest[0])
    ensures Run(s, ReplyText(r, rest)) == Run(t, rest) && g == Given(LineOf(r, s.core.line.verb), s.core.conf.reply)
    ensures AtHeader(t, g, ReplyFlags(r), LengthFor(r.content)) && Settled(ReplyFlags(r), r.content)
    ensures t.events == s.events + ReplyHeadEvents(r)
  {
    hide Step, AtHeader, Allowed, StatusText, ContentText, ReplyIdle, LinesText, LinesEvents, FramingText,
        FramingEvents, Framable, LinesFlags, LengthFor;
    var tail := LinesText(r.more) + rest;
    LinesStart(r.more, rest);
    FramingStart(r.content, tail);
    RunConcat(s, StatusText(r), LinesText(r.lines) + (FramingText(r.content) + tail));
    StatusRun(s, r);
    g := GivenBy(Run(s, StatusText(r)));
    var t1 := LinesRun(Run(s, StatusText(r)), g, NONE, ABSENT, r.lines, FramingText(r.content) + tail);
    var f := LinesFlags(NONE, r.lines);
    LinesSettled(NONE, r.lines, Bare);
    var t2 := FramingRun(t1, g, f, r.content, tail);
    t := LinesRun(t2, g, Framed(f, r.content), LengthFor(r.content), r.more, rest);
    LinesSettled(Framed(f, r.content), r.more, r.content);
    Gathered(s.events, [MessageBegin, Data(Status, Reason(r))], LinesEvents(r.lines), FramingEvents(r.content),
             LinesEvents(r.more));
  }

  /** A response that ends with the connection: no header about the body, and a status that allows one. */
  predicate Unbounded(r: Reply)
    requires |r.code| == 3 && IsNum(r.code[0]) && IsNum(r.code[1]) && IsNum(r.code[2])
  {
    r.content.Bare? && r.code[0] != '1' && r.code != "204" && r.code != "304"
  }

  lemma UnboundedBare(r: Reply)
    requires PrintableReply(r) && Unbounded(r)
    ensures r.content.Bare?
  {
  }

  /** Whether another response may follow this one. */
  predicate Stays(r: Reply) {
    if r.major != '0' && r.minor != '0' then !ReplyFlags(r).close else ReplyFlags(r).keepAlive
  }

  /** Whether another protocol follows this response: status 101, and both headers. */
  predicate Switches(r: Reply) {
    r.code == "101" && ReplyFlags(r).upgrade && ReplyFlags(r).connUpgrade
  }

  lemma Statuses(r: Reply, g: Given)
    requires PrintableReply(r) && g.line == LineOf(r, g.line.verb) && g.line.verb != CONNECT && g.reply <= 1
    ensures Usual(g)
    ensures Unbounded(r) <==> r.content.Bare? && UntilEof(g.line)
    ensures Stays(r) <==> Persistent(g.line, ReplyFlags(r))
    ensures Switches(r) <==> Leaves(g.line, ReplyFlags(r))
    ensures Unbounded(r) ==> !Switches(r)
    ensures r.content.Bare? && g.reply == 0 ==> (EndsThere(g, ReplyFlags(r), r.content) <==> !Unbounded(r))
  {
    hide ReplyFlags;
    var a, b, c := Digit(r.code[0]), Digit(r.code[1]), Digit(r.code[2]);
    assert r.code == [r.code[0], r.code[1], r.code[2]];
    assert r.code == "101" <==> a == 1 && b == 0 && c == 1;
    assert r.code == "204" <==> a == 2 && b == 0 && c == 4;
    assert r.code == "304" <==> a == 3 && b == 0 && c == 4;
  }

  /** Between two responses, or where nothing may follow, or out of HTTP. */
  predicate AfterReply(s: State, stays: bool, switches: bool) {
    && s.core.errno == OK && s.core.left == switches && s.core.phase == Begin(if stays then StartRes else Dead)
    && s.core.line.kind == Response && s.core.conf.reply == 0 && s.core.line.verb != CONNECT && s.core.frame.nread <= 2
  }

  /** What the parser reports about the status line. */
  predicate Reports(l: StartLine, r: Reply)
    requires PrintableReply(r)
  {
    && l.status == StatusOf(r.code) && l.major == Digit(r.major) && l.minor == Digit(r.minor)
  }

  /** A printed response is read back: status and version, the reason, the headers in order and the body to the
      callbacks, and one completion: at the blank line if there is no body, and otherwise at the end of the
      body. Then the parser is ready for the next one, if the connection stays and keeps its protocol. */
  lemma ReplyRead(s: State, r: Reply)
    requires ReplyIdle(s) && s.core.conf.reply == 0 && PrintableReply(r) && !Unbounded(r)
    ensures var t := Run(s, PrintReply(r));
            && AfterReply(t, Stays(r), Switches(r)) && Reports(t.core.line, r)
              && t.events == s.events + EventsOfReply(r)
  {
    hide Step, AtHeader, Allowed, StatusText, ContentText, ContentEvents, ReplyIdle, LinesText, LinesEvents,
        FramingText, FramingEvents, Framable, LengthFor, Settled, ReplyFlags, UntilEof, Persistent, Unbounded, Stays,
          Leaves, Switches;
    var t, g := ReplyHeadRead(s, r, CRLF + ContentText(r.content));
    VerbKept(s);
    Statuses(r, g);
    ContentRun(t, g, ReplyFlags(r), r.content);
    Assoc(s.events, ReplyHeadEvents(r), [HeadersComplete]);
    Assoc(s.events, ReplyHeadEvents(r) + [HeadersComplete], ContentEvents(r.content));
  }

  lemma VerbKept(s: State)
    requires ReplyIdle(s)
    ensures s.core.line.verb != CONNECT
  {
  }

  /** A response to a HEAD request, for which the application answers 1 at the end of the headers: it is
      complete at the blank line, whatever its headers announce. */
  lemma HeadReplyRead(s: State, r: Reply)
    requires ReplyIdle(s) && s.core.conf.reply == 1 && PrintableReply(r)
    ensures var t := Run(s, ReplyText(r, CRLF));
            && t.core.errno == OK && t.core.left == Switches(r)
            && t.core.phase == Begin(if Stays(r) then StartRes else Dead)
            && Reports(t.core.line, r) && t.events == s.events + ReplyHeadEvents(r) + [HeadersComplete, MessageComplete]
  {
    hide Step, AtHeader, Allowed, StatusText, ReplyIdle, LinesText, LinesEvents, FramingText, FramingEvents, Framable,
        LengthFor, Settled, ReplyFlags, UntilEof, Persistent, Unbounded, Stays, Leaves, Switches, ReplyHeadEvents;
    var t, g := ReplyHeadRead(s, r, CRLF);
    VerbKept(s);
    Statuses(r, g);
    assert CRLF + "" == CRLF;
    var u := BlankLine(t, g, ReplyFlags(r), r.content, "");
  }

  /** A response that ends with the connection: everything behind the blank line is its body. */
  lemma UnboundedRead(s: State, r: Reply, body: string)
    requires ReplyIdle(s) && s.core.conf.reply == 0 && PrintableReply(r) && Unbounded(r)
    ensures var t := Run(s, ReplyText(r, CRLF + body));
            && Running(t.core) && t.core.phase == Payload(BodyIdentityEof) && Reports(t.core.line, r)
            && t.events == s.events + ReplyHeadEvents(r) + [HeadersComplete]
              + if body == "" then [] else [Data(Body, body)]
  {
    hide Step, AtHeader, Allowed, StatusText, ReplyIdle, LinesText, LinesEvents, FramingText, FramingEvents, Framable,
        LengthFor, Settled, ReplyFlags, UntilEof, Persistent, Unbounded, Stays, Leaves, Switches, ReplyHeadEvents;
    var t, g := ReplyHeadRead(s, r, CRLF + body);
    VerbKept(s);
    Statuses(r, g);
    UnboundedBare(r);
    var u := BlankLine(t, g, ReplyFlags(r), r.content, body);
    if body != "" {
      P.EofRun(u, body);
      EmitAfter(t.events, HeadersComplete, Body, body);
      assert t.events + [HeadersComplete, Data(Body, body)] == t.events + [HeadersComplete] + [Data(Body, body)];
    } else {
      assert u.events + [] == u.events;
    }
  }

  /** The status does not matter to a response with a body of announced length: the parser reads that body even
      if it is 304 or 204, to which section 3.3.3 of RFC 7230 gives none. */
  lemma LengthWins(s: State, r: Reply)
    requires ReplyIdle(s) && s.core.conf.reply == 0 && PrintableReply(r) && r.content.Whole? && r.content.body != ""
    ensures var t := Run(s, ReplyText(r, CRLF));
            && Running(t.core) && t.core.phase == Payload(BodyIdentity) && t.core.frame.length == |r.content.body|
            && t.events == s.events + ReplyHeadEvents(r) + [HeadersComplete]
  {
    hide Step, AtHeader, Allowed, StatusText, ReplyIdle, LinesText, LinesEvents, FramingText, FramingEvents,
        Settled, ReplyFlags, UntilEof, Persistent, Unbounded, Stays, Leaves, Switches, ReplyHeadEvents;
    var t, g := ReplyHeadRead(s, r, CRLF);
    VerbKept(s);
    assert CRLF + "" == CRLF;
    var u := BlankLine(t, g, ReplyFlags(r), r.content, "");
  }

  // ---------------------------------------------------------------- one after another

  function PrintReplies(rs: seq<Reply>): string {
    if rs == [] then "" else PrintReply(rs[0]) + PrintReplies(rs[1..])
  }

  function EventsOfReplies(rs: seq<Reply>): seq<Event> {
    if rs == [] then [] else EventsOfReply(rs[0]) + EventsOfReplies(rs[1..])
  }

  /** Responses that can follow each other on a connection. */
  ghost predicate Sequence(rs: seq<Reply>) {
    && (forall i :: 0 <= i < |rs| ==> PrintableReply(rs[i]) && !Unbounded(rs[i]))
    && (forall i :: 0 <= i < |rs| - 1 ==> Stays(rs[i]) && !Switches(rs[i]))
  }

  predicate LastStays(rs: seq<Reply>) {
    rs == [] || Stays(rs[|rs| - 1])
  }

  predicate LastSwitches(rs: seq<Reply>) {
    rs != [] && Switches(rs[|rs| - 1])
  }

  /** Ready for responses, with nothing but the end of a chunked body in the count of the next header. */
  predicate ReadyForReplies(s: State) {
    ReplyIdle(s) && s.core.conf.reply == 0 && s.core.frame.nread <= 2
  }

  lemma {:induction false} RepliesRead(s: State, rs: seq<Reply>)
    requires ReadyForReplies(s) && Sequence(rs) && rs != []
    ensures AfterReply(Run(s, PrintReplies(rs)), LastStays(rs), LastSwitches(rs))
    ensures Run(s, PrintReplies(rs)).events == s.events + EventsOfReplies(rs)
    decreases |rs|
  {
    hide Step, PrintableReply, PrintReply, EventsOfReply, Stays, Switches, Unbounded;
    var rest := rs[1..];
    RunConcat(s, PrintReply(rs[0]), PrintReplies(rest));
    ReplyRead(s, rs[0]);
    if rest == [] {
      assert PrintReplies(rest) == "" && EventsOfReplies(rest) == [];
      assert s.events + (EventsOfReply(rs[0]) + []) == s.events + EventsOfReply(rs[0]);
    } else {
      RepliesRead(Run(s, PrintReply(rs[0])), rest);
      Assoc(s.events, EventsOfReply(rs[0]), EventsOfReplies(rest));
    }
  }

  /** Responses one after another, cut into reads in any way: each is reported in turn. */
  lemma RepliesPipelined(s: State, rs: seq<Reply>, parts: seq<string>)
    requires ReadyForReplies(s) && Sequence(rs) && rs != [] && Join(parts) == PrintReplies(rs)
    ensures var t := FoldAll(Step, s, parts);
            AfterReply(t, LastStays(rs), LastSwitches(rs)) && t.events == s.events + EventsOfReplies(rs)
  {
    hide Step;
    SplitsDoNotMatter(s, parts);
    RepliesRead(s, rs);
  }

  // ---------------------------------------------------------------- with the limit on the header size

  predicate SmallReply(r: Reply, max: nat) {
    |ReplyText(r, CRLF)| + 2 <= max
  }

  lemma ReplySplit(r: Reply, rest: string)
    requires PrintableReply(r)
    ensures ReplyText(r, CRLF + rest) == ReplyText(r, CRLF) + rest && |ReplyText(r, CRLF)| >= 16
  {
    hide LinesText, FramingText, Allowed, Framable;
    Assoc(LinesText(r.more), CRLF, rest);
    Assoc(FramingText(r.content), LinesText(r.more) + CRLF, rest);
    Assoc(LinesText(r.lines), FramingText(r.content) + (LinesText(r.more) + CRLF), rest);
    Assoc(StatusText(r), LinesText(r.lines) + (FramingText(r.content) + (LinesText(r.more) + CRLF)), rest);
  }

  /** A response whose head is small enough keeps to the limit, however large its body is. */
  lemma ReplyWithin(s: State, r: Reply, max: nat)
    requires ReadyForReplies(s) && PrintableReply(r) && !Unbounded(r) && SmallReply(r, max)
    ensures Within(s, PrintReply(r), max)
  {
    hide Step, AtHeader, ReplyIdle, Allowed, Framable, ContentText, Within, Settled, ReplyFlags, ReplyHeadEvents,
        StatusText, UntilEof, Persistent, Unbounded, Stays, Leaves, Switches, LinesText, FramingText;
    ReplySplit(r, ContentText(r.content));
    ShortWithin(s, ReplyText(r, CRLF), max);
    WithinConcat(s, ReplyText(r, CRLF), ContentText(r.content), max);
    var t, g := ReplyHeadRead(s, r, CRLF);
    VerbKept(s);
    Statuses(r, g);
    ContentWithin(t, g, ReplyFlags(r), r.content, max);
  }

  lemma UnboundedWithin(s: State, r: Reply, body: string, max: nat)
    requires ReadyForReplies(s) && PrintableReply(r) && Unbounded(r) && SmallReply(r, max)
    ensures Within(s, ReplyText(r, CRLF + body), max)
  {
    hide Step, PrintableReply, Within, ReplyHeadEvents, ReplyText, Unbounded, Reports;
    ReplySplit(r, body);
    ShortWithin(s, ReplyText(r, CRLF), max);
    WithinConcat(s, ReplyText(r, CRLF), body, max);
    UnboundedRead(s, r, "");
    assert CRLF + "" == CRLF;
    P.BulkWithin(Run(s, ReplyText(r, CRLF)), body, max);
  }

  ghost predicate SmallSequence(rs: seq<Reply>, max: nat) {
    Sequence(rs) && forall i :: 0 <= i < |rs| ==> SmallReply(rs[i], max)
  }

  lemma {:induction false} RepliesWithin(s: State, rs: seq<Reply>, max: nat)
    requires ReadyForReplies(s) && SmallSequence(rs, max)
    ensures Within(s, PrintReplies(rs), max)
    decreases |rs|
  {
    hide Step, PrintableReply, PrintReply, EventsOfReply, Stays, Switches, Unbounded, SmallReply, Within, Reports;
    if rs == [] {
      P.NothingWithin(s, max);
    } else {
      var rest := rs[1..];
      WithinConcat(s, PrintReply(rs[0]), PrintReplies(rest), max);
      ReplyWithin(s, rs[0], max);
      ReplyRead(s, rs[0]);
      if rest == [] {
        P.NothingWithin(Run(s, PrintReply(rs[0])), max);
      } else {
        RepliesWithin(Run(s, PrintReply(rs[0])), rest, max);
      }
    }
  }

  /** `http_parser_execute` on the reads of a connection that carries these responses: it accepts all of them,
      and the callbacks are those of the responses, one after another. */
  method ReadReplies(parser: P.HttpParser, pieces: seq<string>, ghost rs: seq<Reply>) returns (ok: bool)
    requires parser.Valid() && ReadyForReplies(parser.Contents())
    requires (forall i :: 0 <= i < |pieces| ==> pieces[i] != "") && Join(pieces) == PrintReplies(rs)
    requires SmallSequence(rs, parser.max) && rs != [] && !LastSwitches(rs)
    modifies parser
    ensures ok && parser.Valid() && AfterReply(parser.Contents(), LastStays(rs), false)
    ensures parser.Contents().events == old(parser.Contents().events) + EventsOfReplies(rs)
  {
    hide Step, Sequence, EventsOfReplies, SmallReply, Within, LastStays, LastSwitches;
    IdleRuns(parser.Contents());
    RepliesRead(parser.Contents(), rs);
    RepliesWithin(parser.Contents(), rs, parser.max);
    ok := parser.ExecuteAll(pieces);
  }

  lemma IdleRuns(s: State)
    requires ReplyIdle(s)
    ensures Running(s.core)
  {
  }

  /** What the parser has seen before the connection ends. */
  lemma BeforeEof(s: State, rs: seq<Reply>, r: Reply, body: string, max: nat)
    requires ReadyForReplies(s) && SmallSequence(rs, max) && LastStays(rs) && !LastSwitches(rs)
    requires PrintableReply(r) && Unbounded(r) && SmallReply(r, max)
    ensures var x := PrintReplies(rs) + ReplyText(r, CRLF + body);
            var t := Run(s, x);
            && Within(s, x, max) && Running(t.core) && t.core.phase == Payload(BodyIdentityEof)
            && Reports(t.core.line, r)
            && t.events == s.events + EventsOfReplies(rs) + ReplyHeadEvents(r) + [HeadersComplete]
              + if body == "" then [] else [Data(Body, body)]
  {
    hide Step, Sequence, PrintableReply, Unbounded, SmallReply, Within, Reports, ReplyHeadEvents, ReplyText, Stays;
    RunConcat(s, PrintReplies(rs), ReplyText(r, CRLF + body));
    WithinConcat(s, PrintReplies(rs), ReplyText(r, CRLF + body), max);
    RepliesWithin(s, rs, max);
    if rs == [] {
      assert s.events + [] == s.events;
    } else {
      RepliesRead(s, rs);
    }
    var u := Run(s, PrintReplies(rs));
    UnboundedRead(u, r, body);
    UnboundedWithin(u, r, body, max);
  }

  /** A connection whose last response ends with it: the body of that response is everything behind its blank
      line, and the end of the stream completes it. */
  method ReadToEof(parser: P.HttpParser, pieces: seq<string>, ghost rs: seq<Reply>, ghost r: Reply, ghost body: string)
    returns (ok: bool, n: nat)
    requires parser.Valid() && ReadyForReplies(parser.Contents())
    requires forall i :: 0 <= i < |pieces| ==> pieces[i] != ""
    requires Join(pieces) == PrintReplies(rs) + ReplyText(r, CRLF + body)
    requires SmallSequence(rs, parser.max) && LastStays(rs) && !LastSwitches(rs)
    requires PrintableReply(r) && Unbounded(r) && SmallReply(r, parser.max)
    modifies parser
    ensures ok && n == 0 && parser.Valid() && parser.core.errno == OK && Reports(parser.core.line, r)
    ensures parser.Contents().events
         == old(parser.Contents().events) + EventsOfReplies(rs) + ReplyHeadEvents(r) + [HeadersComplete]
            + (if body == "" then [] else [Data(Body, body)]) + [MessageComplete]
  {
    hide Step, Sequence, PrintableReply, Unbounded, SmallReply, Within, Reports, ReplyHeadEvents, ReplyText, Stays,
        EventsOfReplies, PrintReplies, LastStays, LastSwitches, P.Merged;
    IdleRuns(parser.Contents());
    BeforeEof(parser.Contents(), rs, r, body, parser.max);
    ok := parser.ExecuteAll(pieces);
    P.MergedMore(parser.calls, MessageComplete);
    n := parser.ExecuteEof();
  }

  // ---------------------------------------------------------------- a change of protocol

  /** With the last byte of such a response the parser leaves, and not before. */
  lemma ReplySwitchRead(s: State, r: Reply)
    requires ReplyIdle(s) && s.core.conf.reply == 0 && PrintableReply(r) && Switches(r)
    ensures LeavesBehind(s, PrintReply(r))
  {
    hide Step, Run, AtHeader, Allowed, ReplyIdle, ReplyText, ContentText, Framable, LengthFor, Settled, Leaves,
        Persistent, ReplyFlags, ReplyHeadEvents, EventsOfReply, EndsThere, Usual;
    assert !Unbounded(r);
    ReplyRead(s, r);
    VerbKept(s);
    var x := CRLF + ContentText(r.content);
    var y := x[..|x| - 1];
    LastByteOfReply(r, x);
    assert x[0] == CR;
    var t, g := ReplyHeadRead(s, r, y);
    Statuses(r, g);
    ContentUnread(t, g, ReplyFlags(r), r.content);
  }

  lemma LastByteOfReply(r: Reply, rest: string)
    requires rest != ""
    ensures var x := ReplyText(r, rest); x != "" && x[..|x| - 1] == ReplyText(r, rest[..|rest| - 1])
  {
    hide StatusText, LinesText, FramingText;
    var y, c := rest[..|rest| - 1], [rest[|rest| - 1]];
    assert rest == y + c;
    Assoc(LinesText(r.more), y, c);
    Assoc(FramingText(r.content), LinesText(r.more) + y, c);
    Assoc(LinesText(r.lines), FramingText(r.content) + (LinesText(r.more) + y), c);
    Assoc(StatusText(r), LinesText(r.lines) + (FramingText(r.content) + (LinesText(r.more) + y)), c);
    assert ReplyText(r, rest) == ReplyText(r, y) + c;
  }

  lemma {:induction false} RepliesUnread(s: State, rs: seq<Reply>)
    requires ReadyForReplies(s) && Sequence(rs) && LastSwitches(rs)
    ensures LeavesBehind(s, PrintReplies(rs))
    decreases |rs|
  {
    hide Step, Run, PrintableReply, PrintReply, Stays, Switches, Unbounded, Reports;
    var x, y := PrintReply(rs[0]), PrintReplies(rs[1..]);
    if |rs| == 1 {
      assert x + y == x;
      ReplySwitchRead(s, rs[0]);
    } else {
      ReplyRead(s, rs[0]);
      RepliesUnread(Run(s, x), rs[1..]);
      assert (x + y)[..|x + y| - 1] == x + y[..|y| - 1];
      RunConcat(s, x, y[..|y| - 1]);
      RunConcat(s, x, y);
    }
  }

  /** A connection whose last response changes to another protocol, such as the answer that a WebSocket client
      waits for: the rest of the buffer is left to that protocol. */
  method ReadReplySwitch(parser: P.HttpParser, pieces: seq<string>, last: string, ghost rs: seq<Reply>,
                         ghost rest: string) returns (ok: bool, n: nat, left: bool)
    requires parser.Valid() && ReadyForReplies(parser.Contents())
    requires SmallSequence(rs, parser.max) && LastSwitches(rs)
    requires forall i :: 0 <= i < |pieces| ==> pieces[i] != ""
    requires Join(pieces) + last == PrintReplies(rs) + rest && |rest| < |last|
    modifies parser
    ensures ok && left && n == |last| - |rest| && parser.core.errno == OK
    ensures P.Merged(parser.calls) == old(parser.Contents().events) + EventsOfReplies(rs)
  {
    hide Step, Sequence, SmallReply, EventsOfReplies, Within, PrintReplies, LeavesBehind, AfterReply;
    IdleRuns(parser.Contents());
    RepliesUnread(parser.Contents(), rs);
    RepliesRead(parser.Contents(), rs);
    RepliesWithin(parser.Contents(), rs, parser.max);
    ok, n, left := ReadUntilLeft(parser, pieces, last, PrintReplies(rs), rest);
  }
}
