/** Whole requests as HttpMessage.cpp and HttpResponseWriter.h print them, read back by the parser:
    one after another on a connection that is kept alive, cut into reads in any way. */
module HttpMessages {
  import opened HttpChars
  import opened Options
  import opened HttpStep
  import opened HttpTrace
  import opened HttpInvariant
  import opened HttpWords
  import opened HttpMethods
  import opened HttpNumbers
  import opened HttpBody
  import opened HttpTargets
  import opened HttpLines
  import opened HttpOptions
  import opened Folding

  /** No body and no header about one, a body of known length, or a body in chunks. */
  datatype Content = Bare | Whole(body: string) | InChunks(parts: seq<string>)

  /** The version is given by its two digits. The header about the body stands anywhere: behind `lines` and
      before `more`. */
  datatype Message = Message(verb: Method, path: string, major: char, minor: char, lines: seq<Line>, content: Content,
                             more: seq<Line>)

  predicate Allowed(h: Line) {
    OtherHeader(h) || ConnectionHeader(h) || UpgradeHeader(h)
  }

  ghost predicate Printable(r: Message) {
    && (if r.verb == CONNECT then ConnectText(r.path) && r.content.Bare? else UrlText(r.path))
    && IsNum(r.major) && IsNum(r.minor)
    && (forall i :: 0 <= i < |r.lines| ==> Allowed(r.lines[i]))
    && (forall i :: 0 <= i < |r.more| ==> Allowed(r.more[i]))
    && Framable(r.content)
  }

  /** What a header does to the flags. */
  function LineFlags(f: Flags, h: Line): Flags {
    if h.value == "" then f
    else match Recognised(Lowered(h.name))
      case Connection => OptionFlags(f, h.value)
      case Upgrade => f.(upgrade := true)
      case _ => f
  }

  function LinesFlags(f: Flags, lines: seq<Line>): Flags
    decreases |lines|
  {
    if lines == [] then f else LinesFlags(LineFlags(f, lines[0]), lines[1..])
  }

  /** What the header about the body does to the flags. */
  function Framed(f: Flags, content: Content): Flags {
    match content
    case Bare => f
    case Whole(_) => f.(contentLength := true)
    case InChunks(_) => f.(chunked := true)
  }

  /** The flags at the end of the headers. */
  function FlagsOf(r: Message): Flags {
    LinesFlags(Framed(LinesFlags(NONE, r.lines), r.content), r.more)
  }

  /** Nothing but connection options, and what the body needs. */
  predicate Settled(f: Flags, content: Content) {
    f == Framed(NONE.(keepAlive := f.keepAlive, close := f.close, connUpgrade := f.connUpgrade, upgrade := f.upgrade),
                content)
  }

  /** The sizes that the parser accepts. */
  predicate Framable(content: Content) {
    match content
    case Bare => true
    case Whole(body) => |body| / 10 <= LENGTH_LIMIT
    case InChunks(parts) => Sendable(parts)
  }

  // ---------------------------------------------------------------- printing

  function LinesText(lines: seq<Line>): string {
    if lines == [] then "" else LineText(lines[0]) + LinesText(lines[1..])
  }

  function ContentLine(content: Content): Line
    requires !content.Bare?
  {
    match content
    case Whole(body) => Line("Content-Length", ToDecimal(|body|))
    case InChunks(_) => Line("Transfer-Encoding", "chunked")
  }

  function FramingText(content: Content): string {
    if content.Bare? then "" else LineText(ContentLine(content))
  }

  function ContentText(content: Content): string {
    match content
    case Bare => ""
    case Whole(body) => body
    case InChunks(parts) => Chunks(parts) + LAST_CHUNK
  }

  function VersionText(major: char, minor: char): string {
    " HT" + ("TP/" + ([major, '.', minor] + CRLF))
  }

  function StartText(r: Message): string {
    Name(r.verb) + " " + (r.path + VersionText(r.major, r.minor))
  }

  function Print(r: Message): string {
    StartText(r)
    + (LinesText(r.lines) + (FramingText(r.content) + (LinesText(r.more) + (CRLF + ContentText(r.content)))))
  }

  // ---------------------------------------------------------------- what the callbacks should see

  function LinesEvents(lines: seq<Line>): seq<Event> {
    if lines == [] then [] else LineEvents(lines[0]) + LinesEvents(lines[1..])
  }

  function FramingEvents(content: Content): seq<Event> {
    if content.Bare? then [] else LineEvents(ContentLine(content))
  }

  function ContentEvents(content: Content): seq<Event> {
    match content
    case Bare => [MessageComplete]
    case Whole(body) => (if body == "" then [] else [Data(Body, body)]) + [MessageComplete]
    case InChunks(parts) => ChunksEvents(parts) + [ChunkHeader(0), ChunkComplete, MessageComplete]
  }

  function EventsOf(r: Message): seq<Event> {
    [MessageBegin, Data(Url, r.path)] + LinesEvents(r.lines) + FramingEvents(r.content) + LinesEvents(r.more)
    + [HeadersComplete] + ContentEvents(r.content)
  }

  // ---------------------------------------------------------------- reading

  /** Ready for a request: between two of them, or a new parser that takes either kind of message. */
  predicate Idle(s: State) {
    && Running(s.core) && s.core.conf.reply == 0
    && ((s.core.phase == Begin(StartReq) && s.core.line.kind == Request)
        || (s.core.phase == Begin(StartReqOrRes) && s.core.line.kind == Both))
  }

  /** A parser that takes only requests. */
  function AsRequest(s: State): State {
    State(s.core.(phase := Begin(StartReq), line := s.core.line.(kind := Request)), s.events)
  }

  /** The first letters of a method tell it from a response, HEAD included. */
  lemma EitherStart(s: State, m: Method, rest: string)
    requires Idle(s)
    ensures Run(s, Name(m) + rest) == Run(AsRequest(s), Name(m) + rest)
  {
    hide Step, Run, Name;
    var t, x := AsRequest(s), Name(m) + rest;
    if s != t {
      NameStarts(m);
      var c, y := x[0], x[1..];
      assert x == [c] + y;
      RunFirst(s, c, y);
      RunFirst(t, c, y);
      if c == 'H' {
        OnlyHead(m);
        assert y == ['E'] + y[1..];
        RunFirst(Step(s, c), 'E', y[1..]);
        RunFirst(Step(t, c), 'E', y[1..]);
        HeadStart(s);
      } else {
        LetterStart(s, c);
      }
    }
  }

  lemma OnlyHead(m: Method)
    requires Name(m)[0] == 'H'
    ensures Name(m) == "HEAD"
  {
  }

  lemma LetterStart(s: State, c: char)
    requires Idle(s) && s.core.phase == Begin(StartReqOrRes) && c != 'H' && c != CR && c != LF
    ensures Step(s, c) == Step(AsRequest(s), c)
  {
    hide FirstGuess, IsAlpha;
  }

  lemma HeadStart(s: State)
    requires Idle(s) && s.core.phase == Begin(StartReqOrRes)
    ensures Step(Step(s, 'H'), 'E') == Step(Step(AsRequest(s), 'H'), 'E')
  {
    hide OnStatusLine, OnUrl, OnVersion, OnHeader, OnChunkSize, OnBody;
    assert Name(HEAD) == "HEAD";
    ApplySingle(s.events, Notify(MessageBegin), 'H');
    ApplySingle(s.events + [MessageBegin], Notify(MessageBegin), 'E');
  }

  /** What the parser should report about the first line. */
  predicate OfRequest(g: Given, r: Message)
    requires IsNum(r.major) && IsNum(r.minor)
  {
    && g.line.kind == Request && g.reply == 0 && g.line.verb == r.verb
    && g.line.major == Digit(r.major) && g.line.minor == Digit(r.minor)
  }

  lemma VersionStart(s: State, at: UrlAt)
    requires Running(s.core) && s.core.phase == Target(at) && LateUrl(at)
    ensures Run(s, " HT")
        == State(s.core.(phase := Version(ReqHT), frame := s.core.frame.(nread := s.core.frame.nread + 3)), s.events)
  {
    hide OnStart, OnStatusLine, OnMethod, OnHeader, OnChunkSize, OnBody, UrlChar;
    assert " HT" == [' ', 'H', 'T'];
    ThreeSteps(s, ' ', 'H', 'T');
    ApplySingle(s.events, Flush(Url), ' ');
  }

  lemma VersionName(s: State)
    requires Running(s.core) && s.core.phase == Version(ReqHT)
    ensures Run(s, "TP/")
        == State(s.core.(phase := Version(ReqMajor), frame := s.core.frame.(nread := s.core.frame.nread + 3)), s.events)
  {
    hide OnStart, OnStatusLine, OnMethod, OnHeader, OnChunkSize, OnBody, UrlChar;
    assert "TP/" == ['T', 'P', '/'];
    ThreeSteps(s, 'T', 'P', '/');
    ApplySingle(s.events, Flush(Url), ' ');
  }

  lemma VersionNumber(s: State, major: char, minor: char)
    requires Running(s.core) && s.core.phase == Version(ReqMajor) && IsNum(major) && IsNum(minor)
    ensures Run(s, [major, '.', minor])
         == State(s.core.(phase := Version(ReqEnd),
                          line := s.core.line.(major := Digit(major), minor := Digit(minor)),
                          frame := s.core.frame.(nread := s.core.frame.nread + 3)), s.events)
  {
    hide Step;
    ThreeSteps(s, major, '.', minor);
    Major(s, major);
    Minor(Step(s, major), minor);
  }

  lemma Major(s: State, c: char)
    requires Running(s.core) && s.core.phase == Version(ReqMajor) && IsNum(c)
    ensures Step(s, c) == State(s.core.(phase := Version(ReqDot), line := s.core.line.(major := Digit(c)),
                                        frame := s.core.frame.(nread := s.core.frame.nread + 1)), s.events)
  {
  }

  lemma Minor(s: State, c: char)
    requires Running(s.core) && s.core.phase == Version(ReqDot) && IsNum(c)
    ensures Step(Step(s, '.'), c)
         == State(s.core.(phase := Version(ReqEnd), line := s.core.line.(minor := Digit(c)),
                          frame := s.core.frame.(nread := s.core.frame.nread + 2)), s.events)
  {
    hide OnStart, OnStatusLine, OnMethod, OnUrl, OnHeader, OnChunkSize, OnBody;
  }

  lemma VersionEnd(s: State)
    requires Running(s.core) && s.core.phase == Version(ReqEnd)
    ensures Run(s, CRLF)
        == State(s.core.(phase := Heading(HeaderFieldStart), frame := s.core.frame.(nread := s.core.frame.nread + 2)),
          s.events)
  {
    hide Step;
    assert CRLF == [CR] + [LF];
    RunFirst(s, CR, [LF]);
    RunOne(Step(s, CR), LF);
    VersionCr(s);
    VersionLf(Step(s, CR));
  }

  lemma VersionCr(s: State)
    requires Running(s.core) && s.core.phase == Version(ReqEnd)
    ensures Step(s, CR) == State(Moved(s.core, Version(ReqLineAlmostDone), s.core.name, 1), s.events)
  {
  }

  lemma VersionLf(s: State)
    requires Running(s.core) && s.core.phase == Version(ReqLineAlmostDone)
    ensures Step(s, LF) == State(Moved(s.core, Heading(HeaderFieldStart), s.core.name, 1), s.events)
  {
  }

  lemma VersionRun(s: State, at: UrlAt, major: char, minor: char)
    requires Running(s.core) && s.core.phase == Target(at) && LateUrl(at) && IsNum(major) && IsNum(minor)
    ensures Run(s, VersionText(major, minor))
         == State(s.core.(phase := Heading(HeaderFieldStart),
                          line := s.core.line.(major := Digit(major), minor := Digit(minor)),
                          frame := s.core.frame.(nread := s.core.frame.nread + 11)), s.events)
  {
    hide Step, Run, LateUrl;
    var v := [major, '.', minor];
    RunConcat(s, " HT", "TP/" + (v + CRLF));
    VersionStart(s, at);
    var t := Run(s, " HT");
    RunConcat(t, "TP/", v + CRLF);
    VersionName(t);
    RunConcat(Run(t, "TP/"), v, CRLF);
    VersionNumber(Run(t, "TP/"), major, minor);
    VersionEnd(Run(Run(t, "TP/"), v));
  }

  /** The target, whatever the method. */
  lemma TargetRun(s: State, r: Message) returns (at: UrlAt)
    requires Printable(r) && Running(s.core) && s.core.phase == Target(ReqSpacesBeforeUrl) && s.core.line.verb == r.verb
    ensures LateUrl(at) && r.path != ""
    ensures Run(s, r.path)
         == State(s.core.(phase := Target(at), frame := s.core.frame.(nread := s.core.frame.nread + |r.path|)),
                  Emit(s.events, Url, r.path))
  {
    hide Step, Run, Emit, UrlText, UrlFold, Allowed, Framable;
    if r.verb == CONNECT {
      at := ConnectRun(s, r.path);
    } else {
      UrlAccepted(r.path);
      UrlRun(s, ReqSpacesBeforeUrl, r.path);
      at := UrlFold(ReqSpacesBeforeUrl, r.path).value;
    }
  }

  /** The request line. */
  lemma StartRun(s: State, r: Message)
    requires Idle(s) && Printable(r)
    ensures var t := Run(s, StartText(r));
            && AtHeader(t, GivenBy(t), NONE, ABSENT) && OfRequest(GivenBy(t), r)
            && t.events == s.events + [MessageBegin, Data(Url, r.path)]
  {
    hide Step, Name, Framable, Allowed, UrlText, ConnectText, Emit, VersionText, Run, LateUrl;
    var q := Name(r.verb);
    var rest := r.path + VersionText(r.major, r.minor);
    var s' := AsRequest(s);
    assert q + " " + rest == q + (" " + rest);
    EitherStart(s, r.verb, " " + rest);
    NameStarts(r.verb);
    MethodExact(s', q);
    NamesDiffer(s', r.verb);
    RunConcat(s', q + " ", rest);
    var t1 := Run(s', q + " ");
    RunConcat(t1, r.path, VersionText(r.major, r.minor));
    var at := TargetRun(t1, r);
    VersionRun(Run(t1, r.path), at, r.major, r.minor);
    EmitAfter(s.events, MessageBegin, Url, r.path);
  }

  lemma NameStarts(m: Method)
    ensures Name(m) != "" && Name(m)[0] != CR && Name(m)[0] != LF && ' ' !in Name(m)
  {
    FirstLetterFits(m);
    forall i | 0 <= i < |Name(m)|
      ensures Name(m)[i] != ' '
    {
      Letters(m, i);
    }
  }

  /** What the method and the blank behind it leave behind. */
  lemma NamesDiffer(s: State, m: Method)
    requires Running(s.core) && s.core.phase == Begin(StartReq)
    ensures var n := |Name(m)|;
            Run(s, Name(m) + " ")
              == State(Indexed(Counted(InName(s.core, m, n)), n + 1).(phase := Target(ReqSpacesBeforeUrl)),
                                           s.events + [MessageBegin])
  {
    hide Name, Step, GuessAt;
    GuessAtEnd(m);
    assert Name(m)[..|Name(m)|] == Name(m);
    MethodComplete(s, m, |Name(m)|);
    RunLast(s, Name(m), ' ');
    BlankStep(Run(s, Name(m)));
  }

  // ---------------------------------------------------------------- framing headers

  lemma FramingNames()
    ensures Tokens("Content-Length") && Recognised(Lowered("Content-Length")) == ContentLength
    ensures Tokens("Transfer-Encoding") && Recognised(Lowered("Transfer-Encoding")) == TransferEncoding
  {
    hide Recognised, Lowered, Token;
    LengthName();
    EncodingName();
  }

  lemma LengthName()
    ensures Tokens("Content-Length") && Recognised(Lowered("Content-Length")) == ContentLength
  {
    assert Lowered("Content-Length") == "content-length";
  }

  lemma EncodingName()
    ensures Tokens("Transfer-Encoding") && Recognised(Lowered("Transfer-Encoding")) == TransferEncoding
  {
    assert Lowered("Transfer-Encoding") == "transfer-encoding";
  }

  lemma LengthFirst(s: State, g: Given, f: Flags, c: char)
    requires AtValue(s, g, f, ABSENT, ContentLength) && IsNum(c) && !f.contentLength
    ensures InValue(Step(s, c), g, f.(contentLength := true), Digit(c), ContentLengthNum)
    ensures Step(s, c).events == Emit(s.events, Value, [c])
  {
    hide Step, Lower;
    ValueFirst(s, c);
  }

  lemma LengthRest(s: State, g: Given, f: Flags, n: nat, d: string)
    requires InValue(s, g, f, n, ContentLengthNum) && Digits(d)
    requires d != "" ==> Decimal(n, d[..|d| - 1]) <= LENGTH_LIMIT
    ensures InValue(Run(s, d), g, f, Decimal(n, d), ContentLengthNum)
    ensures Run(s, d).events == if d == "" then s.events else Emit(s.events, Value, d)
  {
    hide Step;
    LengthRun(s, d);
  }

  /** The value of Content-Length. */
  lemma LengthValue(s: State, g: Given, f: Flags, n: nat)
    requires AtValue(s, g, f, ABSENT, ContentLength) && n / 10 <= LENGTH_LIMIT && !f.contentLength
    ensures var t := Run(s, ToDecimal(n));
            && InValue(t, g, f.(contentLength := true), n, ContentLengthNum)
            && t.events == Emit(s.events, Value, ToDecimal(n))
  {
    hide Step, Emit, InValue, AtValue, Decimal, ToDecimal, Digit;
    var d := ToDecimal(n);
    assert d == [d[0]] + d[1..];
    RunFirst(s, d[0], d[1..]);
    DecimalRoundTrip(n);
    DecimalTail(d);
    LengthFirst(s, g, f, d[0]);
    LengthRest(Step(s, d[0]), g, f.(contentLength := true), Digit(d[0]), d[1..]);
    EmitTwice(s.events, Value, [d[0]], d[1..]);
    if d[1..] == "" {
      assert d == [d[0]];
    }
  }

  /** A value that is compared with a word, which header it belongs to, and the states meanwhile and at the
      end. */
  predicate Word(word: string, of: Header, going: Header, complete: Header) {
    word == "chunked" && of == TransferEncoding && going == MatchChunked && complete == Chunked
  }

  /** Behind `k + 1` letters of the word. */
  predicate InWord(s: State, g: Given, f: Flags, n: nat, word: string, going: Header, complete: Header, k: nat) {
    && InValue(s, g, f, n, if k == |word| - 1 then complete else going) && (k < |word| - 1 ==> s.core.name.index == k)
  }

  lemma WordFirst(s: State, g: Given, f: Flags, n: nat, word: string, of: Header, going: Header, complete: Header,
                  c: char)
    requires Word(word, of, going, complete) && AtValue(s, g, f, n, of) && Lower(c) == word[0]
    requires c != CR && c != LF && !Blank(c)
    ensures InWord(Step(s, c), g, f, n, word, going, complete, 0) && Step(s, c).events == Emit(s.events, Value, [c])
  {
    hide Step, Lower;
    ValueFirst(s, c);
  }

  lemma WordNext(s: State, g: Given, f: Flags, n: nat, word: string, of: Header, going: Header, complete: Header,
                 k: nat, c: char)
    requires Word(word, of, going, complete) && k < |word| - 1 && InWord(s, g, f, n, word, going, complete, k)
    requires Lower(c) == word[k + 1] && c != CR && c != LF && IsHeaderChar(c)
    ensures InWord(Step(s, c), g, f, n, word, going, complete, k + 1)
    ensures Step(s, c).events == Emit(s.events, Value, [c])
  {
    hide Step, Lower, IsHeaderChar;
    ValueStep(s, c);
  }

  lemma LowersLast(r: string, c: char, word: string)
    requires |r| < |word| && Lowers(r + [c]) == word[..|r| + 1] && Plain(r + [c])
    ensures Lowers(r) == word[..|r|] && Lower(c) == word[|r|] && Plain(r) && c != CR && c != LF && IsHeaderChar(c)
    ensures r != "" ==> (r + [c])[0] == r[0]
  {
    hide Lower, IsHeaderChar;
    assert Lowers(r + [c]) == Lowers(r) + [Lower(c)];
    assert forall i :: 0 <= i < |r| ==> (r + [c])[i] == r[i];
  }

  lemma {:induction false} WordRun(s: State, g: Given, f: Flags, n: nat, word: string, of: Header, going: Header,
                                   complete: Header, x: string)
    requires Word(word, of, going, complete) && AtValue(s, g, f, n, of)
    requires 1 <= |x| <= |word| && Lowers(x) == word[..|x|] && Plain(x) && !Blank(x[0])
    ensures InWord(Run(s, x), g, f, n, word, going, complete, |x| - 1) && Run(s, x).events == Emit(s.events, Value, x)
  {
    hide Step, Emit, InWord, AtValue, Lower, Lowers, IsHeaderChar, Word, Plain;
    var r, c := x[..|x| - 1], x[|x| - 1];
    assert x == r + [c];
    LowersLast(r, c, word);
    RunLast(s, r, c);
    if r == "" {
      WordFirst(s, g, f, n, word, of, going, complete, c);
    } else {
      WordRun(s, g, f, n, word, of, going, complete, r);
      WordNext(Run(s, r), g, f, n, word, of, going, complete, |r| - 1, c);
      EmitTwice(s.events, Value, r, [c]);
    }
  }

  function LengthFor(content: Content): nat {
    match content
    case Whole(body) => |body|
    case _ => ABSENT
  }

  /** The length behind the header about the body. */
  function LengthNow(n: nat, content: Content): nat {
    if content.Whole? then |content.body| else n
  }

  lemma FramingValue(s: State, g: Given, f: Flags, n: nat, content: Content, h: Header) returns (h': Header)
    requires !content.Bare? && AtValue(s, g, f, n, h)
    requires h == if content.Whole? then ContentLength else TransferEncoding
    requires content.Whole? ==> |content.body| / 10 <= LENGTH_LIMIT && !f.contentLength && n == ABSENT
    ensures var t := Run(s, ContentLine(content).value);
            && t.events == Emit(s.events, Value, ContentLine(content).value)
            && (if content.Whole? then
                  h' == ContentLengthNum && InValue(t, g, f.(contentLength := true), |content.body|, h')
                else h' == Chunked && InValue(t, g, f, n, h'))
  {
    hide Step, Emit, InValue, AtValue, ToDecimal;
    if content.Whole? {
      LengthValue(s, g, f, |content.body|);
      h' := ContentLengthNum;
    } else {
      assert Lowers("chunked") == "chunked" == "chunked"[..7];
      WordRun(s, g, f, n, "chunked", TransferEncoding, MatchChunked, Chunked, "chunked");
      h' := Chunked;
    }
  }

  /** The framing header is understood: its value becomes the flag and the length. */
  lemma FramingLine(s: State, g: Given, f: Flags, n: nat, content: Content, rest: string) returns (t: State)
    requires AtHeader(s, g, f, n) && rest != "" && !Blank(rest[0]) && !content.Bare?
    requires content.Whole? ==> |content.body| / 10 <= LENGTH_LIMIT && !f.contentLength && n == ABSENT
    ensures Run(s, LineText(ContentLine(content)) + rest) == Run(t, rest)
    ensures AtHeader(t, g, Framed(f, content), LengthNow(n, content))
    ensures t.events == s.events + LineEvents(ContentLine(content))
  {
    hide Step, Emit, InValue, AtValue, AtHeader, ToDecimal, Recognised, Lowered, Tokens, LineText;
    var h := ContentLine(content);
    FramingNames();
    LineSplit(s, h, rest);
    NameAndBlank(s, g, f, n, h.name);
    var t1 := Run(s, h.name + ":" + " ");
    var h' := FramingValue(t1, g, f, n, content, t1.core.name.header);
    EmitValue(s.events, h.name, h.value);
    t := LineEnd(Run(t1, h.value), g, if content.Whole? then f.(contentLength := true) else f, LengthNow(n, content),
                 h', rest);
  }

  // ---------------------------------------------------------------- end of the headers

  /** Section 6.3 of RFC 7230: whether the connection stays after this message. */
  predicate Persistent(l: StartLine, f: Flags) {
    if l.major > 0 && l.minor > 0 then !f.close else f.keepAlive
  }

  /** A response without a header about its body ends with the connection, unless its status says that there
      is no body. */
  predicate UntilEof(l: StartLine) {
    l.kind != Request && !(100 <= l.status < 200) && l.status != 204 && l.status != 304
  }

  /** Section 6.7 of RFC 7230: whether the connection changes to another protocol behind this message. That
      takes both headers, in a request or in a response with status 101; or a CONNECT request. */
  predicate Leaves(l: StartLine, f: Flags) {
    if f.upgrade && f.connUpgrade then l.kind == Request || l.status == 101 else l.verb == CONNECT
  }

  /** Behind a complete message: at the start of the next one, or where nothing may follow; or the parser has
      left for another protocol. */
  predicate Ended(s: State, g: Given, f: Flags) {
    && s.core.errno == OK && s.core.left == Leaves(g.line, f) && InMessage(s.core, g)
    && s.core.phase == Begin(if !Persistent(g.line, f) then Dead else if g.line.kind == Request then StartReq
      else StartRes)
  }

  /** Whether the message is complete at the blank line: the application says that there is no body, or there is
      none, or the rest is another protocol. */
  predicate EndsThere(g: Given, f: Flags, content: Content) {
    || g.reply > 0 || content == Whole("") || (content.Bare? && !UntilEof(g.line))
    || (Leaves(g.line, f) && (content.Bare? || g.line.verb == CONNECT))
  }

  function BodyPhase(content: Content): Phase {
    match content
    case Bare => Payload(BodyIdentityEof)
    case Whole(_) => Payload(BodyIdentity)
    case InChunks(_) => Chunking(ChunkSizeStart)
  }

  /** The parser behind the blank line. */
  predicate BehindBlank(t: State, g: Given, f: Flags, content: Content, before: seq<Event>) {
    && t.core.errno == OK && InMessage(t.core, g) && t.core.upgrade == Leaves(g.line, f)
    && t.core.frame == Framing(f.(skipBody := g.reply > 0), LengthFor(content), 0)
    && (if EndsThere(g, f, content) then Ended(t, g, f) && t.events == before + [HeadersComplete, MessageComplete]
        else !t.core.left && t.core.phase == BodyPhase(content) && t.events == before + [HeadersComplete])
  }

  /** No CONNECT response; and the application does not ask for another protocol. */
  predicate Usual(g: Given) {
    (g.line.verb == CONNECT ==> g.line.kind == Request) && g.reply <= 1
  }

  /** What the parser knows when it decides how the message goes on. */
  predicate AtDecision(s: Core, g: Given, f: Flags, content: Content) {
    && Running(s) && InMessage(s, g) && s.upgrade == Leaves(g.line, f)
    && s.frame == Framing(f.(skipBody := g.reply > 0), LengthFor(content), 0)
  }

  lemma Decides(s: Core, g: Given, content: Content)
    requires Running(s) && InMessage(s, g) && Usual(g) && !s.frame.flags.skipBody
        && s.frame.length == LengthFor(content)
    ensures AtDecision(Decided(s), g, s.frame.flags, content)
  {
  }

  lemma DecisionEnds(s: Core, g: Given, f: Flags, content: Content)
    requires AtDecision(s, g, f, content) && Settled(f, content) && EndsThere(g, f, content) && Usual(g)
    ensures var o := OnHeadersDone(s);
            && o.acts == [Notify(MessageComplete)] && Ended(State(o.core, []), g, f)
            && o.core.upgrade == s.upgrade && o.core.frame == s.frame
  {
    hide NewMessage, Persistent;
    Again(s, g, f);
  }

  lemma DecisionGoesOn(s: Core, g: Given, f: Flags, content: Content)
    requires AtDecision(s, g, f, content) && Settled(f, content) && !EndsThere(g, f, content) && Usual(g)
    requires content.Whole? ==> |content.body| < ABSENT
    ensures OnHeadersDone(s) == Out(s.(phase := BodyPhase(content)), [])
  {
    hide NewMessage;
  }

  lemma DoneStep(s: State)
    requires Running(s.core) && s.core.phase == Heading(HeadersAlmostDone) && !s.core.frame.flags.trailing
    requires !s.core.frame.flags.chunked || !s.core.frame.flags.contentLength
    ensures var o := OnHeadersDone(Decided(Counted(s.core)));
            Step(s, LF) == State(o.core, Apply(s.events, [Notify(HeadersComplete)] + o.acts, LF))
  {
    hide OnHeadersDone, Decided, OnStart, OnStatusLine, OnMethod, OnUrl, OnVersion, OnChunkSize, OnBody, OnFieldStart,
        OnValueStart;
  }

  /** The line feed of the blank line. */
  lemma HeadersEndLf(s: State, g: Given, content: Content)
    requires Running(s.core) && s.core.phase == Heading(HeadersAlmostDone) && InMessage(s.core, g) && Usual(g)
    requires Settled(s.core.frame.flags, content) && s.core.frame.length == LengthFor(content)
    requires content.Whole? ==> |content.body| < ABSENT
    ensures BehindBlank(Step(s, LF), g, s.core.frame.flags, content, s.events)
  {
    hide Step, OnHeadersDone, Decided, EndsThere, Usual, Leaves, Persistent;
    var f := s.core.frame.flags;
    DoneStep(s);
    DoneActs(s.events);
    Decides(Counted(s.core), g, content);
    var d := Decided(Counted(s.core));
    if EndsThere(g, f, content) {
      DecisionEnds(d, g, f, content);
    } else {
      DecisionGoesOn(d, g, f, content);
    }
  }

  lemma DoneActs(events: seq<Event>)
    ensures Apply(events, [Notify(HeadersComplete)] + [Notify(MessageComplete)], LF)
         == events + [HeadersComplete, MessageComplete]
    ensures Apply(events, [Notify(HeadersComplete)] + [], LF) == events + [HeadersComplete]
  {
    TwoActs(events, Notify(HeadersComplete), Notify(MessageComplete), LF);
    ApplySingle(events, Notify(HeadersComplete), LF);
    assert [Notify(HeadersComplete)] + [Notify(MessageComplete)] == [Notify(HeadersComplete), Notify(MessageComplete)];
    assert [Notify(HeadersComplete)] + [] == [Notify(HeadersComplete)];
    assert events + [HeadersComplete] + [MessageComplete] == events + [HeadersComplete, MessageComplete];
  }

  /** The parser waits for the next message exactly if the connection is persistent. */
  lemma Again(s: Core, g: Given, f: Flags)
    requires InMessage(s, g) && s.frame.flags.close == f.close && s.frame.flags.keepAlive == f.keepAlive
    requires UntilEof(g.line) ==> s.frame.flags.skipBody || s.frame.flags.chunked || s.frame.length != ABSENT
    ensures NewMessage(s) == Begin(if !Persistent(g.line, f) then Dead else if g.line.kind == Request then StartReq
      else StartRes)
  {
  }

  lemma AgainDone(s: Core, g: Given, f: Flags)
    requires Running(s) && InMessage(s, g) && s.frame.flags.close == f.close && s.frame.flags.keepAlive == f.keepAlive
    requires s.upgrade == Leaves(g.line, f) && (s.frame.flags.chunked || s.frame.length != ABSENT)
    ensures Ended(State(OnMessageDone(s).core, []), g, f) && OnMessageDone(s).core.frame.nread == s.frame.nread
  {
    hide NewMessage, Leaves;
    Again(s, g, f);
  }

  /** Up to the line feed of the blank line. */
  lemma BlankLine(s: State, g: Given, f: Flags, content: Content, rest: string) returns (t: State)
    requires AtHeader(s, g, f, LengthFor(content)) && Usual(g) && Framable(content) && Settled(f, content)
    ensures Run(s, CRLF + rest) == Run(t, rest) && t == Run(s, CRLF) && Running(Run(s, [CR]).core)
    ensures BehindBlank(t, g, f, content, s.events)
  {
    hide Step, BehindBlank, Settled, Sendable;
    assert CRLF == [CR] + [LF];
    assert CRLF + rest == [CR] + ([LF] + rest);
    RunFirst(s, CR, [LF] + rest);
    RunFirst(s, CR, [LF]);
    RunOne(s, CR);
    HeadersEndCr(s);
    RunFirst(Step(s, CR), LF, rest);
    RunOne(Step(s, CR), LF);
    HeadersEndLf(Step(s, CR), g, content);
    t := Step(Step(s, CR), LF);
  }

  /** The body, whichever way it is framed. */
  lemma ContentRun(s: State, g: Given, f: Flags, content: Content)
    requires AtHeader(s, g, f, LengthFor(content)) && Usual(g) && g.reply == 0
    requires Framable(content) && Settled(f, content) && (content.Bare? ==> EndsThere(g, f, content))
    requires g.line.verb == CONNECT ==> content.Bare?
    ensures var t := Run(s, CRLF + ContentText(content));
            Ended(t, g, f) && t.events == s.events + [HeadersComplete] + ContentEvents(content)
            && t.core.frame.nread <= 2
  {
    hide Step, Run, OnMessageDone, Chunks, Sendable, ChunksDone, UntilEof, Persistent, Leaves;
    var t := BlankLine(s, g, f, content, ContentText(content));
    match content
    case Bare =>
      NothingRun(t);
      assert s.events + [HeadersComplete] + [MessageComplete] == s.events + [HeadersComplete, MessageComplete];
    case Whole(body) =>
      if body == "" {
        NothingRun(t);
        assert s.events + [HeadersComplete] + ([] + [MessageComplete]) == s.events + [HeadersComplete, MessageComplete];
      } else {
        BodyRun(t, body);
        EmitAfter(s.events, HeadersComplete, Body, body);
        AgainDone(Sized(t.core.(phase := Payload(MessageDone)), 0), g, f);
        assert s.events + [HeadersComplete] + ([Data(Body, body)] + [MessageComplete])
            == s.events + [HeadersComplete, Data(Body, body)] + [MessageComplete];
      }
    case InChunks(parts) =>
      ChunkedRead(t, parts);
      ChunksAgain(t.core, g, f);
      Assoc(s.events + [HeadersComplete], ChunksEvents(parts), [ChunkHeader(0), ChunkComplete, MessageComplete]);
  }

  lemma ChunksAgain(s: Core, g: Given, f: Flags)
    requires Running(s) && InMessage(s, g) && s.frame.flags == f.(skipBody := false) && f.chunked
    requires s.upgrade == Leaves(g.line, f)
    ensures Ended(State(ChunksDone(s), []), g, f) && ChunksDone(s).frame.nread == 2
  {
    hide NewMessage, Leaves;
    AgainDone(s.(phase := Payload(MessageDone), frame := Framing(s.frame.flags.(trailing := true), 0, 2)), g, f);
  }

  lemma {:induction false} LinesRun(s: State, g: Given, f: Flags, n: nat, lines: seq<Line>, rest: string)
    returns (t: State)
    requires AtHeader(s, g, f, n) && rest != "" && !Blank(rest[0])
    requires forall i :: 0 <= i < |lines| ==> Allowed(lines[i])
    ensures Run(s, LinesText(lines) + rest) == Run(t, rest)
    ensures AtHeader(t, g, LinesFlags(f, lines), n) && t.events == s.events + LinesEvents(lines)
    decreases |lines|
  {
    hide Step, Run, AtHeader, OtherHeader, ConnectionHeader, UpgradeHeader, LineText, LineEvents, LineFlags;
    if lines == [] {
      t := s;
      assert LinesText(lines) + rest == rest && s.events + [] == s.events;
    } else {
      var more := LinesText(lines[1..]) + rest;
      assert LinesText(lines) + rest == LineText(lines[0]) + more;
      LinesStart(lines[1..], rest);
      var u;
      LineKinds(f, lines[0]);
      if OtherHeader(lines[0]) {
        u := OtherLine(s, g, f, n, lines[0], more);
      } else if ConnectionHeader(lines[0]) {
        u := ConnectionLine(s, g, f, n, lines[0], more);
      } else {
        u := UpgradeLine(s, g, f, n, lines[0], more);
      }
      t := LinesRun(u, g, LineFlags(f, lines[0]), n, lines[1..], rest);
      assert s.events + LineEvents(lines[0]) + LinesEvents(lines[1..]) == s.events + LinesEvents(lines);
    }
  }

  lemma LineKinds(f: Flags, h: Line)
    ensures OtherHeader(h) ==> LineFlags(f, h) == f
    ensures ConnectionHeader(h) ==> LineFlags(f, h) == if h.value == "" then f else OptionFlags(f, h.value)
    ensures UpgradeHeader(h) ==> LineFlags(f, h) == if h.value == "" then f else f.(upgrade := true)
  {
    hide OptionFlags, Recognised, Lowered, Tokens, Plain;
  }

  /** Header lines only set connection options. */
  lemma {:induction false} LinesSettled(f: Flags, lines: seq<Line>, content: Content)
    requires Settled(f, content)
    ensures Settled(LinesFlags(f, lines), content)
    decreases |lines|
  {
    hide OptionFlags, Recognised, Lowered;
    if lines != [] {
      OptionsOnly(f, lines[0].value);
      LinesSettled(LineFlags(f, lines[0]), lines[1..], content);
    }
  }

  lemma AllowedStarts(h: Line)
    requires Allowed(h)
    ensures h.name != "" && !Blank(h.name[0])
  {
    hide Recognised, Lowered, Plain, Lowers;
    assert Token(h.name[0]) != NUL;
  }

  lemma LinesStart(lines: seq<Line>, rest: string)
    requires rest != "" && !Blank(rest[0]) && forall i :: 0 <= i < |lines| ==> Allowed(lines[i])
    ensures LinesText(lines) + rest != "" && !Blank((LinesText(lines) + rest)[0])
  {
    hide Allowed;
    if lines == [] {
      assert LinesText(lines) + rest == rest;
    } else {
      AllowedStarts(lines[0]);
      assert (LinesText(lines) + rest)[0] == lines[0].name[0];
    }
  }

  /** The header about the body, if there is one. */
  lemma FramingRun(s: State, g: Given, f: Flags, content: Content, rest: string) returns (t: State)
    requires AtHeader(s, g, f, ABSENT) && !f.contentLength && rest != "" && !Blank(rest[0]) && Framable(content)
    ensures Run(s, FramingText(content) + rest) == Run(t, rest)
    ensures AtHeader(t, g, Framed(f, content), LengthFor(content)) && t.events == s.events + FramingEvents(content)
  {
    hide Step, AtHeader, LineText, LineEvents;
    if content.Bare? {
      t := s;
      assert "" + rest == rest && s.events + [] == s.events;
    } else {
      t := FramingLine(s, g, f, ABSENT, content, rest);
    }
  }

  lemma FramingStart(content: Content, rest: string)
    requires rest != "" && !Blank(rest[0])
    ensures FramingText(content) + rest != "" && !Blank((FramingText(content) + rest)[0])
  {
    if content.Bare? {
      assert "" + rest == rest;
    }
  }

  /** A printed request up to the blank line, followed by `rest`. */
  function HeadText(r: Message, rest: string): string {
    StartText(r) + (LinesText(r.lines) + (FramingText(r.content) + (LinesText(r.more) + rest)))
  }

  /** The callbacks up to the blank line. */
  function HeadEvents(r: Message): seq<Event> {
    [MessageBegin, Data(Url, r.path)] + LinesEvents(r.lines) + FramingEvents(r.content) + LinesEvents(r.more)
  }

  lemma HeadRead(s: State, r: Message, rest: string) returns (t: State, g: Given)
    requires Idle(s) && Printable(r) && rest != "" && !Blank(rest[0])
    ensures Run(s, HeadText(r, rest)) == Run(t, rest)
    ensures AtHeader(t, g, FlagsOf(r), LengthFor(r.content)) && Settled(FlagsOf(r), r.content) && OfRequest(g, r)
    ensures t.events == s.events + HeadEvents(r)
  {
    hide Step, AtHeader, Allowed, StartText, ContentText, ContentEvents, Idle, LinesText, LinesEvents, FramingText,
        FramingEvents, Framable, LinesFlags, LengthFor, UrlText;
    var tail := LinesText(r.more) + rest;
    LinesStart(r.more, rest);
    FramingStart(r.content, tail);
    RunConcat(s, StartText(r), LinesText(r.lines) + (FramingText(r.content) + tail));
    StartRun(s, r);
    g := GivenBy(Run(s, StartText(r)));
    var t1 := LinesRun(Run(s, StartText(r)), g, NONE, ABSENT, r.lines, FramingText(r.content) + tail);
    var f := LinesFlags(NONE, r.lines);
    LinesSettled(NONE, r.lines, Bare);
    var t2 := FramingRun(t1, g, f, r.content, tail);
    t := LinesRun(t2, g, Framed(f, r.content), LengthFor(r.content), r.more, rest);
    LinesSettled(Framed(f, r.content), r.more, r.content);
    Gathered(s.events, [MessageBegin, Data(Url, r.path)], LinesEvents(r.lines), FramingEvents(r.content),
             LinesEvents(r.more));
  }

  /** Whether another request may follow this one: not behind `Connection: close`, nor, before HTTP/1.1, without
      `Connection: keep-alive`. */
  predicate Stays(r: Message) {
    if r.major != '0' && r.minor != '0' then !FlagsOf(r).close else FlagsOf(r).keepAlive
  }

  /** Whether another protocol follows this request: it asks for one, in both headers, or it is CONNECT. */
  predicate Switches(r: Message) {
    (FlagsOf(r).upgrade && FlagsOf(r).connUpgrade) || r.verb == CONNECT
  }

  /** Where the parser is behind a request: at the start of the next, or where nothing may follow, or out of
      HTTP. */
  predicate Between(s: State, stays: bool, switches: bool) {
    && s.core.errno == OK && s.core.phase == Begin(if stays then StartReq else Dead) && s.core.left == switches
    && s.core.line.kind == Request && s.core.conf.reply == 0
  }

  /** A printed request is read back: the callbacks report its path, its headers in order, and its
      body, the message is complete once, and the parser is ready for the next request, if the connection is
      persistent and does not change its protocol. */
  lemma RequestRead(s: State, r: Message)
    requires Idle(s) && Printable(r)
    ensures Between(Run(s, Print(r)), Stays(r), Switches(r)) && Run(s, Print(r)).events == s.events + EventsOf(r)
    ensures Run(s, Print(r)).core.frame.nread <= 2
  {
    hide Step, Run, AtHeader, Allowed, StartText, ContentText, ContentEvents, Idle, LinesText, LinesEvents, FramingText,
        FramingEvents, Framable, LinesFlags, LengthFor, UrlText, ConnectText, Settled, Leaves, Persistent, FlagsOf;
    var t, g := HeadRead(s, r, CRLF + ContentText(r.content));
    RequestEnds(g, r);
    ContentRun(t, g, FlagsOf(r), r.content);
    Assoc(s.events, HeadEvents(r), [HeadersComplete]);
    Assoc(s.events, HeadEvents(r) + [HeadersComplete], ContentEvents(r.content));
  }

  lemma RequestEnds(g: Given, r: Message)
    requires IsNum(r.major) && IsNum(r.minor) && OfRequest(g, r)
    ensures Usual(g) && g.reply == 0 && g.line.kind == Request
        && (r.content.Bare? ==> EndsThere(g, FlagsOf(r), r.content))
    ensures Persistent(g.line, FlagsOf(r)) == Stays(r) && Leaves(g.line, FlagsOf(r)) == Switches(r)
  {
    hide FlagsOf;
  }

  /** With the last byte of the request the parser leaves, and not before: the rest belongs to the other
      protocol. */
  lemma SwitchRead(s: State, r: Message)
    requires Idle(s) && Printable(r) && Switches(r)
    ensures var x := Print(r);
            && x != "" && Running(Run(s, x[..|x| - 1]).core)
            && Run(s, x).core.left && Run(s, x).core.errno == OK
  {
    hide Step, Run, AtHeader, Allowed, Idle, HeadText, ContentText, Framable, LengthFor, UrlText, ConnectText,
        Settled, Leaves, Persistent, FlagsOf, HeadEvents, EventsOf, EndsThere, Usual;
    RequestRead(s, r);
    var x := CRLF + ContentText(r.content);
    var y := x[..|x| - 1];
    LastByte(r, x);
    assert x[0] == CR;
    var t, g := HeadRead(s, r, y);
    RequestEnds(g, r);
    HeadOnly(r);
    ContentUnread(t, g, FlagsOf(r), r.content);
  }

  lemma HeadOnly(r: Message)
    ensures Print(r) == HeadText(r, CRLF + ContentText(r.content))
  {
    hide StartText, LinesText, FramingText, ContentText;
  }

  lemma LastByte(r: Message, rest: string)
    requires rest != ""
    ensures var x := HeadText(r, rest); x != "" && x[..|x| - 1] == HeadText(r, rest[..|rest| - 1])
  {
    hide StartText, LinesText, FramingText;
    var y, c := rest[..|rest| - 1], [rest[|rest| - 1]];
    assert rest == y + c;
    Assoc(LinesText(r.more), y, c);
    Assoc(FramingText(r.content), LinesText(r.more) + y, c);
    Assoc(LinesText(r.lines), FramingText(r.content) + (LinesText(r.more) + y), c);
    Assoc(StartText(r), LinesText(r.lines) + (FramingText(r.content) + (LinesText(r.more) + y)), c);
    assert HeadText(r, rest) == HeadText(r, y) + c;
  }

  /** The blank line and the body without the last byte. */
  lemma ContentUnread(s: State, g: Given, f: Flags, content: Content)
    requires AtHeader(s, g, f, LengthFor(content)) && Usual(g) && g.reply == 0
    requires Framable(content) && Settled(f, content) && (g.line.verb == CONNECT ==> content.Bare?)
    ensures var x := CRLF + ContentText(content); Running(Run(s, x[..|x| - 1]).core)
  {
    hide Step, Run, Chunks, UntilEof, Persistent, Leaves, Usual, AtHeader, Sendable;
    var body := ContentText(content);
    assert CRLF == [CR] + [LF];
    if body == "" {
      var t := BlankLine(s, g, f, content, "");
      assert (CRLF + body)[..|CRLF + body| - 1] == [CR];
    } else {
      var y := body[..|body| - 1];
      assert (CRLF + body)[..|CRLF + body| - 1] == CRLF + y;
      var t := BlankLine(s, g, f, content, y);
      match content
      case Whole(_) => BodyPart(t, y);
      case InChunks(parts) =>
        assert y == Chunks(parts) + "0\r\n\r";
        ChunkedUnread(t, parts);
    }
  }

  lemma Gathered(e: seq<Event>, a: seq<Event>, b: seq<Event>, c: seq<Event>, d: seq<Event>)
    ensures e + a + b + c + d == e + (a + b + c + d)
  {
    Assoc(e, a, b);
    Assoc(e, a + b, c);
    Assoc(e, a + b + c, d);
  }

  // ---------------------------------------------------------------- pipelining

  function PrintAll(rs: seq<Message>): string {
    if rs == [] then "" else Print(rs[0]) + PrintAll(rs[1..])
  }

  function EventsOfAll(rs: seq<Message>): seq<Event> {
    if rs == [] then [] else EventsOf(rs[0]) + EventsOfAll(rs[1..])
  }

  /** Requests that can follow each other on a connection. */
  ghost predicate Row(rs: seq<Message>) {
    && (forall i :: 0 <= i < |rs| ==> Printable(rs[i]))
    && (forall i :: 0 <= i < |rs| - 1 ==> Stays(rs[i]) && !Switches(rs[i]))
  }

  /** The parser behind these requests. */
  predicate BehindAll(s: State, rs: seq<Message>) {
    if rs == [] then Idle(s) else Between(s, Stays(rs[|rs| - 1]), Switches(rs[|rs| - 1]))
  }

  /** Requests one after another on a connection, of which only the last may end it or change its protocol, cut
      into reads in any way: each is reported in turn, with nothing lost, added or mixed up. */
  lemma PipelineRead(s: State, rs: seq<Message>, parts: seq<string>)
    requires Idle(s) && Row(rs) && Join(parts) == PrintAll(rs)
    ensures var t := FoldAll(Step, s, parts); BehindAll(t, rs) && t.events == s.events + EventsOfAll(rs)
  {
    hide Step;
    SplitsDoNotMatter(s, parts);
    AllRead(s, rs);
  }

  lemma {:induction false} AllRead(s: State, rs: seq<Message>)
    requires Idle(s) && Row(rs)
    ensures BehindAll(Run(s, PrintAll(rs)), rs) && Run(s, PrintAll(rs)).events == s.events + EventsOfAll(rs)
    decreases |rs|
  {
    hide Step, Run, Printable, Print, EventsOf, Stays, Switches;
    if rs == [] {
      NothingRun(s);
      assert s.events + [] == s.events;
    } else {
      RunConcat(s, Print(rs[0]), PrintAll(rs[1..]));
      RequestRead(s, rs[0]);
      if |rs| == 1 {
        NothingRun(Run(s, Print(rs[0])));
        assert PrintAll(rs[1..]) == "" && EventsOfAll(rs[1..]) == [];
        assert s.events + (EventsOf(rs[0]) + []) == s.events + EventsOf(rs[0]);
      } else {
        AllRead(Run(s, Print(rs[0])), rs[1..]);
        Assoc(s.events, EventsOf(rs[0]), EventsOfAll(rs[1..]));
      }
    }
  }
}
