/** What the parser takes for the same: bare line feeds, additional blanks, line ends before a message, chunk
    extensions. Such bytes add to the count of the header and make no other difference, whatever follows. */
module HttpTolerance {
  import opened HttpChars
  import opened Options
  import opened HttpStep
  import opened HttpTrace
  import opened HttpBody
  import opened HttpTargets
  import opened HttpLines
  import opened Folding

  /** Without the count. */
  function Countless(s: Core): Core {
    s.(frame := s.frame.(nread := 0))
  }

  /** The same state and trace but for the count. */
  predicate Alike(s: State, t: State) {
    Countless(s.core) == Countless(t.core) && s.events == t.events
  }

  // ---------------------------------------------------------------- the count decides nothing

  function Recounted(s: Core, n: nat): Core {
    s.(frame := s.frame.(nread := n))
  }

  predicate SameOut(a: Out, b: Out) {
    Countless(a.core) == Countless(b.core) && a.acts == b.acts
  }

  lemma StartReqAlike(s: Core, n: nat, c: char)
    ensures SameOut(OnStartReq(s, c), OnStartReq(Recounted(s, n), c))
  {
    hide FirstGuess, IsAlpha;
  }

  lemma StartAlike(s: Core, n: nat, at: BeginAt, c: char)
    ensures SameOut(OnStart(s, at, c), OnStart(Recounted(s, n), at, c))
  {
    hide OnStartReq;
    var t := s.(frame := s.frame.(flags := NONE, length := ABSENT));
    StartReqAlike(s, n, c);
    StartReqAlike(t.(phase := Begin(StartReq), line := t.line.(kind := Request)), n, c);
  }

  lemma CodeAlike(s: Core, n: nat, c: char)
    ensures SameOut(OnStatusCode(s, c), OnStatusCode(Recounted(s, n), c))
    ensures SameOut(OnStatusStart(s, c), OnStatusStart(Recounted(s, n), c))
    ensures SameOut(OnStatus(s, c), OnStatus(Recounted(s, n), c))
  {
  }

  lemma StatusAlike(s: Core, n: nat, at: StatusAt, c: char)
    ensures SameOut(OnStatusLine(s, at, c), OnStatusLine(Recounted(s, n), at, c))
  {
    hide OnStatusLine, SameOut;
    if at == ResMajor || at == ResDot || at == ResMinor || at == ResEnd {
      NumbersAlike(s, n, at, c);
    } else {
      NamesAlike(s, n, at, c);
    }
  }

  lemma NumbersAlike(s: Core, n: nat, at: StatusAt, c: char)
    requires at == ResMajor || at == ResDot || at == ResMinor || at == ResEnd
    ensures SameOut(OnStatusLine(s, at, c), OnStatusLine(Recounted(s, n), at, c))
  {
    hide OnStatusCode, OnStatusStart, OnStatus;
  }

  lemma NamesAlike(s: Core, n: nat, at: StatusAt, c: char)
    requires at != ResMajor && at != ResDot && at != ResMinor && at != ResEnd
    ensures SameOut(OnStatusLine(s, at, c), OnStatusLine(Recounted(s, n), at, c))
  {
    hide OnStatusCode, OnStatusStart, OnStatus;
    CodeAlike(s, n, c);
  }

  lemma MethodAlike(s: Core, n: nat, c: char)
    ensures SameOut(OnMethod(s, c), OnMethod(Recounted(s, n), c))
  {
    hide Name, NextGuess;
  }

  lemma UrlAlike(s: Core, n: nat, at: UrlAt, c: char)
    ensures SameOut(OnUrl(s, at, c), OnUrl(Recounted(s, n), at, c))
  {
    hide UrlChar;
  }

  lemma DoneAlike(s: Core, n: nat, c: char)
    ensures SameOut(OnHeadersAlmostDone(s, c), OnHeadersAlmostDone(Recounted(s, n), c))
  {
  }

  lemma FieldStartAlike(s: Core, n: nat, c: char)
    ensures SameOut(OnFieldStart(s, c), OnFieldStart(Recounted(s, n), c))
  {
    hide OnHeadersAlmostDone, Token;
    DoneAlike(s.(phase := Heading(HeadersAlmostDone)), n, c);
  }

  lemma ValueStartAlike(s: Core, n: nat, c: char)
    ensures SameOut(OnValueStart(s, c), OnValueStart(Recounted(s, n), c))
  {
    hide Lower, IsNum, FirstOption, SameOut;
    if s.name.header == ContentLength {
      LengthStartAlike(s, n, c);
    } else if s.name.header == Upgrade || s.name.header == TransferEncoding || s.name.header == Connection {
      OptionStartAlike(s, n, c);
    } else {
      TextStartAlike(s, n, c);
    }
  }

  lemma LengthStartAlike(s: Core, n: nat, c: char)
    requires s.name.header == ContentLength
    ensures SameOut(OnValueStart(s, c), OnValueStart(Recounted(s, n), c))
  {
    hide Lower, FirstOption;
  }

  lemma OptionStartAlike(s: Core, n: nat, c: char)
    requires s.name.header == Upgrade || s.name.header == TransferEncoding || s.name.header == Connection
    ensures SameOut(OnValueStart(s, c), OnValueStart(Recounted(s, n), c))
  {
    hide Lower, FirstOption, IsNum;
  }

  lemma TextStartAlike(s: Core, n: nat, c: char)
    requires s.name.header != ContentLength && s.name.header != Upgrade && s.name.header != TransferEncoding
    requires s.name.header != Connection
    ensures SameOut(OnValueStart(s, c), OnValueStart(Recounted(s, n), c))
  {
    hide Lower, FirstOption, IsNum;
  }

  lemma ValueAlike(s: Core, n: nat, c: char)
    ensures SameOut(OnValue(s, c), OnValue(Recounted(s, n), c))
  {
    hide Lower, Token, IsHeaderChar, Match;
  }

  lemma FieldAlike(s: Core, n: nat, c: char)
    ensures SameOut(OnField(s, c), OnField(Recounted(s, n), c))
  {
    hide NameChar, Token;
  }

  lemma WsAlike(s: Core, n: nat, c: char)
    ensures SameOut(OnDiscardWs(s, c), OnDiscardWs(Recounted(s, n), c))
    ensures SameOut(OnDiscardLws(s, c), OnDiscardLws(Recounted(s, n), c))
  {
    hide OnFieldStart, OnValueStart, SetFlags;
    FieldStartAlike(NextHeader(s), n, c);
    ValueStartAlike(s, n, c);
  }

  lemma LwsAlike(s: Core, n: nat, c: char)
    ensures SameOut(OnValueLws(s, c), OnValueLws(Recounted(s, n), c))
  {
    hide OnFieldStart, OnValueStart, SetFlags;
    FieldStartAlike(NextHeader(s), n, c);
    var h := if s.name.header == ContentLengthNum then ContentLengthWs else s.name.header;
    ValueStartAlike(Named(s.(phase := Heading(ValueStart)), h), n, c);
  }

  lemma HeaderAlike(s: Core, n: nat, at: HeadingAt, c: char)
    ensures SameOut(OnHeader(s, at, c), OnHeader(Recounted(s, n), at, c))
  {
    hide OnHeadersAlmostDone, OnFieldStart, OnField, OnDiscardWs, OnDiscardLws, OnValueStart, OnValue, OnValueLws;
    FieldStartAlike(s, n, c);
    FieldAlike(s, n, c);
    WsAlike(s, n, c);
    ValueStartAlike(s, n, c);
    ValueAlike(s, n, c);
    LwsAlike(s, n, c);
    DoneAlike(s, n, c);
  }

  lemma BodyAlike(s: Core, n: nat, at: PayloadAt, c: char)
    ensures SameOut(OnBody(s, at, c), OnBody(Recounted(s, n), at, c))
  {
  }

  lemma ByteAlike(s: Core, n: nat, c: char)
    ensures SameOut(OnByte(s, c), OnByte(Recounted(s, n), c))
  {
    hide OnStart, OnStatusLine, OnMethod, OnUrl, OnHeader, OnBody, Unhex, Countless;
    match s.phase
    case Begin(at) => StartAlike(s, n, at, c);
    case StatusLine(at) => StatusAlike(s, n, at, c);
    case ReqMethod => MethodAlike(s, n, c);
    case Target(at) => UrlAlike(s, n, at, c);
    case Version(at) => VersionAlike(s, n, at, c);
    case Heading(at) => HeaderAlike(s, n, at, c);
    case Chunking(at) => SizeAlike(s, n, at, c);
    case Payload(at) => BodyAlike(s, n, at, c);
  }

  lemma VersionAlike(s: Core, n: nat, at: VersionAt, c: char)
    ensures SameOut(OnVersion(s, at, c), OnVersion(Recounted(s, n), at, c))
  {
  }

  lemma SizeAlike(s: Core, n: nat, at: ChunkingAt, c: char)
    ensures SameOut(OnChunkSize(s, at, c), OnChunkSize(Recounted(s, n), at, c))
  {
    hide Unhex;
  }

  lemma StepAlike(s: State, t: State, c: char)
    requires Alike(s, t)
    ensures Alike(Step(s, c), Step(t, c))
  {
    hide OnByte, Apply;
    var n := Counted(t.core).frame.nread;
    assert Counted(t.core) == Recounted(Counted(s.core), n);
    ByteAlike(Counted(s.core), n, c);
  }

  /** Whatever follows, the two go on alike: the count decides nothing but whether a header is too large. */
  lemma {:induction false} RunAlike(s: State, t: State, x: string)
    requires Alike(s, t)
    ensures Alike(Run(s, x), Run(t, x))
  {
    hide Step;
    if x != "" {
      RunAlike(s, t, x[..|x| - 1]);
      StepAlike(Run(s, x[..|x| - 1]), Run(t, x[..|x| - 1]), x[|x| - 1]);
    }
  }

  // ---------------------------------------------------------------- what makes no difference where

  /** Where a line of the head may end. */
  predicate EndsLine(at: Phase) {
    || at == Version(ReqEnd) || (at.Target? && LateUrl(at.url))
    || at == StatusLine(ResStatusCode) || at == StatusLine(ResStatusStart) || at == StatusLine(ResStatus)
    || at == Heading(HeaderFieldStart) || at == Heading(ValueDiscardWs) || at == Heading(HeaderValue)
    || at == Heading(ValueLws)
  }

  /** Where a blank more does not matter. */
  predicate TakesBlanks(at: Phase) {
    || at == Target(ReqSpacesBeforeUrl) || at == Version(ReqHttpStart) || at == StatusLine(ResFirstStatusCode)
    || at == Heading(ValueDiscardWs)
  }

  /** Between messages. */
  predicate AtStart(at: Phase) {
    at == Begin(StartReq) || at == Begin(StartRes) || at == Begin(StartReqOrRes) || at == Begin(Dead)
  }

  /** A chunk extension. */
  predicate Extension(x: string) {
    x != "" && (x[0] == ';' || x[0] == ' ') && forall i :: 0 <= i < |x| ==> x[i] != CR
  }

  /** At this place the parser takes `u` for `v`. */
  predicate Interchangeable(at: Phase, u: string, v: string) {
    || (EndsLine(at) && u == [LF] && v == CRLF)
    || (TakesBlanks(at) && u == " " && v == "")
    || (at == Heading(ValueDiscardWs) && u == "\t" && v == "")
    || (AtStart(at) && (u == [CR] || u == [LF]) && v == "")
    || (at == Chunking(ChunkSize) && |u| > 2 && u == u[..|u| - 2] + CRLF && Extension(u[..|u| - 2]) && v == CRLF)
  }

  lemma LineBytes(s: State)
    ensures Run(s, CRLF) == Step(Step(s, CR), LF) && Run(s, [LF]) == Step(s, LF)
  {
    assert CRLF == [CR] + [LF];
    RunFirst(s, CR, [LF]);
    RunOne(Step(s, CR), LF);
    RunOne(s, LF);
  }

  lemma HeadEndAlike(s: State)
    requires Running(s.core) && s.core.phase == Heading(HeaderFieldStart)
    ensures Alike(Step(s, LF), Step(Step(s, CR), LF))
  {
    hide OnHeadersAlmostDone, Apply;
    HeadersEndCr(s);
    var n := Counted(Step(s, CR).core).frame.nread;
    DoneAlike(Counted(s.core).(phase := Heading(HeadersAlmostDone)), n, LF);
  }

  /** The line end behind a header value is seen together with the next byte. */
  lemma NextEndAlike(s: State)
    requires Running(s.core) && s.core.phase == Heading(ValueLws)
    ensures Alike(Step(s, LF), Step(Step(s, CR), LF))
  {
    hide Step, NextHeader;
    var t := State(NextHeader(s.core), s.events);
    NextLine(s, LF);
    NextLine(s, CR);
    StillRunning(s.core);
    AtFieldStart(s.core);
    HeadEndAlike(t);
  }

  lemma AtFieldStart(s: Core)
    ensures NextHeader(s).phase == Heading(HeaderFieldStart)
  {
  }

  lemma ValueEndAlike(s: State)
    requires Running(s.core) && (s.core.phase == Heading(HeaderValue) || s.core.phase == Heading(ValueDiscardWs))
    ensures Alike(Step(s, LF), Step(Step(s, CR), LF))
  {
    hide OnValueStart, ValueChar, Lower, IsHeaderChar;
    ApplySingle(s.events, Flush(Value), CR);
    ApplySingle(s.events, Flush(Value), LF);
  }

  lemma FirstLineEndAlike(s: State)
    requires Running(s.core) && (s.core.phase == Version(ReqEnd) || (s.core.phase.Target? && LateUrl(s.core.phase.url)))
    ensures Alike(Step(s, LF), Step(Step(s, CR), LF))
  {
    hide UrlChar;
    ApplySingle(s.events, Flush(Url), CR);
    ApplySingle(s.events, Flush(Url), LF);
  }

  lemma StatusEndAlike(s: State)
    requires Running(s.core) && s.core.phase.StatusLine?
    requires s.core.phase.status in {ResStatusCode, ResStatusStart, ResStatus}
    ensures Alike(Step(s, LF), Step(Step(s, CR), LF))
  {
    ApplySingle(s.events, Flush(Status), CR);
    ApplySingle(s.events, Flush(Status), LF);
    ApplySingle(s.events, Empty(Status), CR);
    ApplySingle(s.events, Empty(Status), LF);
  }

  lemma LineEndAlike(s: State)
    requires Running(s.core) && EndsLine(s.core.phase)
    ensures Alike(Step(s, LF), Step(Step(s, CR), LF))
  {
    hide Step, Alike, LateUrl;
    if s.core.phase == Heading(HeaderFieldStart) {
      HeadEndAlike(s);
    } else if s.core.phase == Heading(ValueLws) {
      NextEndAlike(s);
    } else if s.core.phase.Heading? {
      ValueEndAlike(s);
    } else if s.core.phase.StatusLine? {
      StatusEndAlike(s);
    } else {
      FirstLineEndAlike(s);
    }
  }

  lemma BlankAlike(s: State, c: char)
    requires Running(s.core) && (c == ' ' || (c == '\t' && s.core.phase == Heading(ValueDiscardWs)))
    requires TakesBlanks(s.core.phase)
    ensures Alike(Step(s, c), s)
  {
    hide UrlChar, OnValueStart;
    ApplySingle(s.events, Flush(Url), c);
  }

  lemma EarlyEndAlike(s: State, c: char)
    requires Running(s.core) && AtStart(s.core.phase) && (c == CR || c == LF)
    ensures Alike(Step(s, c), s)
  {
    ApplySingle(s.events, Flush(Url), c);
  }

  lemma ParameterAlike(s: State, c: char)
    requires Running(s.core) && s.core.phase == Chunking(ChunkParameters) && c != CR
    ensures Alike(Step(s, c), s)
  {
    ApplySingle(s.events, Flush(Url), c);
  }

  lemma {:induction false} ParametersAlike(s: State, x: string)
    requires Running(s.core) && s.core.phase == Chunking(ChunkParameters) && forall i :: 0 <= i < |x| ==> x[i] != CR
    ensures Alike(Run(s, x), s)
  {
    hide Step;
    if x != "" {
      ParametersAlike(s, x[..|x| - 1]);
      ParameterAlike(Run(s, x[..|x| - 1]), x[|x| - 1]);
    }
  }

  /** The first byte of an extension. */
  lemma ParameterStart(s: State, c: char)
    requires Running(s.core) && s.core.phase == Chunking(ChunkSize) && (c == ';' || c == ' ')
    ensures Running(Step(s, c).core) && Alike(Step(s, c), State(s.core.(phase := Chunking(ChunkParameters)), s.events))
  {
    ApplySingle(s.events, Flush(Url), c);
  }

  lemma SizeEndAlike(s: State)
    requires Running(s.core) && s.core.phase == Chunking(ChunkSize)
    ensures Alike(Step(s, CR), Step(State(s.core.(phase := Chunking(ChunkParameters)), s.events), CR))
  {
    ApplySingle(s.events, Flush(Url), CR);
  }

  lemma ExtensionAlike(s: State, x: string)
    requires Running(s.core) && s.core.phase == Chunking(ChunkSize) && Extension(x)
    ensures Alike(Run(s, x + CRLF), Run(s, CRLF))
  {
    hide Step;
    var c, r := x[0], x[1..];
    var p := State(s.core.(phase := Chunking(ChunkParameters)), s.events);
    assert x == [c] + r && CRLF == [CR] + [LF];
    RunConcat(s, x, CRLF);
    RunFirst(s, c, r);
    ParameterStart(s, c);
    ParametersAlike(Step(s, c), r);
    RunAlike(Run(s, x), p, CRLF);
    RunFirst(p, CR, [LF]);
    RunFirst(s, CR, [LF]);
    SizeEndAlike(s);
    RunAlike(Step(s, CR), Step(p, CR), [LF]);
  }

  lemma TakenAlike(s: State, u: string, v: string)
    requires Interchangeable(s.core.phase, u, v)
    ensures Alike(Run(s, u), Run(s, v))
  {
    hide Step, EndsLine, AtStart, Extension;
    if !Running(s.core) {
      Stopped(s, u);
      Stopped(s, v);
    } else if v == "" {
      RunOne(s, u[0]);
      assert u == [u[0]];
      if AtStart(s.core.phase) && (u == [CR] || u == [LF]) {
        EarlyEndAlike(s, u[0]);
      } else {
        BlankAlike(s, u[0]);
      }
    } else if u == [LF] {
      LineBytes(s);
      LineEndAlike(s);
    } else {
      ExtensionAlike(s, u[..|u| - 2]);
    }
  }

  /** Anywhere in a stream, the one may stand for the other: the parser ends in the same state, after the same
      callbacks, whatever comes before and behind. */
  lemma ReplacedRead(s: State, before: string, u: string, v: string, rest: string)
    requires Interchangeable(Run(s, before).core.phase, u, v)
    ensures Alike(Run(s, before + (u + rest)), Run(s, before + (v + rest)))
  {
    hide Step, Interchangeable;
    var t := Run(s, before);
    TakenAlike(t, u, v);
    RunConcat(s, before, u + rest);
    RunConcat(s, before, v + rest);
    RunConcat(t, u, rest);
    RunConcat(t, v, rest);
    RunAlike(Run(t, u), Run(t, v), rest);
  }

  // ---------------------------------------------------------------- what does make a difference

  /** Where a carriage return begins a line end: in the head, in the line of a chunk size, and behind the data of a
      chunk. */
  predicate TakesCr(at: Phase) {
    EndsLine(at) || at == Chunking(ChunkSize) || at == Chunking(ChunkParameters) || at == Payload(ChunkDataAlmostDone)
  }

  predicate CrLfFailed(e: Errno) {
    e == STRICT || e == LF_EXPECTED
  }

  lemma HeadCrFails(s: State, c: char)
    requires Running(s.core) && c != LF
        && (s.core.phase == Heading(HeaderFieldStart) || s.core.phase == Heading(ValueLws))
    ensures CrLfFailed(Step(Step(s, CR), c).core.errno)
  {
    hide Token, SetFlags, OnHeadersDone;
    ApplySingle(s.events, Flush(Url), CR);
  }

  lemma ValueCrFails(s: State, c: char)
    requires Running(s.core) && c != LF
    requires s.core.phase == Heading(HeaderValue) || s.core.phase == Heading(ValueDiscardWs)
    ensures CrLfFailed(Step(Step(s, CR), c).core.errno)
  {
    hide OnValueStart, ValueChar, Lower, IsHeaderChar;
  }

  lemma StatusCrFails(s: State, c: char)
    requires Running(s.core) && s.core.phase.StatusLine? && c != LF
    requires s.core.phase.status in {ResStatusCode, ResStatusStart, ResStatus}
    ensures CrLfFailed(Step(Step(s, CR), c).core.errno)
  {
  }

  lemma FirstLineCrFails(s: State, c: char)
    requires Running(s.core) && c != LF
    requires s.core.phase == Version(ReqEnd) || (s.core.phase.Target? && LateUrl(s.core.phase.url))
    ensures CrLfFailed(Step(Step(s, CR), c).core.errno)
  {
    hide UrlChar;
  }

  lemma ChunkCrFails(s: State, c: char)
    requires Running(s.core) && c != LF
    requires s.core.phase in {Chunking(ChunkSize), Chunking(ChunkParameters), Payload(ChunkDataAlmostDone)}
    ensures CrLfFailed(Step(Step(s, CR), c).core.errno)
  {
  }

  /** A carriage return there that no line feed follows is always an error. */
  lemma CrNeedsLf(s: State, c: char)
    requires Running(s.core) && TakesCr(s.core.phase) && c != LF
    ensures CrLfFailed(Run(s, [CR, c]).core.errno)
  {
    hide Step, CrLfFailed, LateUrl;
    assert [CR, c] == [CR] + [c];
    RunFirst(s, CR, [c]);
    RunOne(Step(s, CR), c);
    var at := s.core.phase;
    if at == Heading(HeaderFieldStart) || at == Heading(ValueLws) {
      HeadCrFails(s, c);
    } else if at.Heading? {
      ValueCrFails(s, c);
    } else if at.StatusLine? {
      StatusCrFails(s, c);
    } else if at.Chunking? || at.Payload? {
      ChunkCrFails(s, c);
    } else {
      FirstLineCrFails(s, c);
    }
  }

  lemma NotTheEnd(s: State, c: char)
    requires Running(s.core) && s.core.phase == Payload(ChunkDataAlmostDone) && c != CR
    ensures Step(s, c).core.errno == STRICT
  {
  }

  /** A chunk whose data is longer than it announced is refused at the first byte too many, unless that is a
      carriage return, which by the above needs its line feed. */
  lemma LongerChunk(s: State, data: string, c: char)
    requires Running(s.core) && s.core.phase == Payload(ChunkData) && |data| == s.core.frame.length > 0
    ensures if c == CR then Running(Run(s, data + [c]).core) else Run(s, data + [c]).core.errno == STRICT
  {
    hide Step, Emit;
    DataRun(s, data);
    RunLast(s, data, c);
    if c == CR {
      DataCr(Run(s, data));
    } else {
      NotTheEnd(Run(s, data), c);
    }
  }

  lemma DataCr(s: State)
    requires Running(s.core) && s.core.phase == Payload(ChunkDataAlmostDone)
    ensures Running(Step(s, CR).core)
  {
  }
}
