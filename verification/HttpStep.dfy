/** lib/libhv/http/http_parser.c, `http_parser_execute` seen one byte at a time: what one byte does
    to the parser fields, and which callbacks and marks it triggers. */
module HttpStep {
  import opened HttpChars
  import opened Options

  /** `enum state`, by what is being read. */
  datatype Phase =
    | Begin(begin: BeginAt) | StatusLine(status: StatusAt)
    | ReqMethod | Target(url: UrlAt) | Version(version: VersionAt)
    | Heading(heading: HeadingAt) | Chunking(size: ChunkingAt) | Payload(payload: PayloadAt)

  datatype BeginAt = Dead | StartReqOrRes | ResOrRespH | StartRes | StartReq
  datatype StatusAt =
    | ResH | ResHT | ResHTT | ResHTTP | ResMajor | ResDot | ResMinor | ResEnd | ResFirstStatusCode | ResStatusCode
    | ResStatusStart | ResStatus | ResLineAlmostDone
  datatype UrlAt =
    | ReqSpacesBeforeUrl | ReqSchema | ReqSchemaSlash | ReqSchemaSlashSlash | ReqServerStart | ReqServer
    | ReqServerWithAt | ReqPath | ReqQueryStringStart | ReqQueryString | ReqFragmentStart | ReqFragment
  datatype VersionAt =
    | ReqHttpStart | ReqH | ReqHT | ReqHTT | ReqHTTP | ReqI | ReqIC | ReqMajor | ReqDot | ReqMinor | ReqEnd
    | ReqLineAlmostDone
  datatype HeadingAt =
    | HeaderFieldStart | HeaderField | ValueDiscardWs | ValueDiscardWsAlmostDone | ValueDiscardLws | ValueStart
    | HeaderValue | ValueLws | HeaderAlmostDone | HeadersAlmostDone
  datatype ChunkingAt = ChunkSizeStart | ChunkSize | ChunkParameters | ChunkSizeAlmostDone
  datatype PayloadAt = ChunkData | ChunkDataAlmostDone | ChunkDataDone | BodyIdentity | BodyIdentityEof | MessageDone

  /** `enum header_states`. */
  datatype Header =
    | General | C | CO | CON
    | MatchConnection | MatchProxyConnection | MatchContentLength | MatchTransferEncoding | MatchUpgrade
    | Connection | ContentLength | ContentLengthNum | ContentLengthWs | TransferEncoding | Upgrade
    | MatchChunked | TokenStart | MatchKeepAlive | MatchClose | MatchConnectionUpgrade | ConnectionToken
    | Chunked | KeepAlive | Close | ConnectionUpgrade

  datatype Errno =
    | OK | INVALID_EOF_STATE | CLOSED_CONNECTION | INVALID_VERSION | INVALID_STATUS | INVALID_METHOD | INVALID_URL
    | LF_EXPECTED | INVALID_HEADER_TOKEN | INVALID_CONTENT_LENGTH | UNEXPECTED_CONTENT_LENGTH
    | INVALID_CHUNK_SIZE | INVALID_CONSTANT | STRICT | HEADER_OVERFLOW

  datatype Kind = Request | Response | Both

  datatype Flags = Flags(chunked: bool, keepAlive: bool, close: bool, connUpgrade: bool,
                         trailing: bool, upgrade: bool, skipBody: bool, contentLength: bool)

  const NONE := Flags(false, false, false, false, false, false, false, false)

  /** `ULLONG_MAX`, which stands for "no length given". */
  const ABSENT: nat := 0xFFFF_FFFF_FFFF_FFFF

  datatype Matcher = Matcher(header: Header, index: nat)
  datatype Framing = Framing(flags: Flags, length: nat, nread: nat)
  datatype StartLine = StartLine(kind: Kind, verb: Method, status: nat, major: nat, minor: nat)
  datatype Settings = Settings(lenient: bool, reply: nat)

  /** The fields of `http_parser`. `left` is set when the parser has returned early because the rest
      is another protocol; `conf.reply` is what `on_headers_complete` returns. */
  datatype Core = Core(
    phase: Phase, name: Matcher, frame: Framing, line: StartLine,
    upgrade: bool, errno: Errno, left: bool, conf: Settings)

  /** What a data callback is about. */
  datatype Part = Url | Status | Field | Value | Body

  datatype Event =
    | MessageBegin | HeadersComplete | MessageComplete | ChunkHeader(size: nat) | ChunkComplete
    | Data(part: Part, text: string)

  /** What a byte does to the trace: it belongs to a part (`MARK` at its first byte), a part ends
      (`CALLBACK_DATA`), a part turns out empty, or a notification is due. */
  datatype Act = Take(part: Part) | Flush(part: Part) | Empty(part: Part) | Notify(event: Event)

  datatype Out = Out(core: Core, acts: seq<Act>)

  function To(s: Core, phase: Phase): Out {
    Out(s.(phase := phase), [])
  }

  function Stay(s: Core): Out {
    Out(s, [])
  }

  function Fail(s: Core, e: Errno): Out {
    Out(s.(errno := e), [])
  }

  function Sized(s: Core, length: nat): Core {
    s.(frame := s.frame.(length := length))
  }

  function Flagged(s: Core, flags: Flags): Core {
    s.(frame := s.frame.(flags := flags))
  }

  function Named(s: Core, header: Header): Core {
    s.(name := s.name.(header := header))
  }

  function Indexed(s: Core, index: nat): Core {
    s.(name := s.name.(index := index))
  }

  function Then(acts: seq<Act>, o: Out): Out {
    Out(o.core, acts + o.acts)
  }

  /** `STRICT_CHECK(ch != want)` and the next state. */
  function Expect(s: Core, c: char, want: char, next: Phase): Out {
    if c != want then Fail(s, STRICT) else To(s, next)
  }

  // ---------------------------------------------------------------- framing decisions

  /** `http_message_needs_eof`. */
  predicate NeedsEof(s: Core) {
    && s.line.kind != Request
    && !(s.line.status / 100 == 1 || s.line.status == 204 || s.line.status == 304 || s.frame.flags.skipBody)
    && !s.frame.flags.chunked && s.frame.length == ABSENT
  }

  /** `http_should_keep_alive`. */
  predicate KeepsAlive(s: Core) {
    && (if s.line.major > 0 && s.line.minor > 0 then !s.frame.flags.close else s.frame.flags.keepAlive)
    && !NeedsEof(s)
  }

  /** `NEW_MESSAGE()`. */
  function NewMessage(s: Core): Phase {
    if KeepsAlive(s) then (if s.line.kind == Request then Begin(StartReq) else Begin(StartRes)) else Begin(Dead)
  }

  // ---------------------------------------------------------------- start of a message

  function OnStart(s: Core, at: BeginAt, c: char): Out {
    var t := s.(frame := s.frame.(flags := NONE, length := ABSENT));
    match at
    case Dead => if c == CR || c == LF then Stay(s) else Fail(s, CLOSED_CONNECTION)
    case StartReqOrRes =>
      if c == CR || c == LF then Stay(s)
      else if c == 'H' then Out(t.(phase := Begin(ResOrRespH)), [Notify(MessageBegin)])
      else OnStartReq(t.(phase := Begin(StartReq), line := t.line.(kind := Request)), c)
    case ResOrRespH =>
      if c == 'T' then Out(s.(phase := StatusLine(ResHT), line := s.line.(kind := Response)), [])
      else if c != 'E' then Fail(s, INVALID_CONSTANT)
      else Out(s.(phase := ReqMethod, line := s.line.(kind := Request, verb := HEAD), name := s.name.(index := 2)), [])
    case StartRes =>
      if c == CR || c == LF then Stay(s)
      else if c == 'H' then Out(t.(phase := StatusLine(ResH)), [Notify(MessageBegin)])
      else Fail(t, INVALID_CONSTANT)
    case _ => OnStartReq(s, c)
  }

  function OnStartReq(s: Core, c: char): Out {
    if c == CR || c == LF then Stay(s)
    else
      var t := s.(frame := s.frame.(flags := NONE, length := ABSENT));
      if !IsAlpha(c) then Fail(t, INVALID_METHOD)
      else if FirstGuess(c).None? then Fail(Indexed(t.(line := t.line.(verb := DELETE)), 1), INVALID_METHOD)
      else Out(Indexed(t.(phase := ReqMethod, line := t.line.(verb := FirstGuess(c).value)), 1), [Notify(MessageBegin)])
  }

  // ---------------------------------------------------------------- status line

  function OnStatusLine(s: Core, at: StatusAt, c: char): Out {
    match at
    case ResH => Expect(s, c, 'T', StatusLine(ResHT))
    case ResHT => Expect(s, c, 'T', StatusLine(ResHTT))
    case ResHTT => Expect(s, c, 'P', StatusLine(ResHTTP))
    case ResHTTP => Expect(s, c, '/', StatusLine(ResMajor))
    case ResMajor =>
      if IsNum(c) then Out(s.(phase := StatusLine(ResDot), line := s.line.(major := Digit(c))), [])
        else Fail(s, INVALID_VERSION)
    case ResDot => if c == '.' then To(s, StatusLine(ResMinor)) else Fail(s, INVALID_VERSION)
    case ResMinor =>
      if IsNum(c) then Out(s.(phase := StatusLine(ResEnd), line := s.line.(minor := Digit(c))), [])
        else Fail(s, INVALID_VERSION)
    case ResEnd => if c == ' ' then To(s, StatusLine(ResFirstStatusCode)) else Fail(s, INVALID_VERSION)
    case ResFirstStatusCode =>
      if IsNum(c) then Out(s.(phase := StatusLine(ResStatusCode), line := s.line.(status := Digit(c))), [])
      else if c == ' ' then Stay(s) else Fail(s, INVALID_STATUS)
    case ResStatusCode => OnStatusCode(s, c)
    case ResStatusStart => OnStatusStart(s, c)
    case ResStatus => OnStatus(s, c)
    case _ => Expect(s, c, LF, Heading(HeaderFieldStart))
  }

  function OnStatusCode(s: Core, c: char): Out {
    if IsNum(c) then
      var status := s.line.status * 10 + Digit(c);
      var t := s.(line := s.line.(status := status));
      if status > 999 then Fail(t, INVALID_STATUS) else Stay(t)
    else if c == ' ' then To(s, StatusLine(ResStatusStart))
    else if c == CR || c == LF then OnStatusStart(s.(phase := StatusLine(ResStatusStart)), c)
    else Fail(s, INVALID_STATUS)
  }

  function OnStatusStart(s: Core, c: char): Out {
    var t := s.(phase := StatusLine(ResStatus), name := s.name.(index := 0));
    if c == CR then Out(t.(phase := StatusLine(ResLineAlmostDone)), [Empty(Status)])
    else if c == LF then Out(t.(phase := Heading(HeaderFieldStart)), [Empty(Status)])
    else Out(t, [Take(Status)])
  }

  function OnStatus(s: Core, c: char): Out {
    if c == CR then Out(s.(phase := StatusLine(ResLineAlmostDone)), [Flush(Status)])
    else if c == LF then Out(s.(phase := Heading(HeaderFieldStart)), [Flush(Status)])
    else Out(s, [Take(Status)])
  }

  // ---------------------------------------------------------------- request line

  function OnMethod(s: Core, c: char): Out {
    var name := Name(s.line.verb);
    if c == NUL then Fail(s, INVALID_METHOD)
    else if c == ' ' && s.name.index == |name| then To(Indexed(s, s.name.index + 1), Target(ReqSpacesBeforeUrl))
    else if s.name.index < |name| && c == name[s.name.index] then Stay(Indexed(s, s.name.index + 1))
    else if 'A' <= c <= 'Z' || c == '-' then
      var guess := NextGuess(s.line.verb, s.name.index, c);
      if guess.None? then Fail(s, INVALID_METHOD)
      else Stay(Indexed(s.(line := s.line.(verb := guess.value)), s.name.index + 1))
    else Fail(s, INVALID_METHOD)
  }

  /** `parse_url_char`; nothing stands for `s_dead`. */
  function UrlChar(at: UrlAt, c: char): Option<UrlAt> {
    if c == ' ' || c == CR || c == LF || c == '\t' || c == FF then None
    else match at
      case ReqSpacesBeforeUrl =>
        if c == '/' || c == '*' then Some(ReqPath) else if IsAlpha(c) then Some(ReqSchema) else None
      case ReqSchema => if IsAlpha(c) then Some(at) else if c == ':' then Some(ReqSchemaSlash) else None
      case ReqSchemaSlash => if c == '/' then Some(ReqSchemaSlashSlash) else None
      case ReqSchemaSlashSlash => if c == '/' then Some(ReqServerStart) else None
      case ReqServerWithAt => if c == '@' then None else ServerChar(c)
      case ReqServerStart => ServerChar(c)
      case ReqServer => ServerChar(c)
      case ReqPath =>
        if IsUrlChar(c) then Some(at) else if c == '?' then Some(ReqQueryStringStart)
        else if c == '#' then Some(ReqFragmentStart) else None
      case ReqQueryStringStart => QueryChar(c)
      case ReqQueryString => QueryChar(c)
      case ReqFragmentStart =>
        if IsUrlChar(c) || c == '?' then Some(ReqFragment) else if c == '#' then Some(at) else None
      case ReqFragment => if IsUrlChar(c) || c == '?' || c == '#' then Some(at) else None
  }

  function ServerChar(c: char): Option<UrlAt> {
    if c == '/' then Some(ReqPath) else if c == '?' then Some(ReqQueryStringStart)
    else if c == '@' then Some(ReqServerWithAt)
    else if IsUserInfo(c) || c == '[' || c == ']' then Some(ReqServer) else None
  }

  function QueryChar(c: char): Option<UrlAt> {
    if IsUrlChar(c) || c == '?' then Some(ReqQueryString) else if c == '#' then Some(ReqFragmentStart) else None
  }

  /** The states in which no blank or line end may follow. */
  predicate EarlyUrl(at: UrlAt) {
    at == ReqSchema || at == ReqSchemaSlash || at == ReqSchemaSlashSlash || at == ReqServerStart
  }

  function TakeUrl(s: Core, next: Option<UrlAt>): Out {
    if next.None? then Fail(s.(phase := Begin(Dead)), INVALID_URL)
    else Out(s.(phase := Target(next.value)), [Take(Url)])
  }

  function OnUrl(s: Core, at: UrlAt, c: char): Out {
    if at == ReqSpacesBeforeUrl then
      if c == ' ' then Stay(s)
      else TakeUrl(s, UrlChar(if s.line.verb == CONNECT then ReqServerStart else at, c))
    else if EarlyUrl(at) then
      if c == ' ' || c == CR || c == LF then Fail(s, INVALID_URL) else TakeUrl(s, UrlChar(at, c))
    else if c == ' ' then Out(s.(phase := Version(ReqHttpStart)), [Flush(Url)])
    else if c == CR then Out(s.(phase := Version(ReqLineAlmostDone), line := s.line.(major := 0, minor := 9)),
      [Flush(Url)])
    else if c == LF then Out(s.(phase := Heading(HeaderFieldStart), line := s.line.(major := 0, minor := 9)),
      [Flush(Url)])
    else TakeUrl(s, UrlChar(at, c))
  }

  function OnVersion(s: Core, at: VersionAt, c: char): Out {
    match at
    case ReqHttpStart =>
      if c == ' ' then Stay(s) else if c == 'H' then To(s, Version(ReqH))
      else if c == 'I' && s.line.verb == SOURCE then To(s, Version(ReqI)) else Fail(s, INVALID_CONSTANT)
    case ReqH => Expect(s, c, 'T', Version(ReqHT))
    case ReqHT => Expect(s, c, 'T', Version(ReqHTT))
    case ReqHTT => Expect(s, c, 'P', Version(ReqHTTP))
    case ReqI => Expect(s, c, 'C', Version(ReqIC))
    case ReqIC => Expect(s, c, 'E', Version(ReqHTTP))
    case ReqHTTP => Expect(s, c, '/', Version(ReqMajor))
    case ReqMajor =>
      if IsNum(c) then Out(s.(phase := Version(ReqDot), line := s.line.(major := Digit(c))), [])
        else Fail(s, INVALID_VERSION)
    case ReqDot => if c == '.' then To(s, Version(ReqMinor)) else Fail(s, INVALID_VERSION)
    case ReqMinor =>
      if IsNum(c) then Out(s.(phase := Version(ReqEnd), line := s.line.(minor := Digit(c))), [])
        else Fail(s, INVALID_VERSION)
    case ReqEnd =>
      if c == CR then To(s, Version(ReqLineAlmostDone))
      else if c == LF then To(s, Heading(HeaderFieldStart)) else Fail(s, INVALID_VERSION)
    case _ => if c == LF then To(s, Heading(HeaderFieldStart)) else Fail(s, LF_EXPECTED)
  }

  // ---------------------------------------------------------------- header names

  function OnFieldStart(s: Core, c: char): Out {
    if c == CR then To(s, Heading(HeadersAlmostDone))
    else if c == LF then OnHeadersAlmostDone(s.(phase := Heading(HeadersAlmostDone)), c)
    else if Token(c) == NUL then Fail(s, INVALID_HEADER_TOKEN)
    else Out(s.(phase := Heading(HeaderField), name := Matcher(FirstLetter(Token(c)), 0)), [Take(Field)])
  }

  function FirstLetter(c: char): Header {
    if c == 'c' then C else if c == 'p' then MatchProxyConnection else if c == 't' then MatchTransferEncoding
    else if c == 'u' then MatchUpgrade else General
  }

  /** One comparison with a keyword: the index advances, and the match goes on, is complete or fails. */
  function Match(word: string, index: nat, c: char, going: Header, complete: Header, failed: Header): (Header, nat) {
    var i := index + 1;
    (if i >= |word| || c != word[i] then failed else if i == |word| - 1 then complete else going, i)
  }

  /** The switch of `s_header_field` for the token character `c`. */
  function NameChar(h: Header, index: nat, c: char): (Header, nat) {
    match h
    case C => (if c == 'o' then CO else General, index + 1)
    case CO => (if c == 'n' then CON else General, index + 1)
    case CON => (if c == 'n' then MatchConnection else if c == 't' then MatchContentLength else General, index + 1)
    case MatchConnection => Match("connection", index, c, h, Connection, General)
    case MatchProxyConnection => Match("proxy-connection", index, c, h, Connection, General)
    case MatchContentLength => Match("content-length", index, c, h, ContentLength, General)
    case MatchTransferEncoding => Match("transfer-encoding", index, c, h, TransferEncoding, General)
    case MatchUpgrade => Match("upgrade", index, c, h, Upgrade, General)
    case _ => (General, index)
  }

  function OnField(s: Core, c: char): Out {
    if Token(c) != NUL then
      var (h, i) := NameChar(s.name.header, s.name.index, Token(c));
      Out(s.(name := s.name.(header := h, index := i)), [Take(Field)])
    else if c == ':' then Out(s.(phase := Heading(ValueDiscardWs)), [Flush(Field)])
    else Fail(s, INVALID_HEADER_TOKEN)
  }

  // ---------------------------------------------------------------- header values

  function OnDiscardWs(s: Core, c: char): Out {
    if c == ' ' || c == '\t' then Stay(s)
    else if c == CR then To(s, Heading(ValueDiscardWsAlmostDone))
    else if c == LF then To(s, Heading(ValueDiscardLws))
    else OnValueStart(s, c)
  }

  function OnValueStart(s: Core, c: char): Out {
    var t := s.(phase := Heading(HeaderValue), name := s.name.(index := 0));
    var low := Lower(c);
    match s.name.header
    case Upgrade => Out(Flagged(Named(t, General), t.frame.flags.(upgrade := true)), [Take(Value)])
    case TransferEncoding => Out(Named(t, if low == 'c' then MatchChunked else General), [Take(Value)])
    case ContentLength =>
      if !IsNum(c) then Fail(t, INVALID_CONTENT_LENGTH)
      else if s.frame.flags.contentLength then Fail(t, UNEXPECTED_CONTENT_LENGTH)
      else
        var f := Flagged(Named(t, ContentLengthNum), t.frame.flags.(contentLength := true));
        Out(Sized(f, Digit(c)), [Take(Value)])
    case ContentLengthWs => Out(t, [Take(Value)])
    case Connection => Out(Named(t, FirstOption(low)), [Take(Value)])
    case TokenStart => Out(t, [Take(Value)])
    case _ => Out(Named(t, General), [Take(Value)])
  }

  /** The connection option that starts with this letter. */
  function FirstOption(low: char): Header {
    if low == 'k' then MatchKeepAlive else if low == 'c' then MatchClose
    else if low == 'u' then MatchConnectionUpgrade else ConnectionToken
  }

  datatype Verdict = Verdict(header: Header, index: nat, flags: Flags, length: nat, errno: Errno)

  /** The switch of `s_header_value` for a character that is no line end. */
  function ValueChar(s: Core, c: char): Verdict {
    var low := Lower(c);
    var v := Verdict(s.name.header, s.name.index, s.frame.flags, s.frame.length, OK);
    match s.name.header
    case General => v
    case ContentLength => if c == ' ' then v else LengthChar(s, c)
    case ContentLengthNum => LengthChar(s, c)
    case ContentLengthWs => if c == ' ' then v else v.(errno := INVALID_CONTENT_LENGTH)
    case MatchChunked => Matched(v, Match("chunked", s.name.index, low, MatchChunked, Chunked, General))
    case TokenStart =>
      if low == 'k' || low == 'c' || low == 'u' then v.(header := FirstOption(low))
      else if Token(low) != NUL then v.(header := ConnectionToken)
      else if low == ' ' || low == '\t' then v
      else v.(header := General)
    case MatchKeepAlive => Matched(v,
      Match("keep-alive", s.name.index, low, MatchKeepAlive, KeepAlive, ConnectionToken))
    case MatchClose => Matched(v, Match("close", s.name.index, low, MatchClose, Close, ConnectionToken))
    case MatchConnectionUpgrade =>
      Matched(v, Match("upgrade", s.name.index, low, MatchConnectionUpgrade, ConnectionUpgrade, ConnectionToken))
    case ConnectionToken => if c == ',' then v.(header := TokenStart, index := 0) else v
    case Chunked => if c != ' ' then v.(header := General) else v
    case KeepAlive => OptionEnd(v, c)
    case Close => OptionEnd(v, c)
    case ConnectionUpgrade => OptionEnd(v, c)
    case _ => v.(header := General)
  }

  function Matched(v: Verdict, m: (Header, nat)): Verdict {
    v.(header := m.0, index := m.1)
  }

  /** A comma completes a recognised option of a multi-valued `Connection` header. */
  function OptionEnd(v: Verdict, c: char): Verdict {
    if c == ',' then v.(header := TokenStart, index := 0, flags := SetOption(v.flags, v.header))
    else if c != ' ' then v.(header := ConnectionToken) else v
  }

  function SetOption(f: Flags, h: Header): Flags {
    match h
    case KeepAlive => f.(keepAlive := true)
    case Close => f.(close := true)
    case ConnectionUpgrade => f.(connUpgrade := true)
    case _ => f
  }

  /** The flags when a header ends. */
  function SetFlags(f: Flags, h: Header): Flags {
    if h == Chunked then f.(chunked := true) else SetOption(f, h)
  }

  /** `(ULLONG_MAX - 10) / 10`. */
  const LENGTH_LIMIT: nat := 1844674407370955160
  /** `(ULLONG_MAX - 16) / 16`. */
  const CHUNK_LIMIT: nat := 1152921504606846974

  function LengthChar(s: Core, c: char): Verdict {
    var v := Verdict(ContentLengthNum, s.name.index, s.frame.flags, s.frame.length, OK);
    if c == ' ' then v.(header := ContentLengthWs)
    else if !IsNum(c) || LENGTH_LIMIT < s.frame.length then v.(errno := INVALID_CONTENT_LENGTH)
    else v.(length := Wrap64(s.frame.length * 10 + Digit(c)))
  }

  /** Arithmetic on `uint64_t`. */
  function Wrap64(n: nat): nat {
    n % 0x1_0000_0000_0000_0000
  }

  function OnValue(s: Core, c: char): Out {
    if c == CR then Out(s.(phase := Heading(HeaderAlmostDone)), [Flush(Value)])
    else if c == LF then Out(s.(phase := Heading(ValueLws)), [Flush(Value)])
    else if !s.conf.lenient && !IsHeaderChar(c) then Fail(s, INVALID_HEADER_TOKEN)
    else
      var v := ValueChar(s, c);
      var t := s.(errno := v.errno, name := Matcher(v.header, v.index),
        frame := s.frame.(flags := v.flags, length := v.length));
      if v.errno == OK then Out(t, [Take(Value)]) else Stay(t)
  }

  /** The header just read takes effect. */
  function NextHeader(s: Core): Core {
    Flagged(s.(phase := Heading(HeaderFieldStart)), SetFlags(s.frame.flags, s.name.header))
  }

  function OnValueLws(s: Core, c: char): Out {
    if c == ' ' || c == '\t' then
      var h := if s.name.header == ContentLengthNum then ContentLengthWs else s.name.header;
      OnValueStart(Named(s.(phase := Heading(ValueStart)), h), c)
    else OnFieldStart(NextHeader(s), c)
  }

  function OnDiscardLws(s: Core, c: char): Out {
    if c == ' ' || c == '\t' then To(s, Heading(ValueDiscardWs))
    else if s.name.header == ContentLength then Fail(s, INVALID_CONTENT_LENGTH)
    else Then([Empty(Value)], OnFieldStart(NextHeader(s), c))
  }

  function OnHeader(s: Core, at: HeadingAt, c: char): Out {
    match at
    case HeaderFieldStart => OnFieldStart(s, c)
    case HeaderField => OnField(s, c)
    case ValueDiscardWs => OnDiscardWs(s, c)
    case ValueDiscardWsAlmostDone => Expect(s, c, LF, Heading(ValueDiscardLws))
    case ValueDiscardLws => OnDiscardLws(s, c)
    case ValueStart => OnValueStart(s, c)
    case HeaderValue => OnValue(s, c)
    case ValueLws => OnValueLws(s, c)
    case HeaderAlmostDone => if c == LF then To(s, Heading(ValueLws)) else Fail(s, LF_EXPECTED)
    case _ => OnHeadersAlmostDone(s, c)
  }

  // ---------------------------------------------------------------- end of the headers

  function OnHeadersAlmostDone(s: Core, c: char): Out {
    if c != LF then Fail(s, STRICT)
    else if s.frame.flags.trailing then Then([Notify(ChunkComplete)], OnMessageDone(s.(phase := Payload(MessageDone))))
    else if s.frame.flags.chunked && s.frame.flags.contentLength then Fail(s, UNEXPECTED_CONTENT_LENGTH)
    else
      Then([Notify(HeadersComplete)], OnHeadersDone(Decided(s)))
  }

  /** `upgrade` and `F_SKIPBODY`, settled before and by `on_headers_complete`. */
  function Decided(s: Core): Core {
    var f := s.frame.flags;
    var upgrade := if f.upgrade && f.connUpgrade then s.line.kind == Request
      || s.line.status == 101 else s.line.verb == CONNECT;
    s.(upgrade := upgrade || s.conf.reply == 2,
       frame := s.frame.(flags := f.(skipBody := f.skipBody || s.conf.reply > 0), nread := 0))
  }

  function OnHeadersDone(s: Core): Out {
    var hasBody := s.frame.flags.chunked || (s.frame.length > 0 && s.frame.length != ABSENT);
    if s.upgrade && (s.line.verb == CONNECT || s.frame.flags.skipBody || !hasBody) then
      Out(s.(phase := NewMessage(s), left := true), [Notify(MessageComplete)])
    else if s.frame.flags.skipBody then Complete(s)
    else if s.frame.flags.chunked then To(s, Chunking(ChunkSizeStart))
    else if s.frame.length == 0 then Complete(s)
    else if s.frame.length != ABSENT then To(s, Payload(BodyIdentity))
    else if !NeedsEof(s) then Complete(s)
    else To(s, Payload(BodyIdentityEof))
  }

  function Complete(s: Core): Out {
    Out(s.(phase := NewMessage(s)), [Notify(MessageComplete)])
  }

  function OnMessageDone(s: Core): Out {
    Out(s.(phase := NewMessage(s), left := s.upgrade), [Notify(MessageComplete)])
  }

  // ---------------------------------------------------------------- bodies

  function OnBody(s: Core, at: PayloadAt, c: char): Out {
    match at
    case BodyIdentity =>
      if s.frame.length == 1
        then Then([Take(Body), Flush(Body)], OnMessageDone(Sized(s.(phase := Payload(MessageDone)), 0)))
      else Out(Sized(s, if s.frame.length == 0 then 0 else s.frame.length - 1), [Take(Body)])
    case BodyIdentityEof => Out(s, [Take(Body)])
    case ChunkData =>
      if s.frame.length == 1 then Out(Sized(s.(phase := Payload(ChunkDataAlmostDone)), 0), [Take(Body)])
      else Out(Sized(s, if s.frame.length == 0 then 0 else s.frame.length - 1), [Take(Body)])
    case ChunkDataAlmostDone =>
      if c == CR then Out(s.(phase := Payload(ChunkDataDone)), [Flush(Body)]) else Fail(s, STRICT)
    case ChunkDataDone =>
      if c != LF then Fail(s, STRICT)
      else Out(s.(phase := Chunking(ChunkSizeStart), frame := s.frame.(nread := 0)), [Notify(ChunkComplete)])
    case _ => OnMessageDone(s)
  }

  function OnChunkSize(s: Core, at: ChunkingAt, c: char): Out {
    match at
    case ChunkSizeStart =>
      if Unhex(c) == -1 then Fail(s, INVALID_CHUNK_SIZE)
      else Out(s.(phase := Chunking(ChunkSize), frame := s.frame.(length := Unhex(c))), [])
    case ChunkSize =>
      if c == CR then To(s, Chunking(ChunkSizeAlmostDone))
      else if Unhex(c) == -1 then
        if c == ';' || c == ' ' then To(s, Chunking(ChunkParameters)) else Fail(s, INVALID_CHUNK_SIZE)
      else if CHUNK_LIMIT < s.frame.length then Fail(s, INVALID_CONTENT_LENGTH)
      else Stay(s.(frame := s.frame.(length := Wrap64(s.frame.length * 16 + Unhex(c)))))
    case ChunkParameters => if c == CR then To(s, Chunking(ChunkSizeAlmostDone)) else Stay(s)
    case _ =>
      if c != LF then Fail(s, STRICT)
      else
        var t := s.(frame := s.frame.(nread := 0));
        Out(if s.frame.length == 0
          then Flagged(t.(phase := Heading(HeaderFieldStart)), t.frame.flags.(trailing := true))
            else t.(phase := Payload(ChunkData)),
            [Notify(ChunkHeader(s.frame.length))])
  }

  // ---------------------------------------------------------------- one byte

  /** The switch of `http_parser_execute`. */
  function OnByte(s: Core, c: char): Out {
    match s.phase
    case Begin(at) => OnStart(s, at, c)
    case StatusLine(at) => OnStatusLine(s, at, c)
    case ReqMethod => OnMethod(s, c)
    case Target(at) => OnUrl(s, at, c)
    case Version(at) => OnVersion(s, at, c)
    case Heading(at) => OnHeader(s, at, c)
    case Chunking(at) => OnChunkSize(s, at, c)
    case Payload(at) => OnBody(s, at, c)
  }

  /** `COUNT_HEADER_SIZE(1)` in every state up to `s_headers_done`. */
  function Counted(s: Core): Core {
    if s.phase.Payload? then s else s.(frame := s.frame.(nread := s.frame.nread + 1))
  }

  function Handle(s: Core, c: char): Out {
    OnByte(Counted(s), c)
  }
}
