/** What every state the HTTP parser can reach satisfies; in particular the assertions in
    `http_parser_execute` hold and the length arithmetic never wraps. */
module HttpInvariant {
  import opened HttpChars
  import opened Options
  import opened HttpStep
  import opened HttpTrace
  import opened Folding

  /** Header states in which a name is being read, with the matcher's position in the keyword. */
  predicate NameOk(m: Matcher) {
    match m.header
    case General => true
    case C => m.index == 0
    case CO => m.index == 1
    case CON => m.index == 2
    case MatchConnection => 3 <= m.index < 9
    case MatchProxyConnection => m.index < 15
    case MatchContentLength => 3 <= m.index < 13
    case MatchTransferEncoding => m.index < 16
    case MatchUpgrade => m.index < 6
    case _ => m.header == Connection || m.header == ContentLength || m.header == TransferEncoding || m.header == Upgrade
  }

  /** Header states in which a value is being read: the code asserts that `h_connection` and
      `h_transfer_encoding` are not among them. */
  predicate ValueOk(m: Matcher) {
    match m.header
    case MatchChunked => m.index < 6
    case TokenStart => m.index == 0
    case MatchKeepAlive => m.index < 9
    case MatchClose => m.index < 4
    case MatchConnectionUpgrade => m.index < 6
    case _ =>
      || m.header == General || m.header == ContentLengthNum || m.header == ContentLengthWs
      || m.header == ConnectionToken || m.header == Chunked || m.header == KeepAlive || m.header == Close
      || m.header == ConnectionUpgrade
  }

  predicate PhaseOk(s: Core) {
    match s.phase
    case Begin(at) =>
      if at == ResOrRespH then Untouched(s) else s.line.kind == Both ==> at == StartReqOrRes || at == Dead
    case ReqMethod => Untouched(s) && 1 <= s.name.index <= |Name(s.line.verb)| && s.line.kind != Both
    case Heading(at) => HeadingOk(s, at) && s.line.kind != Both
    case Chunking(at) =>
      && s.frame.flags.chunked && s.line.kind != Both
      && (if at == ChunkSizeStart then s.frame.nread == 0 else s.frame.length < ABSENT)
    case Payload(at) => PayloadOk(s, at) && s.line.kind != Both
    case _ => Untouched(s) && s.line.kind != Both
  }

  /** No header has been seen since the message began. */
  predicate Untouched(s: Core) {
    s.frame.flags == NONE && s.frame.length == ABSENT
  }

  predicate HeadingOk(s: Core, at: HeadingAt) {
    && (s.frame.flags.contentLength ==> s.frame.length < ABSENT)
    && match at
       case HeaderFieldStart => true
       case HeaderField => NameOk(s.name)
       case ValueDiscardWs => NameOk(s.name)
       case ValueDiscardWsAlmostDone => NameOk(s.name)
       case ValueDiscardLws => NameOk(s.name)
       case ValueStart => false
       case HeadersAlmostDone => true
       case _ =>
         && ValueOk(s.name)
         && (s.name.header == ContentLengthNum || s.name.header == ContentLengthWs ==> s.frame.flags.contentLength)
  }

  predicate PayloadOk(s: Core, at: PayloadAt) {
    match at
    case ChunkData => s.frame.flags.chunked && 0 < s.frame.length < ABSENT
    case ChunkDataAlmostDone => s.frame.flags.chunked && s.frame.length == 0
    case ChunkDataDone => s.frame.flags.chunked && s.frame.length == 0
    case BodyIdentity => !s.frame.flags.chunked && 0 < s.frame.length < ABSENT
    case BodyIdentityEof => !s.frame.flags.chunked && s.frame.length == ABSENT
    case MessageDone => false
  }

  /** The small fields stay within their bit-fields. */
  predicate SmallOk(s: Core) {
    && s.line.status <= 999 && s.line.major <= 9 && s.line.minor <= 9
    && s.name.index <= 17 && s.conf.reply <= 2 && s.frame.length <= ABSENT
  }

  predicate Inv(s: Core) {
    SmallOk(s) && PhaseOk(s) && (s.frame.flags.trailing ==> s.frame.flags.chunked)
  }

  /** `http_parser_init`. */
  function Init(kind: Kind, lenient: bool, reply: nat): Core {
    Core(match kind case Request => Begin(StartReq) case Response => Begin(StartRes) case Both => Begin(StartReqOrRes),
         Matcher(General, 0), Framing(NONE, 0, 0), StartLine(kind, DELETE, 0, 0, 0),
         false, OK, false, Settings(lenient, reply))
  }

  lemma StartKeeps(s: Core, at: BeginAt, c: char)
    requires Inv(s) && s.phase == Begin(at) && s.errno == OK
    ensures OnStart(s, at, c).core.errno == OK ==> Inv(OnStart(s, at, c).core)
  {
    hide Name, FirstGuess, ValueOk, NameOk, PayloadOk, HeadingOk;
  }

  lemma StatusKeeps(s: Core, at: StatusAt, c: char)
    requires Inv(s) && s.phase == StatusLine(at) && s.errno == OK
    ensures OnStatusLine(s, at, c).core.errno == OK ==> Inv(OnStatusLine(s, at, c).core)
  {
    hide Name, ValueOk, NameOk, PayloadOk;
  }

  lemma UrlKeeps(s: Core, at: UrlAt, c: char)
    requires Inv(s) && s.phase == Target(at) && s.errno == OK
    ensures OnUrl(s, at, c).core.errno == OK ==> Inv(OnUrl(s, at, c).core)
  {
    hide Name, ValueOk, NameOk, PayloadOk, UrlChar;
  }

  lemma VersionKeeps(s: Core, at: VersionAt, c: char)
    requires Inv(s) && s.phase == Version(at) && s.errno == OK
    ensures OnVersion(s, at, c).core.errno == OK ==> Inv(OnVersion(s, at, c).core)
  {
    hide Name, ValueOk, NameOk, PayloadOk;
  }

  lemma ChunkSizeKeeps(s: Core, at: ChunkingAt, c: char)
    requires Inv(s) && s.phase == Chunking(at) && s.errno == OK
    ensures OnChunkSize(Counted(s), at, c).core.errno == OK ==> Inv(OnChunkSize(Counted(s), at, c).core)
  {
    hide Name, ValueOk, NameOk;
  }

  lemma BodyKeeps(s: Core, at: PayloadAt, c: char)
    requires Inv(s) && s.phase == Payload(at) && s.errno == OK
    ensures OnBody(s, at, c).core.errno == OK ==> Inv(OnBody(s, at, c).core)
  {
    hide Name, ValueOk, NameOk, HeadingOk;
  }

  /** Method `b` has the first `n` letters of `a`, and then `c`. */
  predicate Branches(a: Method, b: Method, n: nat, c: char) {
    && n <= 4 && n <= |Name(a)| && n < |Name(b)| && Name(b)[n] == c && (n < |Name(a)| ==> Name(a)[n] != c)
    && (n > 0 ==> Name(a)[0] == Name(b)[0]) && (n > 1 ==> Name(a)[1] == Name(b)[1])
    && (n > 2 ==> Name(a)[2] == Name(b)[2]) && (n > 3 ==> Name(a)[3] == Name(b)[3])
  }

  lemma BranchesP()
    ensures Branches(POST, PUT, 1, 'U') && Branches(POST, PATCH, 1, 'A') && Branches(POST, PROPFIND, 1, 'R')
    ensures Branches(PUT, PURGE, 2, 'R') && Branches(PROPFIND, PROPPATCH, 4, 'P')
  {
  }

  lemma BranchesM()
    ensures Branches(MKCOL, MOVE, 1, 'O') && Branches(MKCOL, MERGE, 1, 'E') && Branches(MKCOL, MSEARCH, 1, '-')
    ensures Branches(MKCOL, MKACTIVITY, 2, 'A') && Branches(MKCOL, MKCALENDAR, 3, 'A')
  {
  }

  lemma BranchesU()
    ensures Branches(UNLOCK, UNSUBSCRIBE, 2, 'S') && Branches(UNLOCK, UNBIND, 2, 'B')
        && Branches(UNLOCK, UNLINK, 3, 'I')
    ensures Branches(LOCK, LINK, 1, 'I')
  {
  }

  lemma BranchesC()
    ensures Branches(CONNECT, CHECKOUT, 1, 'H') && Branches(CONNECT, COPY, 2, 'P') && Branches(REPORT, REBIND, 2, 'B')
  {
  }

  lemma BranchesS()
    ensures Branches(SUBSCRIBE, SEARCH, 1, 'E') && Branches(SUBSCRIBE, SOURCE, 1, 'O')
  {
  }

  /** Changing the guess never changes what has been read: the new method has the same letters so
      far, and the one that did not fit the old method next. */
  lemma GuessFits(m: Method, pos: nat, c: char)
    requires NextGuess(m, pos, c).Some?
    ensures var g := NextGuess(m, pos, c).value;
            pos <= |Name(m)| && pos < |Name(g)| && Name(g)[pos] == c && Name(g)[..pos] == Name(m)[..pos]
  {
    hide Name, NextGuess, Branches;
    GuessBranches(m, pos, c);
    BranchesFit(m, NextGuess(m, pos, c).value, pos, c);
  }

  lemma BranchesFit(a: Method, b: Method, n: nat, c: char)
    requires Branches(a, b, n, c)
    ensures n <= |Name(a)| && n < |Name(b)| && Name(b)[n] == c && Name(b)[..n] == Name(a)[..n]
  {
    hide Name;
  }

  lemma GuessBranches(m: Method, pos: nat, c: char)
    requires NextGuess(m, pos, c).Some?
    ensures Branches(m, NextGuess(m, pos, c).value, pos, c)
  {
    hide Name, Branches;
    BranchesP();
    BranchesM();
    BranchesU();
    BranchesC();
    BranchesS();
  }

  lemma MethodKeeps(s: Core, c: char)
    requires Inv(s) && s.phase == ReqMethod && s.errno == OK
    ensures OnMethod(s, c).core.errno == OK ==> Inv(OnMethod(s, c).core)
  {
    hide Name, NextGuess, ValueOk, NameOk, PayloadOk, HeadingOk;
    if NextGuess(s.line.verb, s.name.index, c).Some? {
      GuessFits(s.line.verb, s.name.index, c);
    }
  }

  // ---------------------------------------------------------------- headers

  /** What holds while headers are read, whatever the header. */
  predicate HeadersOk(s: Core) {
    && SmallOk(s) && s.errno == OK && s.line.kind != Both
    && (s.frame.flags.contentLength ==> s.frame.length < ABSENT)
    && (s.frame.flags.trailing ==> s.frame.flags.chunked)
  }

  predicate Kept(o: Out) {
    o.core.errno == OK ==> Inv(o.core)
  }

  lemma NameCharKeeps(m: Matcher, c: char)
    requires NameOk(m) && m.index <= 17
    ensures NameOk(Matcher(NameChar(m.header, m.index, c).0, NameChar(m.header, m.index, c).1))
    ensures NameChar(m.header, m.index, c).1 <= 17
  {
  }

  lemma FieldKeeps(s: Core, c: char)
    requires Inv(s) && s.phase == Heading(HeaderField) && s.errno == OK
    ensures Kept(OnField(s, c))
  {
    hide NameChar, Token, NameOk, ValueOk, PayloadOk;
    NameCharKeeps(s.name, Token(c));
  }

  /** What the first character of a value may change. */
  predicate Started(s: Core, o: Core) {
    && o.phase == Heading(HeaderValue) && o == s.(phase := o.phase, name := o.name, frame := o.frame)
    && o.name.index == 0 && ValueOk(o.name)
    && (o.name.header == ContentLengthNum || o.name.header == ContentLengthWs ==> o.frame.flags.contentLength)
    && o.frame.length <= ABSENT && (o.frame.flags.contentLength ==> o.frame.length < ABSENT)
    && o.frame.flags.trailing == s.frame.flags.trailing && o.frame.flags.chunked == s.frame.flags.chunked
  }

  lemma ValueStarted(s: Core, c: char)
    requires HeadersOk(s) && (s.name.header == ContentLengthWs ==> s.frame.flags.contentLength)
    ensures OnValueStart(s, c).core.errno == OK ==> Started(s, OnValueStart(s, c).core)
  {
    hide Lower, FirstOption;
    OptionStarts(Lower(c));
  }

  lemma OptionStarts(low: char)
    ensures var h := FirstOption(low);
            ValueOk(Matcher(h, 0)) && h != ContentLengthNum && h != ContentLengthWs
  {
  }

  lemma ValueStartKeeps(s: Core, c: char)
    requires HeadersOk(s) && (s.name.header == ContentLengthWs ==> s.frame.flags.contentLength)
    ensures Kept(OnValueStart(s, c))
  {
    hide NameOk, PayloadOk, ValueOk, OnValueStart;
    ValueStarted(s, c);
  }

  /** What a character of a value may change. */
  predicate VerdictOk(s: Core, v: Verdict) {
    v.errno == OK ==>
      && v.index <= 17 && ValueOk(Matcher(v.header, v.index))
      && (v.header == ContentLengthNum || v.header == ContentLengthWs ==> v.flags.contentLength)
      && v.length <= ABSENT && (v.flags.contentLength ==> v.length < ABSENT)
      && v.flags.trailing == s.frame.flags.trailing && v.flags.chunked == s.frame.flags.chunked
  }

  predicate ValueState(s: Core) {
    && SmallOk(s) && ValueOk(s.name) && (s.frame.flags.contentLength ==> s.frame.length < ABSENT)
    && (s.name.header == ContentLengthNum || s.name.header == ContentLengthWs ==> s.frame.flags.contentLength)
  }

  lemma LengthCharKeeps(s: Core, c: char)
    requires ValueState(s) && s.name.header == ContentLengthNum
    ensures VerdictOk(s, LengthChar(s, c))
  {
  }

  lemma OptionEndKeeps(s: Core, c: char)
    requires ValueState(s)
        && (s.name.header == KeepAlive || s.name.header == Close || s.name.header == ConnectionUpgrade)
    ensures VerdictOk(s, OptionEnd(Verdict(s.name.header, s.name.index, s.frame.flags, s.frame.length, OK), c))
  {
  }

  lemma MatchKeeps(s: Core, word: string, c: char, going: Header, done: Header, failed: Header)
    requires ValueState(s) && s.name.header == going && s.name.index < |word| - 1 <= 16
    requires failed == General || failed == ConnectionToken
    requires done == Chunked || done == KeepAlive || done == Close || done == ConnectionUpgrade
    requires forall i :: 0 <= i < |word| - 1 ==> ValueOk(Matcher(going, i))
    requires going != ContentLengthNum && going != ContentLengthWs
    ensures VerdictOk(s, Matched(Verdict(s.name.header, s.name.index, s.frame.flags, s.frame.length, OK),
                                 Match(word, s.name.index, c, going, done, failed)))
  {
  }

  lemma TokenStartKeeps(s: Core, c: char)
    requires ValueState(s) && s.name.header == TokenStart
    ensures VerdictOk(s, ValueChar(s, c))
  {
    hide Token, Lower;
  }

  lemma ValueCharKeeps(s: Core, c: char)
    requires ValueState(s)
    ensures VerdictOk(s, ValueChar(s, c))
  {
    hide Lower, Token, Match, LengthChar, OptionEnd, Matched;
    match s.name.header
    case ContentLengthNum => LengthCharKeeps(s, c);
    case MatchChunked => MatchKeeps(s, "chunked", Lower(c), MatchChunked, Chunked, General);
    case MatchKeepAlive => MatchKeeps(s, "keep-alive", Lower(c), MatchKeepAlive, KeepAlive, ConnectionToken);
    case MatchClose => MatchKeeps(s, "close", Lower(c), MatchClose, Close, ConnectionToken);
    case MatchConnectionUpgrade =>
      MatchKeeps(s, "upgrade", Lower(c), MatchConnectionUpgrade, ConnectionUpgrade, ConnectionToken);
    case TokenStart => TokenStartKeeps(s, c);
    case KeepAlive => OptionEndKeeps(s, c);
    case Close => OptionEndKeeps(s, c);
    case ConnectionUpgrade => OptionEndKeeps(s, c);
    case _ =>
  }

  lemma ValueKeeps(s: Core, c: char)
    requires Inv(s) && s.phase == Heading(HeaderValue) && s.errno == OK
    ensures Kept(OnValue(s, c))
  {
    hide ValueChar, NameOk, ValueOk, PayloadOk;
    ValueCharKeeps(s, c);
  }

  lemma DoneKeeps(s: Core)
    requires HeadersOk(s) && s.frame.nread == 0
    ensures Kept(OnHeadersDone(s))
  {
    hide NameOk, ValueOk, HeadingOk, NeedsEof;
  }

  lemma AlmostDoneKeeps(s: Core, c: char)
    requires HeadersOk(s)
    ensures Kept(OnHeadersAlmostDone(s, c))
  {
    hide NameOk, ValueOk, HeadingOk, NeedsEof, OnHeadersDone, PayloadOk;
    if !s.frame.flags.trailing {
      DoneKeeps(Decided(s));
    }
  }

  lemma FieldStartKeeps(s: Core, c: char)
    requires HeadersOk(s)
    ensures Kept(OnFieldStart(s, c))
  {
    hide ValueOk, PayloadOk, OnHeadersAlmostDone, Token;
    AlmostDoneKeeps(s.(phase := Heading(HeadersAlmostDone)), c);
  }

  lemma LwsKeeps(s: Core, c: char)
    requires Inv(s) && s.phase == Heading(ValueLws) && s.errno == OK
    ensures Kept(OnValueLws(s, c))
  {
    hide OnFieldStart, OnValueStart, PayloadOk, NameOk, ValueOk, SetFlags;
    if c == ' ' || c == '\t' {
      FoldedKeeps(s, c);
    } else {
      NextHeaderOk(s);
      FieldStartKeeps(NextHeader(s), c);
    }
  }

  lemma NextHeaderOk(s: Core)
    requires Inv(s) && s.phase == Heading(ValueLws) && s.errno == OK
    ensures HeadersOk(NextHeader(s))
  {
    hide PayloadOk, NameOk, ValueOk;
  }

  lemma FoldedKeeps(s: Core, c: char)
    requires Inv(s) && s.phase == Heading(ValueLws) && s.errno == OK && (c == ' ' || c == '\t')
    ensures Kept(OnValueLws(s, c))
  {
    hide OnFieldStart, OnValueStart, PayloadOk, NameOk, ValueOk;
    var h := if s.name.header == ContentLengthNum then ContentLengthWs else s.name.header;
    ValueStartKeeps(Named(s.(phase := Heading(ValueStart)), h), c);
  }

  lemma DiscardWsKeeps(s: Core, c: char)
    requires Inv(s) && s.phase == Heading(ValueDiscardWs) && s.errno == OK
    ensures Kept(OnDiscardWs(s, c))
  {
    hide OnValueStart, PayloadOk, ValueOk, NameOk;
    NotNumber(s.name);
    ValueStartKeeps(s, c);
  }

  lemma NotNumber(m: Matcher)
    requires NameOk(m)
    ensures m.header != ContentLengthWs && m.header != ContentLengthNum
  {
  }

  lemma DiscardLwsKeeps(s: Core, c: char)
    requires Inv(s) && s.phase == Heading(ValueDiscardLws) && s.errno == OK
    ensures Kept(OnDiscardLws(s, c))
  {
    hide OnFieldStart, PayloadOk, ValueOk, NameOk;
    FieldStartKeeps(NextHeader(s), c);
  }

  lemma HeaderKeeps(s: Core, at: HeadingAt, c: char)
    requires Inv(s) && s.phase == Heading(at) && s.errno == OK
    ensures Kept(OnHeader(s, at, c))
  {
    hide OnFieldStart, OnValueStart, OnValue, OnField, OnHeadersAlmostDone, PayloadOk, OnValueLws, OnDiscardWs,
        OnDiscardLws;
    match at
    case HeaderField => FieldKeeps(s, c);
    case HeaderValue => ValueKeeps(s, c);
    case HeaderFieldStart => FieldStartKeeps(s, c);
    case ValueDiscardWs => DiscardWsKeeps(s, c);
    case ValueDiscardLws => DiscardLwsKeeps(s, c);
    case HeadersAlmostDone => AlmostDoneKeeps(s, c);
    case ValueLws => LwsKeeps(s, c);
    case _ =>
  }

  // ---------------------------------------------------------------- every run

  /** One byte keeps the invariant, as long as it is no error. */
  lemma HandleKeeps(s: Core, c: char)
    requires Inv(s) && s.errno == OK
    ensures Kept(Handle(s, c))
  {
    hide OnStart, OnStatusLine, OnMethod, OnUrl, OnVersion, OnHeader, OnChunkSize, OnBody, HeadingOk;
    var t := Counted(s);
    if !s.phase.Chunking? {
      CountedKeeps(s);
    }
    match s.phase
    case Begin(at) => StartKeeps(t, at, c);
    case StatusLine(at) => StatusKeeps(t, at, c);
    case ReqMethod => MethodKeeps(t, c);
    case Target(at) => UrlKeeps(t, at, c);
    case Version(at) => VersionKeeps(t, at, c);
    case Heading(at) => HeaderKeeps(t, at, c);
    case Chunking(at) => ChunkSizeKeeps(s, at, c);
    case Payload(at) => BodyKeeps(t, at, c);
  }

  lemma CountedKeeps(s: Core)
    requires Inv(s) && !s.phase.Chunking?
    ensures Inv(Counted(s)) && Counted(s).phase == s.phase && Counted(s).errno == s.errno
  {
    hide NameOk, ValueOk, Name;
  }

  /** The assertions of `http_parser_execute`, at the byte where it makes them. */
  predicate AssertionsHold(s: Core) {
    match s.phase
    case Heading(HeaderField) => NameOk(s.name)
    case Heading(HeaderValue) => s.name.header != Connection && s.name.header != TransferEncoding
    case Chunking(ChunkSizeStart) => s.frame.nread == 1 && s.frame.flags.chunked
    case Chunking(_) => s.frame.flags.chunked
    case Payload(BodyIdentity) => s.frame.length != 0 && s.frame.length != ABSENT
    case Payload(ChunkData) => s.frame.flags.chunked && s.frame.length != 0 && s.frame.length != ABSENT
    case Payload(ChunkDataAlmostDone) => s.frame.flags.chunked && s.frame.length == 0
    case Payload(ChunkDataDone) => s.frame.flags.chunked
    case _ => true
  }

  /** In every state a parser can reach, by any bytes at all, the assertions hold. */
  lemma {:induction false} RunKeeps(s: State, x: string)
    requires Inv(s.core) && s.core.errno == OK
    ensures var t := Run(s, x).core; t.errno == OK ==> Inv(t) && AssertionsHold(Counted(t))
  {
    hide Inv, AssertionsHold, Handle;
    if x == "" {
      AssertionsFollow(s.core);
    } else {
      var y, c := x[..|x| - 1], x[|x| - 1];
      RunKeeps(s, y);
      assert x == y + [c];
      RunLast(s, y, c);
      if Run(s, x).core.errno == OK {
        HandleKeeps(Run(s, y).core, c);
        AssertionsFollow(Run(s, x).core);
      }
    }
  }

  lemma AssertionsFollow(s: Core)
    requires Inv(s)
    ensures AssertionsHold(Counted(s))
  {
    hide Name;
  }

  lemma InitOk(kind: Kind, lenient: bool, reply: nat)
    requires reply <= 2
    ensures Inv(Init(kind, lenient, reply))
  {
  }
}
