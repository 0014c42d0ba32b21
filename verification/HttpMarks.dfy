/** The marks of `http_parser_execute`: which part of the message is being collected in each state,
    and why at most one mark is ever set. */
module HttpMarks {
  import opened HttpChars
  import opened Options
  import opened HttpStep
  import opened HttpTrace
  import opened HttpInvariant
  import opened Folding

  /** The part a state is inside of. */
  function OpenPart(p: Phase): Option<Part> {
    match p
    case Target(at) => if at == ReqSpacesBeforeUrl then None else Some(Url)
    case StatusLine(at) => if at == ResStatus then Some(Status) else None
    case Heading(at) => if at == HeaderField then Some(Field) else if at == HeaderValue then Some(Value) else None
    case Payload(at) => if at == ChunkDataDone || at == MessageDone then None else Some(Body)
    case _ => None
  }

  /** An act never meets the mark of another part. */
  predicate Fits(o: Option<Part>, a: Act) {
    match a
    case Take(part) => o.None? || o.value == part
    case Flush(part) => o.None? || o.value == part
    case Empty(_) => o.None?
    case Notify(event) => o.None? && !event.Data?
  }

  predicate NoTake(acts: seq<Act>) {
    forall i :: 0 <= i < |acts| ==> !acts[i].Take?
  }

  function After(o: Option<Part>, a: Act): Option<Part> {
    match a
    case Take(part) => Some(part)
    case _ => None
  }

  /** The acts of a byte in order: none meets a foreign mark, and a part stays open exactly if the byte
      belongs to it; `to` is the part the next state is inside of. */
  predicate Well(o: Option<Part>, acts: seq<Act>, to: Option<Part>)
    decreases |acts|
  {
    if acts == [] then o.None? && (to.None? || to.value == Body)
    else if |acts| == 1 then
      Fits(o, acts[0]) && (After(o, acts[0]) == to || (After(o, acts[0]).None? && to == Some(Body)))
    else Fits(o, acts[0]) && (acts[0].Take? ==> NoTake(acts[1..])) && Well(After(o, acts[0]), acts[1..], to)
  }

  lemma WellThen(o: Option<Part>, a: Act, rest: seq<Act>, to: Option<Part>)
    requires Fits(o, a) && After(o, a).None? && Well(None, rest, to)
    ensures Well(o, [a] + rest, to)
  {
    assert ([a] + rest)[1..] == rest;
  }

  predicate OutWell(o: Option<Part>, out: Out) {
    out.core.errno == OK ==> Well(o, out.acts, OpenPart(out.core.phase))
  }

  lemma StartWell(s: Core, at: BeginAt, c: char)
    requires s.phase == Begin(at)
    ensures OutWell(None, OnStart(s, at, c))
  {
    hide FirstGuess;
  }

  lemma StatusWell(s: Core, at: StatusAt, c: char)
    requires s.phase == StatusLine(at)
    ensures OutWell(OpenPart(s.phase), OnStatusLine(s, at, c))
  {
  }

  lemma MethodWell(s: Core, c: char)
    requires s.phase == ReqMethod
    ensures OutWell(None, OnMethod(s, c))
  {
    hide Name, NextGuess;
  }

  lemma UrlWell(s: Core, at: UrlAt, c: char)
    requires s.phase == Target(at)
    ensures OutWell(OpenPart(s.phase), OnUrl(s, at, c))
  {
    hide IsUrlChar, IsUserInfo, IsAlpha;
    NeverBack(at, c);
    NeverBack(ReqServerStart, c);
  }

  lemma NeverBack(at: UrlAt, c: char)
    ensures UrlChar(at, c) != Some(ReqSpacesBeforeUrl)
  {
  }

  lemma VersionWell(s: Core, at: VersionAt, c: char)
    requires s.phase == Version(at)
    ensures OutWell(None, OnVersion(s, at, c))
  {
  }

  lemma ChunkSizeWell(s: Core, at: ChunkingAt, c: char)
    requires s.phase == Chunking(at)
    ensures OutWell(None, OnChunkSize(s, at, c))
  {
    hide Unhex;
  }

  lemma DoneWell(s: Core, c: char)
    requires s.phase == Heading(HeadersAlmostDone)
    ensures OutWell(None, OnHeadersAlmostDone(s, c))
  {
    hide NeedsEof, KeepsAlive;
    if !s.frame.flags.trailing {
      var out := OnHeadersDone(Decided(s));
      WellThen(None, Notify(HeadersComplete), out.acts, OpenPart(out.core.phase));
    } else {
      var out := OnMessageDone(s.(phase := Payload(MessageDone)));
      WellThen(None, Notify(ChunkComplete), out.acts, OpenPart(out.core.phase));
    }
  }

  lemma FieldStartWell(s: Core, c: char)
    ensures OutWell(None, OnFieldStart(s, c))
  {
    hide OnHeadersAlmostDone, Token;
    DoneWell(s.(phase := Heading(HeadersAlmostDone)), c);
  }

  lemma HeaderWell(s: Core, at: HeadingAt, c: char)
    requires s.phase == Heading(at)
    ensures OutWell(OpenPart(s.phase), OnHeader(s, at, c))
  {
    hide OnHeadersAlmostDone, Token, OnFieldStart, ValueChar, NameChar, OnValueStart, IsHeaderChar, Well;
    ValueStartWell(s, c);
    match at
    case HeaderFieldStart => FieldStartWell(s, c);
    case HeaderField => FieldWell(s, c);
    case HeaderValue => ValueWell(s, c);
    case ValueLws => LwsWell(s, c);
    case ValueDiscardLws => DiscardLwsWell(s, c);
    case HeadersAlmostDone => DoneWell(s, c);
    case _ => Silent();
  }

  lemma Silent()
    ensures Well(None, [], None)
  {
  }

  lemma ValueStartWell(s: Core, c: char)
    ensures OutWell(None, OnValueStart(s, c))
  {
    hide Lower;
  }

  lemma FieldWell(s: Core, c: char)
    requires s.phase == Heading(HeaderField)
    ensures OutWell(Some(Field), OnField(s, c))
  {
    hide Token, NameChar;
  }

  lemma ValueWell(s: Core, c: char)
    requires s.phase == Heading(HeaderValue)
    ensures OutWell(Some(Value), OnValue(s, c))
  {
    hide ValueChar, IsHeaderChar;
  }

  lemma LwsWell(s: Core, c: char)
    requires s.phase == Heading(ValueLws)
    ensures OutWell(None, OnValueLws(s, c))
  {
    hide OnValueStart, OnFieldStart, Well;
    var h := if s.name.header == ContentLengthNum then ContentLengthWs else s.name.header;
    ValueStartWell(Named(s.(phase := Heading(ValueStart)), h), c);
    FieldStartWell(NextHeader(s), c);
  }

  lemma DiscardLwsWell(s: Core, c: char)
    requires s.phase == Heading(ValueDiscardLws)
    ensures OutWell(None, OnDiscardLws(s, c))
  {
    hide OnFieldStart, Well;
    Silent();
    var out := OnFieldStart(NextHeader(s), c);
    FieldStartWell(NextHeader(s), c);
    if out.core.errno == OK {
      WellThen(None, Empty(Value), out.acts, OpenPart(out.core.phase));
    }
  }

  lemma BodyWell(s: Core, at: PayloadAt, c: char)
    requires s.phase == Payload(at)
    ensures OutWell(OpenPart(s.phase), OnBody(s, at, c))
  {
    hide NewMessage;
    NewWell(Sized(s.(phase := Payload(MessageDone)), 0));
    NewWell(s);
    var acts := [Take(Body), Flush(Body)] + [Notify(MessageComplete)];
    assert acts[1..] == [Flush(Body), Notify(MessageComplete)];
    assert acts[1..][1..] == [Notify(MessageComplete)];
    assert Well(None, acts[1..][1..], None);
    assert Well(Some(Body), acts[1..], None);
  }

  lemma NewWell(s: Core)
    ensures OpenPart(NewMessage(s)) == None
  {
  }

  /** No byte in any state ever meets two marks, and the part a byte belongs to is the one the new
      state is inside of. */
  lemma HandleWell(s: Core, c: char)
    ensures OutWell(OpenPart(s.phase), Handle(s, c))
  {
    hide OnStart, OnStatusLine, OnMethod, OnUrl, OnVersion, OnHeader, OnChunkSize, OnBody, OutWell;
    var t := Counted(s);
    match s.phase
    case Begin(at) => StartWell(t, at, c);
    case StatusLine(at) => StatusWell(t, at, c);
    case ReqMethod => MethodWell(t, c);
    case Target(at) => UrlWell(t, at, c);
    case Version(at) => VersionWell(t, at, c);
    case Heading(at) => HeaderWell(t, at, c);
    case Chunking(at) => ChunkSizeWell(t, at, c);
    case Payload(at) => BodyWell(t, at, c);
  }

  // ---------------------------------------------------------------- bytes that are errors

  /** A byte that is an error makes no callback, except that it may end an empty header value. The limit on
      the header size is no business of the switch. */
  predicate FailsWell(s: Core, o: Out) {
    o.core.errno != OK ==>
      o.core.errno != HEADER_OVERFLOW && (o.acts == [] || (o.acts == [Empty(Value)] && OpenPart(s.phase).None?))
  }

  lemma StartFails(s: Core, at: BeginAt, c: char)
    requires s.errno == OK && s.phase == Begin(at)
    ensures FailsWell(s, OnStart(s, at, c))
  {
    hide FirstGuess, IsAlpha;
  }

  lemma UrlFails(s: Core, at: UrlAt, c: char)
    requires s.errno == OK
    ensures FailsWell(s, OnUrl(s, at, c))
  {
    hide UrlChar;
  }

  lemma FieldStartFails(s: Core, c: char)
    requires s.errno == OK
    ensures var o := OnFieldStart(s, c); o.core.errno != OK ==> o.core.errno != HEADER_OVERFLOW && o.acts == []
  {
    hide NeedsEof, KeepsAlive, NewMessage, Token;
  }

  lemma ValueFails(s: Core, c: char)
    requires s.errno == OK
    ensures FailsWell(s, OnValue(s, c))
  {
    hide Match, Lower, Token, IsHeaderChar;
  }

  lemma FieldFails(s: Core, c: char)
    requires s.errno == OK
    ensures FailsWell(s, OnField(s, c))
  {
    hide NameChar, Token;
  }

  lemma ValueStartFails(s: Core, c: char)
    requires s.errno == OK
    ensures var o := OnValueStart(s, c); o.core.errno != OK ==> o.core.errno != HEADER_OVERFLOW && o.acts == []
  {
    hide Lower, FirstOption;
  }

  lemma LwsFails(s: Core, c: char)
    requires s.errno == OK && (s.phase == Heading(ValueLws) || s.phase == Heading(ValueDiscardLws))
    ensures FailsWell(s, OnValueLws(s, c)) && FailsWell(s, OnDiscardLws(s, c))
  {
    hide OnFieldStart, OnValueStart, SetFlags;
    FieldStartFails(NextHeader(s), c);
    var h := if s.name.header == ContentLengthNum then ContentLengthWs else s.name.header;
    ValueStartFails(Named(s.(phase := Heading(ValueStart)), h), c);
  }

  lemma HeaderFails(s: Core, at: HeadingAt, c: char)
    requires s.errno == OK && s.phase == Heading(at)
    ensures FailsWell(s, OnHeader(s, at, c))
  {
    hide OnFieldStart, OnValue, OnField, OnValueStart, OnValueLws, OnDiscardLws, OnHeadersDone, OnMessageDone;
    FieldStartFails(s, c);
    ValueFails(s, c);
    FieldFails(s, c);
    ValueStartFails(s, c);
    if at == ValueLws || at == ValueDiscardLws {
      LwsFails(s, c);
    } else if at != HeaderFieldStart && at != HeaderField && at != HeaderValue {
      DoneFails(s, c);
    }
  }

  lemma DoneFails(s: Core, c: char)
    requires s.errno == OK
    ensures FailsWell(s, OnHeadersAlmostDone(s, c))
  {
    hide NeedsEof, KeepsAlive, NewMessage;
  }

  lemma LineFails(s: Core, c: char)
    requires s.errno == OK && (s.phase.StatusLine? || s.phase.Version? || s.phase.ReqMethod?)
    ensures FailsWell(s, OnByte(s, c))
  {
    hide NextGuess, Name;
  }

  lemma BodyFails(s: Core, c: char)
    requires s.errno == OK && (s.phase.Chunking? || s.phase.Payload?)
    ensures FailsWell(s, OnByte(s, c))
  {
    hide NewMessage, Unhex;
  }

  lemma FailWell(s: Core, c: char)
    requires s.errno == OK
    ensures FailsWell(s, Handle(s, c))
  {
    hide OnHeader, OnStart, OnUrl, OnBody, OnChunkSize, OnStatusLine, OnVersion, OnMethod;
    var t := Counted(s);
    match s.phase
    case Begin(at) => StartFails(t, at, c);
    case Heading(at) => HeaderFails(t, at, c);
    case Target(at) => UrlFails(t, at, c);
    case Chunking(_) => BodyFails(t, c);
    case Payload(_) => BodyFails(t, c);
    case _ => LineFails(t, c);
  }
}
