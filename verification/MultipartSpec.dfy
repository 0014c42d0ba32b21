/** lib/libhv/http/multipart_parser.c one character at a time, and why its naive restart after a
    partial match of the boundary never misses one. */
module MultipartSpec {
  import opened Folding

  const CR: char := '\r'
  const LF: char := '\n'
  const CRLF := "\r\n"

  /** `enum state`. */
  datatype Phase =
    | Start | StartBoundary | HeaderFieldStart | HeaderField | HeadersAlmostDone
    | HeaderValueStart | HeaderValue | HeaderValueAlmostDone
    | PartDataStart | PartData | AlmostBoundary | PartBoundary
    | AlmostEnd | PartEnd | FinalHyphen | End

  /** `failed` is an early return; `torn` tells that a header line ended without a colon. */
  datatype Core = Core(phase: Phase, index: nat, boundary: string, lookbehind: string, failed: bool, torn: bool)

  datatype Part = Field | Value | Content

  datatype Event = PartBegin | HeadersComplete | PartDone | BodyEnd | Data(part: Part, text: string)

  /** What a character does to the trace: it belongs to a part, a part ends, characters held back belong
      to the content after all, or a notification is due. */
  datatype Act = Take(part: Part) | Flush(part: Part) | Text(text: string) | Notify(event: Event)

  datatype Out = Out(core: Core, acts: seq<Act>)

  function Fail(s: Core): Out {
    Out(s.(failed := true), [])
  }

  function To(s: Core, phase: Phase): Out {
    Out(s.(phase := phase), [])
  }

  function Then(acts: seq<Act>, o: Out): Out {
    Out(o.core, acts + o.acts)
  }

  predicate IsAlpha(c: char) {
    'A' <= c <= 'Z' || 'a' <= c <= 'z'
  }

  function OnStart(s: Core, c: char): Out {
    var n := |s.boundary|;
    if s.index == n then (if c != CR then Fail(s) else Out(s.(index := n + 1), []))
    else if s.index == n + 1 then
      if c != LF then Fail(s) else Out(s.(index := 0, phase := HeaderFieldStart), [Notify(PartBegin)])
    else if s.index > n || c != s.boundary[s.index] then Fail(s)
    else Out(s.(index := s.index + 1), [])
  }

  function OnField(s: Core, c: char, first: bool): Out {
    if c == CR then Out(s.(phase := HeadersAlmostDone, torn := s.torn || !first), [])
    else if c == ':' then Out(s.(phase := HeaderValueStart), [Flush(Field)])
    else if c == '-' || IsAlpha(c) then Out(s.(phase := HeaderField), [Take(Field)])
    else Fail(s.(phase := HeaderField))
  }

  function OnValue(s: Core, c: char): Out {
    if c == CR then Out(s.(phase := HeaderValueAlmostDone), [Flush(Value)])
    else Out(s.(phase := HeaderValue), [Take(Value)])
  }

  function OnData(s: Core, c: char): Out {
    if c == CR then Out(s.(phase := AlmostBoundary, lookbehind := [CR]), [Flush(Content)])
    else Out(s.(phase := PartData), [Take(Content)])
  }

  function OnAlmostBoundary(s: Core, c: char): Out {
    if c == LF then Out(s.(phase := PartBoundary, lookbehind := CRLF, index := 0), [])
    else Then([Text([CR])], OnData(s.(phase := PartData), c))
  }

  function OnBoundary(s: Core, c: char): Out {
    if s.index >= |s.boundary| || s.boundary[s.index] != c then
      Then([Text(s.lookbehind)], OnData(s.(phase := PartData), c))
    else
      var t := s.(lookbehind := s.lookbehind + [c], index := s.index + 1);
      if t.index == |s.boundary| then Out(t.(phase := AlmostEnd), [Notify(PartDone)]) else Out(t, [])
  }

  function Handle(s: Core, c: char): Out {
    match s.phase
    case Start => OnStart(s.(index := 0, phase := StartBoundary), c)
    case StartBoundary => OnStart(s, c)
    case HeaderFieldStart => OnField(s, c, true)
    case HeaderField => OnField(s, c, false)
    case HeadersAlmostDone => if c == LF then To(s, PartDataStart) else Fail(s)
    case HeaderValueStart => if c == ' ' then To(s, HeaderValueStart) else OnValue(s, c)
    case HeaderValue => OnValue(s, c)
    case HeaderValueAlmostDone => if c == LF then To(s, HeaderFieldStart) else Fail(s)
    case PartDataStart => Then([Notify(HeadersComplete)], OnData(s, c))
    case PartData => OnData(s, c)
    case AlmostBoundary => OnAlmostBoundary(s, c)
    case PartBoundary => OnBoundary(s, c)
    case AlmostEnd => if c == '-' then To(s, FinalHyphen) else if c == CR then To(s, PartEnd) else Fail(s)
    case FinalHyphen => if c == '-' then Out(s.(phase := End), [Notify(BodyEnd)]) else Fail(s)
    case PartEnd => if c == LF then Out(s.(phase := HeaderFieldStart), [Notify(PartBegin)]) else Fail(s)
    case End => To(s, End)
  }

  // ---------------------------------------------------------------- the trace

  datatype State = State(core: Core, events: seq<Event>)

  function Emit(events: seq<Event>, part: Part, text: string): seq<Event> {
    var n := |events|;
    if n > 0 && events[n - 1].Data? && events[n - 1].part == part
    then events[..n - 1] + [Data(part, events[n - 1].text + text)]
    else events + [Data(part, text)]
  }

  function ApplyOne(events: seq<Event>, act: Act, c: char): seq<Event> {
    match act
    case Take(part) => Emit(events, part, [c])
    case Flush(part) => Emit(events, part, "")
    case Text(text) => Emit(events, Content, text)
    case Notify(event) => events + [event]
  }

  function Apply(events: seq<Event>, acts: seq<Act>, c: char): seq<Event> {
    if acts == [] then events else ApplyOne(Apply(events, acts[..|acts| - 1], c), acts[|acts| - 1], c)
  }

  function Step(s: State, c: char): State {
    if s.core.failed then s
    else
      var o := Handle(s.core, c);
      State(o.core, Apply(s.events, o.acts, c))
  }

  function Run(s: State, x: string): State {
    Fold(Step, s, x)
  }

  function Init(boundary: string): State {
    State(Core(Start, 0, boundary, "", false, false), [])
  }

  lemma RunConcat(s: State, x: string, y: string)
    ensures Run(s, x + y) == Run(Run(s, x), y)
  {
    FoldConcat(Step, s, x, y);
  }

  lemma RunOne(s: State, c: char)
    ensures Run(s, [c]) == Step(s, c)
  {
    FoldOne(Step, s, c);
  }

  lemma RunLast(s: State, x: string, c: char)
    ensures Run(s, x + [c]) == Step(Run(s, x), c)
  {
    FoldLast(Step, s, x, c);
  }

  lemma RunFirst(s: State, c: char, y: string)
    ensures Run(s, [c] + y) == Run(Step(s, c), y)
  {
    RunConcat(s, [c], y);
    RunOne(s, c);
  }

  /** Cutting the input into pieces makes no difference to the machine. */
  lemma SplitsDoNotMatter(s: State, parts: seq<string>)
    ensures FoldAll(Step, s, parts) == Run(s, Join(parts))
  {
    SplitIndependence(Step, s, parts);
  }

  lemma EmitTwice(events: seq<Event>, part: Part, a: string, b: string)
    ensures Emit(Emit(events, part, a), part, b) == Emit(events, part, a + b)
  {
    var n := |events|;
    if n > 0 && events[n - 1].Data? && events[n - 1].part == part {
      assert events[n - 1].text + a + b == events[n - 1].text + (a + b);
    }
  }

  lemma ApplySingle(events: seq<Event>, a: Act, c: char)
    ensures Apply(events, [a], c) == ApplyOne(events, a, c) && Apply(events, [], c) == events
  {
    assert [a][..0] == [];
  }

  lemma ApplyTwo(events: seq<Event>, a: Act, b: Act, c: char)
    ensures Apply(events, [a] + [b], c) == ApplyOne(ApplyOne(events, a, c), b, c)
  {
    assert ([a] + [b])[..1] == [a];
    ApplySingle(events, a, c);
  }

  // ---------------------------------------------------------------- scanning for the boundary

  /** Characters that might be the beginning of the end of the part. */
  function Pending(s: Core): string {
    match s.phase
    case AlmostBoundary => [CR]
    case PartBoundary => s.lookbehind
    case _ => ""
  }

  predicate Scanning(s: Core) {
    && !s.failed && |s.boundary| > 0 && CR !in s.boundary
    && (s.phase == PartData || s.phase == AlmostBoundary
        || (s.phase == PartBoundary && s.index < |s.boundary| && s.lookbehind == CRLF + s.boundary[..s.index]))
  }

  /** One more character: either the characters let go (`t`) and those still held back are what was held
      back before and the new one, or the boundary is complete. */
  predicate Scanned(s: State, c: char, t: string) {
    var u := Step(s, c);
    && u.core.boundary == s.core.boundary && u.core.torn == s.core.torn
    && (if Pending(s.core) + [c] == CRLF + s.core.boundary
        then u.core.phase == AlmostEnd && !u.core.failed && u.events == s.events + [PartDone]
        else Scanning(u.core) && t + Pending(u.core) == Pending(s.core) + [c]
             && (u.events == Emit(s.events, Content, t) || (t == "" && u.events == s.events)))
  }

  lemma ScanData(s: State, c: char) returns (t: string)
    requires Scanning(s.core) && s.core.phase == PartData
    ensures Scanned(s, c, t)
  {
    hide Emit;
    t := if c == CR then "" else [c];
    ApplySingle(s.events, if c == CR then Flush(Content) else Take(Content), c);
    assert |CRLF + s.core.boundary| > 1;
  }

  lemma ScanAlmost(s: State, c: char) returns (t: string)
    requires Scanning(s.core) && s.core.phase == AlmostBoundary
    ensures Scanned(s, c, t)
  {
    hide Emit;
    t := "";
    assert |CRLF + s.core.boundary| > 2;
    if c == LF {
      ApplySingle(s.events, Flush(Content), c);
      assert CRLF == [CR] + [LF] && CRLF + s.core.boundary[..0] == CRLF;
      assert "" + CRLF == [CR] + [c];
    } else {
      t := if c == CR then [CR] else [CR] + [c];
      Restart(s.events, [CR], c);
    }
  }

  lemma ScanBoundary(s: State, c: char) returns (t: string)
    requires Scanning(s.core) && s.core.phase == PartBoundary
    ensures Scanned(s, c, t)
  {
    hide Emit;
    var b, k, held := s.core.boundary, s.core.index, s.core.lookbehind;
    t := "";
    BoundaryGrows(b, k, c);
    if b[k] == c {
      ApplySingle(s.events, Notify(PartDone), c);
    } else {
      t := if c == CR then held else held + [c];
      Restart(s.events, held, c);
    }
  }

  lemma BoundaryGrows(b: string, k: nat, c: char)
    requires k < |b|
    ensures CRLF + b[..k] + [c] == CRLF + b <==> b[k] == c && k + 1 == |b|
    ensures b[k] == c ==> CRLF + b[..k] + [c] == CRLF + b[..k + 1]
  {
    var x := CRLF + b[..k] + [c];
    assert x[2 + k] == c && (CRLF + b)[2 + k] == b[k];
    if b[k] == c {
      assert b[..k + 1] == b[..k] + [c];
      assert b[..|b|] == b;
    }
  }

  lemma ScanStep(s: State, c: char) returns (t: string)
    requires Scanning(s.core)
    ensures Scanned(s, c, t)
  {
    hide Scanned;
    if s.core.phase == PartData {
      t := ScanData(s, c);
    } else if s.core.phase == AlmostBoundary {
      t := ScanAlmost(s, c);
    } else {
      t := ScanBoundary(s, c);
    }
  }

  lemma Restart(events: seq<Event>, held: string, c: char)
    ensures Apply(events, [Text(held)] + [if c == CR then Flush(Content) else Take(Content)], c)
         == Emit(events, Content, if c == CR then held else held + [c])
  {
    hide Emit;
    ApplyTwo(events, Text(held), if c == CR then Flush(Content) else Take(Content), c);
    EmitTwice(events, Content, held, if c == CR then "" else [c]);
    assert held + "" == held;
  }

  /** The text `w` stands somewhere in `x`. */
  ghost predicate Occurs(x: string, w: string) {
    exists i: nat :: StandsAt(x, w, i)
  }

  predicate StandsAt(x: string, w: string, i: nat) {
    i + |w| <= |x| && x[i..i + |w|] == w
  }

  /** Through content without the boundary nothing is lost: what has been let go and what is held back
      are together what was read. */
  lemma {:induction false} ScanRun(s: State, x: string) returns (t: string)
    requires Scanning(s.core) && s.core.phase == PartData && !Occurs(x, CRLF + s.core.boundary)
    requires Emit(s.events, Content, "") == s.events
    ensures var u := Run(s, x);
            && Scanning(u.core) && u.core.boundary == s.core.boundary && u.core.torn == s.core.torn
            && t + Pending(u.core) == x && u.events == Emit(s.events, Content, t)
  {
    hide Emit, Step, Pending, Scanning;
    t := "";
    if x != "" {
      var r, c := x[..|x| - 1], x[|x| - 1];
      assert x == r + [c];
      NotBefore(r, c, CRLF + s.core.boundary);
      t := ScanRun(s, r);
      var u := Run(s, r);
      RunLast(s, r, c);
      var t' := ScanStep(u, c);
      Complete(t, Pending(u.core), c, x, CRLF + s.core.boundary);
      EmitTwice(s.events, Content, t, t');
      Grouped(t, t', Pending(Step(u, c).core), Pending(u.core), c);
      assert t + "" == t;
      t := t + t';
    } else {
      ScanStart(s);
    }
  }

  lemma ScanStart(s: State)
    requires Scanning(s.core) && s.core.phase == PartData
    ensures Pending(s.core) == ""
  {
  }

  lemma Grouped(t: string, t': string, p': string, p: string, c: char)
    requires t' + p' == p + [c]
    ensures t + t' + p' == t + p + [c]
  {
    assert t + t' + p' == t + (t' + p');
  }

  lemma NotBefore(r: string, c: char, w: string)
    requires !Occurs(r + [c], w)
    ensures !Occurs(r, w)
  {
    forall i: nat
      ensures !StandsAt(r, w, i)
    {
      StandsLater(r, c, w, i);
    }
  }

  lemma StandsLater(r: string, c: char, w: string, i: nat)
    ensures StandsAt(r, w, i) ==> StandsAt(r + [c], w, i)
  {
    if StandsAt(r, w, i) {
      assert (r + [c])[i..i + |w|] == r[i..i + |w|];
    }
  }

  /** A complete boundary would be an occurrence. */
  lemma Complete(t: string, p: string, c: char, x: string, w: string)
    requires t + p + [c] == x && !Occurs(x, w)
    ensures p + [c] != w
  {
    if p + [c] == w {
      assert x == t + w;
      assert x[|t|..|t| + |w|] == w;
      assert StandsAt(x, w, |t|);
    }
  }

  // ---------------------------------------------------------------- one part

  /** A carriage return always starts a fresh match: the boundary contains none. */
  lemma ScanCr(s: State)
    requires Scanning(s.core) && Emit(s.events, Content, "") == s.events
    ensures var u := Step(s, CR);
            && Scanning(u.core) && u.core.phase == AlmostBoundary && u.core.boundary == s.core.boundary
            && u.core.torn == s.core.torn && u.events == Emit(s.events, Content, Pending(s.core))
  {
    hide Emit;
    if s.core.phase == PartData {
      ApplySingle(s.events, Flush(Content), CR);
    } else {
      Restart(s.events, Pending(s.core), CR);
    }
  }

  lemma ScanLf(s: State)
    requires Scanning(s.core) && s.core.phase == AlmostBoundary
    ensures var u := Step(s, LF);
            && u == State(s.core.(phase := PartBoundary, lookbehind := CRLF, index := 0), s.events)
            && AtBoundary(u.core, 0)
  {
    ApplySingle(s.events, Flush(Content), LF);
    assert CRLF + s.core.boundary[..0] == CRLF;
  }

  /** `k` characters into the boundary. */
  predicate AtBoundary(s: Core, k: nat) {
    Scanning(s) && s.phase == PartBoundary && s.index == k
  }

  lemma BoundaryStep(s: State, k: nat)
    requires AtBoundary(s.core, k)
    ensures var u := Step(s, s.core.boundary[k]);
            && u.core.boundary == s.core.boundary && u.core.torn == s.core.torn
            && (if k + 1 == |s.core.boundary| then u.core.phase == AlmostEnd && !u.core.failed
              && u.events == s.events + [PartDone]
             else AtBoundary(u.core, k + 1) && u.events == s.events)
  {
    var b := s.core.boundary;
    BoundaryGrows(b, k, b[k]);
    ApplySingle(s.events, Notify(PartDone), b[k]);
  }

  lemma {:induction false} BoundaryRun(s: State, k: nat)
    requires AtBoundary(s.core, k)
    ensures Ended(s, Run(s, s.core.boundary[k..]))
    decreases |s.core.boundary| - k
  {
    hide Step, AtBoundary;
    var b := s.core.boundary;
    AtBoundaryWithin(s.core, k);
    assert b[k..] == [b[k]] + b[k + 1..];
    RunFirst(s, b[k], b[k + 1..]);
    BoundaryStep(s, k);
    if k + 1 < |b| {
      BoundaryRun(Step(s, b[k]), k + 1);
    } else {
      assert b[k + 1..] == "";
    }
  }

  lemma AtBoundaryWithin(s: Core, k: nat)
    requires AtBoundary(s, k)
    ensures k < |s.boundary|
  {
  }

  /** The part has ended, and nothing else has changed. */
  predicate Ended(s: State, u: State) {
    && u.core.phase == AlmostEnd && !u.core.failed && u.core.boundary == s.core.boundary && u.core.torn == s.core.torn
    && u.events == s.events + [PartDone]
  }

  lemma DelimiterRun(s: State)
    requires Scanning(s.core) && Emit(s.events, Content, "") == s.events
    ensures Ended(State(s.core, Emit(s.events, Content, Pending(s.core))), Run(s, CRLF + s.core.boundary))
  {
    hide Step, Scanning, AtBoundary, Emit, Pending;
    var b := s.core.boundary;
    assert CRLF + b == [CR] + ([LF] + b);
    RunFirst(s, CR, [LF] + b);
    ScanCr(s);
    RunFirst(Step(s, CR), LF, b);
    ScanLf(Step(s, CR));
    assert b[0..] == b;
    BoundaryRun(Step(Step(s, CR), LF), 0);
  }

  /** The first character of the content also completes the headers. */
  lemma DataBegins(s: State, c: char)
    requires s.core.phase == PartDataStart && !s.core.failed
    ensures Step(s, c) == Step(State(s.core.(phase := PartData), s.events + [HeadersComplete, Data(Content, "")]), c)
  {
    var a := if c == CR then Flush(Content) else Take(Content);
    ApplyTwo(s.events, Notify(HeadersComplete), a, c);
    ApplySingle(s.events + [HeadersComplete, Data(Content, "")], a, c);
    var e := s.events + [HeadersComplete, Data(Content, "")];
    assert e[..|e| - 1] == s.events + [HeadersComplete];
    assert "" + [c] == [c] && "" + "" == "";
  }

  /** A part whose content does not contain the boundary line is delivered exactly: the scanner, which
      restarts naively, never ends it early and never misses its end. */
  lemma PartRead(s: State, d: string)
    requires s.core.phase == PartDataStart && !s.core.failed && s.core.boundary != "" && CR !in s.core.boundary
    requires !Occurs(d, CRLF + s.core.boundary)
    ensures Ended(State(s.core, s.events + [HeadersComplete, Data(Content, d)]), Run(s, d + (CRLF + s.core.boundary)))
  {
    hide Step, Emit, Occurs;
    var b := s.core.boundary;
    var x := d + (CRLF + b);
    var e := s.events + [HeadersComplete, Data(Content, "")];
    var s' := State(s.core.(phase := PartData), e);
    assert x == [x[0]] + x[1..];
    RunFirst(s, x[0], x[1..]);
    RunFirst(s', x[0], x[1..]);
    DataBegins(s, x[0]);
    RunConcat(s', d, CRLF + b);
    EmitLast(s.events + [HeadersComplete], "", "");
    assert "" + "" == "";
    assert s.events + [HeadersComplete] + [Data(Content, "")] == e;
    var t := ScanRun(s', d);
    var u := Run(s', d);
    EmitTwice(e, Content, t, "");
    assert t + "" == t;
    DelimiterRun(u);
    EmitTwice(e, Content, t, Pending(u.core));
    EmitLast(s.events + [HeadersComplete], "", d);
    assert "" + d == d;
    assert s.events + [HeadersComplete] + [Data(Content, d)] == s.events + [HeadersComplete, Data(Content, d)];
  }

  lemma EmitLast(events: seq<Event>, a: string, b: string)
    ensures Emit(events + [Data(Content, a)], Content, b) == events + [Data(Content, a + b)]
  {
    var e := events + [Data(Content, a)];
    assert e[..|e| - 1] == events;
  }

  // ---------------------------------------------------------------- a boundary with CR in it

  lemma CoreLast(s: State, x: string, c: char)
    requires !Run(s, x).core.failed
    ensures Run(s, x + [c]).core == Handle(Run(s, x).core, c).core
  {
    RunLast(s, x, c);
  }

  /** With a carriage return in the boundary the naive restart can miss a match: this content does not contain
      the boundary line, and the part still does not end where it should. */
  lemma CrInBoundary(s: State)
    requires s.core.phase == PartDataStart && !s.core.failed && s.core.boundary == "a\r\nb"
    ensures !Occurs("\r\na", CRLF + s.core.boundary)
    ensures var t := Run(s, "\r\na" + (CRLF + s.core.boundary)); !t.core.failed && t.core.phase == PartData
  {
    FirstHalf(s);
    var x := "\r\na\r\n";
    assert "\r\na" + (CRLF + s.core.boundary) == x + ['a'] + [CR] + [LF] + ['b'];
    CoreLast(s, x, 'a');
    CoreLast(s, x + ['a'], CR);
    CoreLast(s, x + ['a'] + [CR], LF);
    CoreLast(s, x + ['a'] + [CR] + [LF], 'b');
  }

  lemma FirstHalf(s: State)
    requires s.core.phase == PartDataStart && !s.core.failed && s.core.boundary == "a\r\nb"
    ensures Run(s, "\r\na\r\n").core == s.core.(phase := PartBoundary, lookbehind := "\r\na\r\n", index := 3)
  {
    assert "\r\na\r\n" == "" + [CR] + [LF] + ['a'] + [CR] + [LF] && Run(s, "") == s;
    CoreLast(s, "", CR);
    CoreLast(s, "" + [CR], LF);
    CoreLast(s, "" + [CR] + [LF], 'a');
    CoreLast(s, "" + [CR] + [LF] + ['a'], CR);
    CoreLast(s, "" + [CR] + [LF] + ['a'] + [CR], LF);
  }
}
