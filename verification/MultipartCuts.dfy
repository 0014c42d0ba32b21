/** What cutting the input does to the callbacks of lib/libhv/http/multipart_parser.c: nothing, except that
    a header line which ends without a colon loses the part of its text that came in the last buffer. */
module MultipartCuts {
  import opened Folding
  import opened MultipartSpec

  /** A header line that ends without a colon. */
  predicate Tears(s: Core, c: char) {
    s.phase == HeaderField && c == CR
  }

  lemma TornSame(s: Core, c: char)
    ensures Handle(s, c).core.torn == (s.torn || Tears(s, c))
  {
  }

  predicate EndsInField(events: seq<Event>) {
    events != [] && events[|events| - 1].Data? && events[|events| - 1].part == Field
  }

  /** The last `k` characters of the field name being read are forgotten. */
  function Trim(events: seq<Event>, k: nat): seq<Event> {
    if !EndsInField(events) then events
    else
      var n, text := |events| - 1, events[|events| - 1].text;
      if k >= |text| then events[..n] else events[..n] + [Data(Field, text[..|text| - k])]
  }

  /** The machine within one buffer; `recent` counts the characters of the field name being read that
      this buffer holds, which no callback has seen yet. */
  datatype Reader = Reader(state: State, recent: nat)

  function ReadStep(r: Reader, c: char): Reader {
    var s := r.state;
    if s.core.failed then r
    else if Tears(s.core, c) then Reader(State(Handle(s.core, c).core, Trim(s.events, r.recent)), 0)
    else
      var t := Step(s, c);
      Reader(t, if t.core.phase == HeaderField then r.recent + 1 else 0)
  }

  function Read(r: Reader, x: string): Reader {
    Fold(ReadStep, r, x)
  }

  /** One call of `multipart_parser_execute`. */
  function Feed(s: State, x: string): State {
    Read(Reader(s, 0), x).state
  }

  /** A call for each buffer. */
  function FeedAll(s: State, pieces: seq<string>): State
    decreases |pieces|
  {
    if pieces == [] then s else FeedAll(Feed(s, pieces[0]), pieces[1..])
  }

  lemma ReadLast(r: Reader, x: string, c: char)
    ensures Read(r, x + [c]) == ReadStep(Read(r, x), c)
  {
    FoldLast(ReadStep, r, x, c);
  }

  // ---------------------------------------------------------------- the parts that never depend on the cuts

  /** A field name is open when it is being read, and none is between header lines. */
  predicate Coherent(s: State) {
    !s.core.failed ==>
      && (s.core.phase == HeaderField ==>
            && EndsInField(s.events) && s.events[|s.events| - 1].text != ""
            && !EndsInField(s.events[..|s.events| - 1]))
      && (s.core.phase == HeaderFieldStart || s.core.phase == HeaderValueAlmostDone ==> !EndsInField(s.events))
  }

  function DropField(events: seq<Event>): seq<Event> {
    if EndsInField(events) then events[..|events| - 1] else events
  }

  /** The trace without the field names of the lines that ended without a colon: those at the end of the
      headers. */
  function Clean(events: seq<Event>): seq<Event>
    decreases |events|
  {
    if events == [] then []
    else
      var e, front := events[|events| - 1], events[..|events| - 1];
      Clean(if e == HeadersComplete then DropField(front) else front) + [e]
  }

  predicate Ending(p: Phase) {
    p == HeadersAlmostDone || p == PartDataStart
  }

  function Essence(s: State): seq<Event> {
    Clean(if Ending(s.core.phase) then DropField(s.events) else s.events)
  }

  /** The same state, and traces that differ at most in field names of lines without a colon. */
  predicate Same(a: State, b: State) {
    a.core == b.core && Essence(a) == Essence(b)
  }

  lemma CleanLast(events: seq<Event>, e: Event)
    ensures Clean(events + [e]) == Clean(if e == HeadersComplete then DropField(events) else events) + [e]
  {
    assert (events + [e])[..|events|] == events;
  }

  lemma CleanNothing(events: seq<Event>)
    ensures Clean(events) == [] <==> events == []
    ensures events != [] ==> Clean(events)[|Clean(events)| - 1] == events[|events| - 1]
  {
  }

  lemma CleanEmit(events: seq<Event>, part: Part, text: string)
    ensures Clean(Emit(events, part, text)) == Emit(Clean(events), part, text)
  {
    CleanNothing(events);
    var n := |events| - 1;
    if n >= 0 && events[n].Data? && events[n].part == part {
      CleanLast(events[..n], Data(part, events[n].text + text));
      assert Clean(events)[..|Clean(events)| - 1] == Clean(events[..n]);
    } else {
      CleanLast(events, Data(part, text));
    }
  }

  /** An act that is not the end of the headers does the same to traces that agree. */
  lemma CleanAct(events: seq<Event>, a: Act, c: char)
    requires a != Notify(HeadersComplete)
    ensures Clean(ApplyOne(events, a, c)) == ApplyOne(Clean(events), a, c)
  {
    match a
    case Take(part) => CleanEmit(events, part, [c]);
    case Flush(part) => CleanEmit(events, part, "");
    case Text(text) => CleanEmit(events, Content, text);
    case Notify(e) => CleanLast(events, e);
  }

  lemma {:induction false} CleanActs(events: seq<Event>, acts: seq<Act>, c: char)
    requires Notify(HeadersComplete) !in acts
    ensures Clean(Apply(events, acts, c)) == Apply(Clean(events), acts, c)
    decreases |acts|
  {
    if acts != [] {
      var front, a := acts[..|acts| - 1], acts[|acts| - 1];
      CleanActs(events, front, c);
      CleanAct(Apply(events, front, c), a, c);
    }
  }

  lemma {:induction false} ApplyMore(events: seq<Event>, a: seq<Act>, b: seq<Act>, c: char)
    ensures Apply(events, a + b, c) == Apply(Apply(events, a, c), b, c)
    decreases |b|
  {
    if b == [] {
      assert a + b == a;
    } else {
      assert (a + b)[..|a + b| - 1] == a + b[..|b| - 1];
      ApplyMore(events, a, b[..|b| - 1], c);
    }
  }

  /** What a step does to the essence of the trace, in terms of the core alone. */
  function EssenceStep(core: Core, ess: seq<Event>, c: char): seq<Event> {
    var o := Handle(core, c);
    if Ending(core.phase) then
      if core.phase == PartDataStart then Apply(ess + [HeadersComplete], OnData(core, c).acts, c) else ess
    else Apply(if Tears(core, c) then ess[..if ess == [] then 0 else |ess| - 1] else ess, o.acts, c)
  }

  lemma EssenceOf(s: State, c: char)
    requires Coherent(s) && !s.core.failed
    ensures Essence(Step(s, c)) == EssenceStep(s.core, Essence(s), c)
  {
    hide Clean, Apply;
    var o := Handle(s.core, c);
    var e := s.events;
    if s.core.phase == PartDataStart {
      ApplyMore(e, [Notify(HeadersComplete)], OnData(s.core, c).acts, c);
      ApplySingle(e, Notify(HeadersComplete), c);
      CleanLast(e, HeadersComplete);
      CleanActs(e + [HeadersComplete], OnData(s.core, c).acts, c);
    } else if s.core.phase == HeadersAlmostDone {
      ApplySingle(e, Take(Field), c);
    } else {
      NoHeadersComplete(s.core, c);
      CleanActs(e, o.acts, c);
      if Ending(o.core.phase) {
        ApplySingle(e, Take(Field), c);
        ApplySingle(Essence(s), Take(Field), c);
        ApplySingle(Clean(DropField(e)), Take(Field), c);
        if Tears(s.core, c) {
          CleanLast(DropField(e), e[|e| - 1]);
          assert e == DropField(e) + [e[|e| - 1]];
          assert Clean(e)[..|Clean(e)| - 1] == Clean(DropField(e));
        }
      }
    }
  }

  lemma NoHeadersComplete(s: Core, c: char)
    requires s.phase != PartDataStart
    ensures Notify(HeadersComplete) !in Handle(s, c).acts
    ensures Ending(Handle(s, c).core.phase) && !Ending(s.phase) ==>
              Handle(s, c).acts == [] && (s.phase == HeaderField || s.phase == HeaderFieldStart) && c == CR
    ensures !Ending(Handle(s, c).core.phase) || Ending(s.phase) ==> !Tears(s, c)
  {
  }

  // ---------------------------------------------------------------- one buffer

  lemma StepCoherent(s: State, c: char)
    requires Coherent(s)
    ensures Coherent(Step(s, c))
  {
    hide Handle, Emit;
    if !s.core.failed && !Handle(s.core, c).core.failed {
      var to := Handle(s.core, c).core.phase;
      if to == HeaderField {
        ToField(s.core, c);
        ApplySingle(s.events, Take(Field), c);
        FieldMore(s.events, c);
      } else if to == HeaderFieldStart {
        ToFieldStart(s.core, c);
        ApplySingle(s.events, Notify(PartBegin), c);
      } else if to == HeaderValueAlmostDone {
        ToValueEnd(s.core, c);
        ApplySingle(s.events, Flush(Value), c);
        ValueLast(s.events);
      }
    }
  }

  lemma ToField(s: Core, c: char)
    requires Handle(s, c).core.phase == HeaderField && !Handle(s, c).core.failed
    ensures Handle(s, c).acts == [Take(Field)] && (s.phase == HeaderField || s.phase == HeaderFieldStart)
  {
  }

  lemma ToFieldStart(s: Core, c: char)
    requires Handle(s, c).core.phase == HeaderFieldStart && !Handle(s, c).core.failed
    ensures Handle(s, c).acts == [Notify(PartBegin)]
            || (Handle(s, c).acts == [] && s.phase == HeaderValueAlmostDone)
  {
  }

  lemma ToValueEnd(s: Core, c: char)
    requires Handle(s, c).core.phase == HeaderValueAlmostDone && !Handle(s, c).core.failed
    ensures Handle(s, c).acts == [Flush(Value)]
  {
  }

  /** One more character of a name. */
  lemma FieldMore(events: seq<Event>, c: char)
    requires EndsInField(events) ==> !EndsInField(events[..|events| - 1])
    ensures var t := Emit(events, Field, [c]);
            && EndsInField(t) && !EndsInField(t[..|t| - 1])
            && |t[|t| - 1].text| == 1 + if EndsInField(events) then |events[|events| - 1].text| else 0
  {
  }

  lemma ValueLast(events: seq<Event>)
    ensures !EndsInField(Emit(events, Value, ""))
  {
  }

  /** A name that is being read is at least as long as its part in this buffer. */
  predicate Within(r: Reader) {
    && Coherent(r.state)
    && (!r.state.core.failed ==>
          r.recent <= if r.state.core.phase == HeaderField then |r.state.events[|r.state.events| - 1].text| else 0)
  }

  lemma StepWithin(r: Reader, c: char)
    requires Within(r)
    ensures Within(ReadStep(r, c)) && ReadStep(r, c).state.core == Step(r.state, c).core
    ensures Same(ReadStep(r, c).state, Step(r.state, c))
  {
    hide Handle, Clean, Emit, Trim;
    var s, t := r.state, Step(r.state, c);
    StepCoherent(s, c);
    if !s.core.failed {
      if Tears(s.core, c) {
        TearEnds(s.core, c);
        ApplySingle(s.events, Take(Field), c);
        TrimDrops(s.events, r.recent);
      } else if t.core.phase == HeaderField && !t.core.failed {
        ToField(s.core, c);
        ApplySingle(s.events, Take(Field), c);
        FieldMore(s.events, c);
      }
    }
  }

  lemma TearEnds(s: Core, c: char)
    requires Tears(s, c)
    ensures Handle(s, c).core.phase == HeadersAlmostDone && Handle(s, c).acts == []
    ensures Handle(s, c).core.failed == s.failed
  {
  }

  lemma TrimDrops(events: seq<Event>, k: nat)
    requires EndsInField(events) && !EndsInField(events[..|events| - 1])
    ensures DropField(Trim(events, k)) == DropField(events)
  {
  }

  /** Steps keep traces the same that are. */
  lemma StepSame(a: State, b: State, c: char)
    requires Coherent(a) && Coherent(b) && Same(a, b)
    ensures Same(Step(a, c), Step(b, c))
  {
    hide Handle, Essence, EssenceStep, Coherent;
    if !a.core.failed {
      EssenceOf(a, c);
      EssenceOf(b, c);
    }
  }

  lemma {:induction false} RunSame(a: State, b: State, x: string)
    requires Coherent(a) && Coherent(b) && Same(a, b)
    ensures Same(Run(a, x), Run(b, x)) && Coherent(Run(a, x)) && Coherent(Run(b, x))
  {
    hide Step, Coherent, Same;
    if x != "" {
      var r, c := x[..|x| - 1], x[|x| - 1];
      assert x == r + [c];
      RunLast(a, r, c);
      RunLast(b, r, c);
      RunSame(a, b, r);
      StepSame(Run(a, r), Run(b, r), c);
      StepCoherent(Run(a, r), c);
      StepCoherent(Run(b, r), c);
    }
  }

  lemma SameSelf(a: State)
    ensures Same(a, a)
  {
  }

  lemma {:induction false} ReadSame(r: Reader, x: string)
    requires Within(r)
    ensures Within(Read(r, x)) && Coherent(Run(r.state, x)) && Same(Read(r, x).state, Run(r.state, x))
  {
    hide Step, ReadStep, Coherent, Same;
    if x == "" {
      SameSelf(r.state);
      assert Coherent(r.state);
    } else {
      var y, c := x[..|x| - 1], x[|x| - 1];
      assert x == y + [c];
      ReadLast(r, y, c);
      RunLast(r.state, y, c);
      ReadSame(r, y);
      StepWithin(Read(r, y), c);
      StepSame(Read(r, y).state, Run(r.state, y), c);
      StepCoherent(Run(r.state, y), c);
      SameTrans(Read(r, x).state, Step(Read(r, y).state, c), Run(r.state, x));
    }
  }

  lemma SameTrans(a: State, b: State, c: State)
    requires Same(a, b) && Same(b, c)
    ensures Same(a, c)
  {
  }

  /** One buffer: the core is that of the machine, and so is the trace, but for the names of lines without a
      colon. */
  lemma FeedSame(s: State, x: string)
    requires Coherent(s)
    ensures Coherent(Feed(s, x)) && Same(Feed(s, x), Run(s, x))
  {
    ReadSame(Reader(s, 0), x);
  }

  /** Without such lines the traces are equal. */
  lemma {:induction false} ReadExact(r: Reader, x: string)
    requires !Run(r.state, x).core.torn
    ensures Read(r, x).state == Run(r.state, x)
  {
    hide Handle, Apply;
    if x != "" {
      var y, c := x[..|x| - 1], x[|x| - 1];
      assert x == y + [c];
      ReadLast(r, y, c);
      RunLast(r.state, y, c);
      TornSame(Run(r.state, y).core, c);
      ReadExact(r, y);
    }
  }

  // ---------------------------------------------------------------- many buffers

  /** However the stream is cut, the core and everything but the names of lines without a colon is the
      same. */
  lemma {:induction false} FeedAllSame(s: State, pieces: seq<string>)
    requires Coherent(s)
    ensures Coherent(FeedAll(s, pieces)) && Same(FeedAll(s, pieces), Run(s, Join(pieces)))
    decreases |pieces|
  {
    hide Coherent, Same, Feed, Run;
    if pieces == [] {
      SameSelf(s);
      RunEmpty(s);
    } else {
      var t, rest := Feed(s, pieces[0]), Join(pieces[1..]);
      FeedSame(s, pieces[0]);
      FeedAllSame(t, pieces[1..]);
      RunSame(s, s, pieces[0]) by {
        SameSelf(s);
      }
      RunSame(t, Run(s, pieces[0]), rest);
      RunConcat(s, pieces[0], rest);
      SameTrans(FeedAll(t, pieces[1..]), Run(t, rest), Run(s, Join(pieces)));
    }
  }

  lemma RunEmpty(s: State)
    ensures Run(s, "") == s
  {
  }

  /** And without such lines everything is. */
  lemma {:induction false} FeedAllExact(s: State, pieces: seq<string>)
    requires !Run(s, Join(pieces)).core.torn
    ensures FeedAll(s, pieces) == Run(s, Join(pieces))
    decreases |pieces|
  {
    hide Run, Read;
    if pieces == [] {
      RunEmpty(s);
    } else {
      RunConcat(s, pieces[0], Join(pieces[1..]));
      StaysTorn(Run(s, pieces[0]), Join(pieces[1..]));
      ReadExact(Reader(s, 0), pieces[0]);
      FeedAllExact(Run(s, pieces[0]), pieces[1..]);
    }
  }

  lemma {:induction false} StaysTorn(s: State, x: string)
    ensures s.core.torn ==> Run(s, x).core.torn
  {
    hide Handle, Apply;
    if x != "" {
      var y, c := x[..|x| - 1], x[|x| - 1];
      assert x == y + [c];
      RunLast(s, y, c);
      StaysTorn(s, y);
      TornSame(Run(s, y).core, c);
    }
  }

  /** The trace without header names. */
  function Others(events: seq<Event>): seq<Event> {
    if events == [] then []
    else
      var e, rest := events[|events| - 1], Others(events[..|events| - 1]);
      if e.Data? && e.part == Field then rest else rest + [e]
  }

  /** Content, values and notifications never depend on the cuts. */
  lemma SameOthers(a: State, b: State)
    requires Same(a, b)
    ensures Others(a.events) == Others(b.events)
  {
    CleanOthers(a.events);
    CleanOthers(b.events);
    CleanOthers(DropField(a.events));
    CleanOthers(DropField(b.events));
  }

  lemma {:induction false} CleanOthers(events: seq<Event>)
    ensures Others(Clean(events)) == Others(events) == Others(DropField(events))
    decreases |events|
  {
    if events != [] {
      var e, front := events[|events| - 1], events[..|events| - 1];
      var kept := if e == HeadersComplete then DropField(front) else front;
      CleanOthers(front);
      CleanOthers(kept);
      assert Clean(events)[..|Clean(events)| - 1] == Clean(kept);
    }
  }

  // ---------------------------------------------------------------- when the cuts do matter

  /** The characters of all header names. */
  function NameLength(events: seq<Event>): nat {
    if events == [] then 0
    else
      var e := events[|events| - 1];
      NameLength(events[..|events| - 1]) + if e.Data? && e.part == Field then |e.text| else 0
  }

  lemma NameLengthMore(events: seq<Event>, e: Event)
    ensures NameLength(events + [e]) == NameLength(events) + if e.Data? && e.part == Field then |e.text| else 0
  {
    assert (events + [e])[..|events|] == events;
  }

  lemma NameLengthEmit(events: seq<Event>, part: Part, text: string)
    ensures NameLength(Emit(events, part, text)) == NameLength(events) + if part == Field then |text| else 0
  {
    var n := |events| - 1;
    if n >= 0 && events[n].Data? && events[n].part == part {
      NameLengthMore(events[..n], Data(part, events[n].text + text));
    } else {
      NameLengthMore(events, Data(part, text));
    }
  }

  function TakenBy(acts: seq<Act>): nat {
    if acts == [] then 0
    else TakenBy(acts[..|acts| - 1]) + if acts[|acts| - 1] == Take(Field) then 1 else 0
  }

  predicate Honest(acts: seq<Act>) {
    forall i :: 0 <= i < |acts| && acts[i].Notify? ==> !acts[i].event.Data?
  }

  lemma {:induction false} NameLengthActs(events: seq<Event>, acts: seq<Act>, c: char)
    requires Honest(acts)
    ensures NameLength(Apply(events, acts, c)) == NameLength(events) + TakenBy(acts)
    decreases |acts|
  {
    if acts != [] {
      var front, a := acts[..|acts| - 1], acts[|acts| - 1];
      var t := Apply(events, front, c);
      NameLengthActs(events, front, c);
      match a
      case Take(part) => NameLengthEmit(t, part, [c]);
      case Flush(part) => NameLengthEmit(t, part, "");
      case Text(text) => NameLengthEmit(t, Content, text);
      case Notify(e) => NameLengthMore(t, e);
    }
  }

  lemma HandleHonest(s: Core, c: char)
    ensures Honest(Handle(s, c).acts)
  {
  }

  lemma NameLengthTrim(events: seq<Event>, k: nat)
    requires EndsInField(events) && k <= |events[|events| - 1].text|
    ensures NameLength(Trim(events, k)) == NameLength(events) - k
  {
    var n := |events| - 1;
    NameLengthMore(events[..n], Data(Field, events[n].text[..|events[n].text| - k]));
  }

  /** In one buffer that does not begin inside a name, every line without a colon loses something. */
  lemma {:induction false} Loses(r: Reader, x: string)
    requires Within(r) && (r.state.core.phase == HeaderField ==> r.recent > 0)
    ensures var t, u := Read(r, x), Run(r.state, x);
            && (t.state.core.phase == HeaderField && !t.state.core.failed ==> t.recent > 0)
            && t.state.core == u.core
            && NameLength(t.state.events) <= NameLength(u.events)
            && (u.core.torn && !r.state.core.torn ==> NameLength(t.state.events) < NameLength(u.events))
  {
    hide Handle, Apply, Trim, Emit, Coherent;
    if x != "" {
      var y, c := x[..|x| - 1], x[|x| - 1];
      assert x == y + [c];
      ReadLast(r, y, c);
      RunLast(r.state, y, c);
      Loses(r, y);
      ReadSame(r, y);
      var t, u := Read(r, y), Run(r.state, y);
      var acts := Handle(u.core, c).acts;
      TornSame(u.core, c);
      HandleHonest(u.core, c);
      NameLengthActs(t.state.events, acts, c);
      NameLengthActs(u.events, acts, c);
      if Tears(u.core, c) && !u.core.failed {
        TearEnds(u.core, c);
        InField(t);
        NameLengthTrim(t.state.events, t.recent);
      }
    }
  }

  lemma InField(r: Reader)
    requires Within(r) && r.state.core.phase == HeaderField && !r.state.core.failed
    ensures EndsInField(r.state.events) && r.recent <= |r.state.events[|r.state.events| - 1].text|
  {
  }

  /** A buffer for each character. */
  function Singles(x: string): seq<string> {
    if x == "" then [] else [[x[0]]] + Singles(x[1..])
  }

  /** One character at a time, nothing is lost. */
  lemma {:induction false} SinglesExact(s: State, x: string)
    requires Coherent(s)
    ensures FeedAll(s, Singles(x)) == Run(s, x) && Join(Singles(x)) == x
    decreases |x|
  {
    hide Coherent, Step, Run;
    if x == "" {
      RunEmpty(s);
    } else {
      var c, rest := x[0], x[1..];
      assert x == [c] + rest && Singles(x)[1..] == Singles(rest);
      RunFirst(s, c, rest);
      SingleExact(s, c);
      StepCoherent(s, c);
      SinglesExact(Step(s, c), rest);
    }
  }

  lemma SingleExact(s: State, c: char)
    requires Coherent(s)
    ensures Feed(s, [c]) == Step(s, c)
  {
    hide Handle;
    FoldOne(ReadStep, Reader(s, 0), c);
    if Tears(s.core, c) && !s.core.failed {
      TearEnds(s.core, c);
      ApplySingle(s.events, Take(Field), c);
      var n := |s.events| - 1;
      assert s.events == s.events[..n] + [s.events[n]];
      assert s.events[n].text[..|s.events[n].text|] == s.events[n].text;
    }
  }

  lemma OneBuffer(s: State, x: string)
    ensures Join([x]) == x && FeedAll(s, [x]) == Feed(s, x)
  {
    assert [x][1..] == [] && x + "" == x;
  }

  /** For a whole stream: the callbacks are those of the machine for every way of cutting it if and only if
      no header line ends without a colon. */
  lemma CutsMatter(boundary: string, x: string)
    ensures (forall pieces :: Join(pieces) == x ==> FeedAll(Init(boundary), pieces) == Run(Init(boundary), x))
            <==> !Run(Init(boundary), x).core.torn
    ensures exists pieces :: Join(pieces) == x && FeedAll(Init(boundary), pieces) == Run(Init(boundary), x)
  {
    var s := Init(boundary);
    forall pieces | Join(pieces) == x && !Run(s, x).core.torn
      ensures FeedAll(s, pieces) == Run(s, x)
    {
      FeedAllExact(s, pieces);
    }
    SinglesExact(s, x);
    if Run(s, x).core.torn {
      Loses(Reader(s, 0), x);
      var pieces := [x];
      OneBuffer(s, x);
      assert Join(pieces) == x && FeedAll(s, pieces) != Run(s, x);
    } else {
      assert Join(Singles(x)) == x;
    }
  }

  /** The shortest such stream: in one buffer the name is dropped, cut behind it the name is handed over. */
  lemma TornExample()
    ensures Feed(Init("b"), "b\r\na\r").events == [PartBegin]
    ensures FeedAll(Init("b"), ["b\r\na", "\r"]).events == [PartBegin, Data(Field, "a")]
  {
    var s, r := Init("b"), Reader(Init("b"), 0);
    FourRead();
    assert "b\r\na\r" == "b\r\na" + [CR];
    ReadLast(r, "b\r\na", CR);
    var t := Feed(s, "b\r\na");
    assert FeedAll(s, ["b\r\na", "\r"]) == FeedAll(t, ["\r"]) == FeedAll(Feed(t, "\r"), []) == Feed(t, "\r");
    FoldOne(ReadStep, Reader(t, 0), CR);
    assert "\r" == [CR] && "a"[..1] == "a";
    assert t.events[..1] + [Data(Field, "a"[..1])] == [PartBegin, Data(Field, "a")];
  }

  lemma FourRead()
    ensures Read(Reader(Init("b"), 0), "b\r\na")
         == Reader(State(Core(HeaderField, 0, "b", "", false, false), [PartBegin, Data(Field, "a")]), 1)
  {
    var r := Reader(Init("b"), 0);
    assert "b" == "" + ['b'] && "b\r" == "b" + [CR] && "b\r\n" == "b\r" + [LF] && "b\r\na" == "b\r\n" + ['a'];
    assert Read(r, "") == r;
    ReadLast(r, "", 'b');
    ReadLast(r, "b", CR);
    ReadLast(r, "b\r", LF);
    ApplySingle([], Notify(PartBegin), LF);
    ReadLast(r, "b\r\n", 'a');
    ApplySingle([PartBegin], Take(Field), 'a');
    assert Apply([], [], 'b') == [];
  }
}
