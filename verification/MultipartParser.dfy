/** `multipart_parser_execute` on one buffer: a mark into the buffer, and callbacks with slices of it. */
module MultipartParser {
  import opened Folding
  import opened MultipartCuts
  import opened MultipartSpec
  import opened Options

  /** A sequence of callbacks, adjacent data callbacks about one part joined. */
  function Merged(calls: seq<Event>): seq<Event> {
    if calls == [] then []
    else
      var e, rest := calls[|calls| - 1], Merged(calls[..|calls| - 1]);
      if e.Data? then Emit(rest, e.part, e.text) else rest + [e]
  }

  lemma MergedMore(calls: seq<Event>, e: Event)
    ensures Merged(calls + [e]) == if e.Data? then Emit(Merged(calls), e.part, e.text) else Merged(calls) + [e]
  {
    assert (calls + [e])[..|calls|] == calls;
  }

  /** The part a state is inside of. */
  function OpenPart(p: Phase): Option<Part> {
    match p
    case HeaderField => Some(Field)
    case HeaderValue => Some(Value)
    case PartData => Some(Content)
    case _ => None
  }

  predicate Fits(o: Option<Part>, a: Act) {
    match a
    case Take(part) => o.None? || o.value == part
    case Flush(part) => o.None? || o.value == part
    case Text(_) => o.None?
    case Notify(e) => o.None? && !e.Data?
  }

  function After(a: Act): Option<Part> {
    if a.Take? then Some(a.part) else None
  }

  /** The acts of one character fit the part the state is inside of, and lead to that of the next state. */
  predicate Well(o: Option<Part>, acts: seq<Act>, to: Option<Part>) {
    if |acts| == 0 then o.None? && to.None?
    else if |acts| == 1 then Fits(o, acts[0]) && to == After(acts[0])
    else |acts| == 2 && Fits(o, acts[0]) && After(acts[0]).None? && Fits(None, acts[1]) && to == After(acts[1])
  }

  predicate OutWell(o: Option<Part>, out: Out) {
    out.core.failed || Well(o, out.acts, OpenPart(out.core.phase))
  }

  lemma DataWell(s: Core, c: char, o: Option<Part>)
    requires o.None? || o.value == Content
    ensures OutWell(o, OnData(s, c)) && |OnData(s, c).acts| == 1
  {
  }

  /** Characters held back, or the completed headers, before content. */
  lemma ThenDataWell(s: Core, c: char, a: Act)
    requires a.Text? || (a.Notify? && !a.event.Data?)
    ensures OutWell(None, Then([a], OnData(s, c)))
  {
    DataWell(s, c, None);
    var x := OnData(s, c).acts;
    assert ([a] + x)[0] == a && ([a] + x)[1] == x[0];
  }

  lemma StartWell(s: Core, c: char)
    requires OpenPart(s.phase).None?
    ensures OutWell(None, OnStart(s, c))
  {
  }

  lemma FieldWell(s: Core, c: char, first: bool)
    requires first || c != CR
    ensures OutWell(if first then None else Some(Field), OnField(s, c, first))
  {
  }

  lemma ValueWell(s: Core, c: char, o: Option<Part>)
    requires o.None? || o.value == Value
    ensures OutWell(o, OnValue(s, c))
  {
  }

  /** Every character fits, except one that ends a header line without a colon. */
  lemma HandleWell(s: Core, c: char)
    ensures OutWell(OpenPart(s.phase), Handle(s, c)) || (Tears(s, c) && Handle(s, c).acts == [])
    ensures Handle(s, c).core.torn == (s.torn || Tears(s, c))
    ensures Tears(s, c) ==> OpenPart(Handle(s, c).core.phase).None?
  {
    hide OnData, OnStart, OnValue, Well;
    TornSame(s, c);
    match s.phase
    case Start => StartWell(s.(index := 0, phase := StartBoundary), c);
    case StartBoundary => StartWell(s, c);
    case HeaderFieldStart => FieldWell(s, c, true);
    case HeaderField => if c != CR { FieldWell(s, c, false); }
    case HeaderValueStart => ValueWell(s, c, None); Quiet();
    case HeaderValue => ValueWell(s, c, Some(Value));
    case PartDataStart => ThenDataWell(s, c, Notify(HeadersComplete));
    case PartData => DataWell(s, c, Some(Content));
    case AlmostBoundary => ThenDataWell(s.(phase := PartData), c, Text([CR])); Quiet();
    case PartBoundary => ThenDataWell(s.(phase := PartData), c, Text(s.lookbehind)); Quiet();
    case _ => Quiet();
  }

  lemma Quiet()
    ensures Well(None, [], None)
    ensures Well(None, [Notify(PartDone)], None) && Well(None, [Notify(BodyEnd)], None)
        && Well(None, [Notify(PartBegin)], None)
  {
  }

  /** What has been read into the open part since the mark counts as handed over. */
  function Seen(calls: seq<Event>, mark: Option<nat>, part: Option<Part>, buf: string, end: nat): seq<Event>
    requires end <= |buf| && (mark.Some? ==> mark.value <= end)
  {
    if mark.None? || part.None? then Merged(calls) else Emit(Merged(calls), part.value, buf[mark.value..end])
  }

  predicate Touches(events: seq<Event>, part: Part) {
    events != [] && events[|events| - 1].Data? && events[|events| - 1].part == part
  }

  lemma TouchesNothing(events: seq<Event>, part: Part)
    requires Touches(events, part)
    ensures Emit(events, part, "") == events
  {
    var n := |events|;
    assert events[n - 1].text + "" == events[n - 1].text;
    assert events[..n - 1] + [events[n - 1]] == events;
  }

  /** Where a buffer has been read up to `i`, as the machine of one buffer sees it. */
  function Position(core: Core, calls: seq<Event>, mark: Option<nat>, buf: string, i: nat): Reader
    requires i <= |buf| && (mark.Some? ==> mark.value <= i)
  {
    Reader(State(core, Seen(calls, mark, OpenPart(core.phase), buf, i)),
           if core.phase == HeaderField && mark.Some? then i - mark.value else 0)
  }

  /** No callback with an empty name is open. */
  predicate NameStarted(core: Core, calls: seq<Event>) {
    core.phase == HeaderField && EndsInField(Merged(calls)) ==> Merged(calls)[|Merged(calls)| - 1].text != ""
  }

  /** What a line without a colon loses is what no callback has seen. */
  lemma TrimsBack(events: seq<Event>, x: string)
    requires EndsInField(events) ==> events[|events| - 1].text != ""
    ensures Trim(Emit(events, Field, x), |x|) == events
  {
    var n := |events| - 1;
    if EndsInField(events) {
      assert (events[n].text + x)[..|events[n].text|] == events[n].text;
      assert events[..n] + [events[n]] == events;
    }
  }

  class MultipartParser {
    var core: Core
    var calls: seq<Event>

    ghost function Contents(): State
      reads this
    {
      State(core, Merged(calls))
    }

    ghost predicate Valid()
      reads this
    {
      && (OpenPart(core.phase).Some? && !core.failed ==> Touches(Merged(calls), OpenPart(core.phase).value))
      && (!core.failed ==> Coherent(Contents()))
    }

    /** `multipart_parser_init`. */
    constructor (boundary: string)
      ensures Valid() && Contents() == Init(boundary)
    {
      core, calls := Core(Start, 0, boundary, "", false, false), [];
    }

    method PerformOne(a: Act, buf: string, i: nat, mark0: Option<nat>, ghost o: Option<Part>, end: nat)
      returns (mark: Option<nat>)
      requires i < |buf| && i <= end <= i + 1 && (mark0.Some? ==> mark0.value <= i && end == i)
          && (mark0.Some? <==> o.Some?)
      requires Fits(o, a) && (a.Take? ==> end == i)
      modifies this`calls
      ensures (mark.Some? <==> After(a).Some?) && (mark.Some? ==> mark.value <= i)
      ensures a.Take? ==> calls == old(calls) && mark == if mark0.None? then Some(i) else mark0
      ensures Seen(calls, mark, After(a), buf, if a.Take? then i + 1 else end)
           == ApplyOne(Seen(old(calls), mark0, o, buf, end), a, buf[i])
    {
      hide Merged, Emit;
      mark := None;
      match a {
        case Take(part) =>
          mark := if mark0.None? then Some(i) else mark0;
          ghost var m := mark.value;
          assert buf[m..i + 1] == buf[m..i] + [buf[i]];
          EmitTwice(Merged(calls), part, buf[m..i], [buf[i]]);
          assert buf[i..i + 1] == [buf[i]];
        case Flush(part) =>
          var text := if mark0.None? then "" else buf[mark0.value..i];
          MergedMore(calls, Data(part, text));
          EmitTwice(Merged(calls), part, text, "");
          assert text + "" == text;
          calls := calls + [Data(part, text)];
        case Text(text) =>
          MergedMore(calls, Data(Content, text));
          calls := calls + [Data(Content, text)];
        case Notify(e) =>
          MergedMore(calls, e);
          calls := calls + [e];
      }
    }

    /** One character. */
    method OneChar(buf: string, i: nat, mark0: Option<nat>) returns (mark: Option<nat>)
      requires i < |buf| && !core.failed && (mark0.Some? ==> mark0.value <= i)
          && (mark0.Some? <==> OpenPart(core.phase).Some?)
      requires Within(Position(core, calls, mark0, buf, i)) && NameStarted(core, calls)
      modifies this
      ensures core == Handle(old(core), buf[i]).core
      ensures !core.failed ==> (mark.Some? ==> mark.value <= i) && (mark.Some? <==> OpenPart(core.phase).Some?)
      ensures !core.failed ==>
                && Position(core, calls, mark, buf, i + 1)
                  == ReadStep(Position(old(core), old(calls), mark0, buf, i), buf[i])
                && NameStarted(core, calls)
    {
      hide Merged, Emit, Handle, Apply, Trim, Coherent, NameStarted;
      var out := Handle(core, buf[i]);
      ghost var r := Position(core, calls, mark0, buf, i);
      ghost var before := r.state.events;
      HandleWell(core, buf[i]);
      KeepsStarted(core, calls, mark0, buf, i, buf[i]);
      if Tears(core, buf[i]) {
        TearEnds(core, buf[i]);
        Started(core, calls);
        TrimsBack(Merged(calls), buf[mark0.value..i]);
      }
      mark := None;
      if !out.core.failed && out.acts != [] {
        assert |out.acts| == 1 ==> out.acts == [out.acts[0]];
        ApplySingle(before, out.acts[0], buf[i]);
        mark := PerformOne(out.acts[0], buf, i, mark0, OpenPart(core.phase), i);
        if |out.acts| == 2 {
          assert out.acts == [out.acts[0]] + [out.acts[1]];
          ApplyTwo(before, out.acts[0], out.acts[1], buf[i]);
          mark := PerformOne(out.acts[1], buf, i, mark, None, i);
        }
      } else {
        NoActs(before, buf[i]);
      }
      core := out.core;
      if core.phase != HeaderField {
        NotStarted(core, calls);
      }
      if !core.failed && !Tears(old(core), buf[i]) {
        assert Step(r.state, buf[i]) == State(core, Apply(before, out.acts, buf[i]));
        assert Seen(calls, mark, OpenPart(core.phase), buf, i + 1) == Apply(before, out.acts, buf[i]);
      }
    }

    /** `multipart_parser_execute`. One call is exactly the machine of one buffer, and with that the machine
        itself, unless a header line ends without a colon. */
    method Execute(buf: string) returns (n: nat)
      requires Valid() && !core.failed
      modifies this
      ensures n <= |buf| && (n < |buf| <==> core.failed)
      ensures if core.failed then Run(old(Contents()), buf[..n + 1]).core == core
          else Run(old(Contents()), buf).core == core
      ensures !core.failed ==> Contents() == Feed(old(Contents()), buf)
      ensures !core.failed && !core.torn ==> Contents() == Run(old(Contents()), buf)
      ensures Valid()
    {
      hide Merged, Emit, Handle, Step, ReadStep, Run, Read, Coherent, NameStarted;
      ghost var s0 := Contents();
      ghost var r0 := Reader(s0, 0);
      var mark: Option<nat> := if OpenPart(core.phase).Some? then Some(0) else None;
      BeginBuffer(s0, core, calls, mark, buf);
      n := 0;
      while n < |buf|
        invariant n <= |buf| && !core.failed && core == Run(s0, buf[..n]).core
        invariant (mark.Some? ==> mark.value <= n) && (mark.Some? <==> OpenPart(core.phase).Some?)
        invariant Position(core, calls, mark, buf, n) == Read(r0, buf[..n]) && NameStarted(core, calls)
      {
        assert buf[..n + 1] == buf[..n] + [buf[n]];
        RunLast(s0, buf[..n], buf[n]);
        ReadLast(r0, buf[..n], buf[n]);
        StepCore(Run(s0, buf[..n]), buf[n]);
        ReadSame(r0, buf[..n]);
        mark := OneChar(buf, n, mark);
        if core.failed {
          return;
        }
        n := n + 1;
      }
      assert buf[..n] == buf;
      ReadSame(r0, buf);
      if !core.torn {
        ReadExact(r0, buf);
      }
      if mark.Some? && OpenPart(core.phase).Some? {
        MergedMore(calls, Data(OpenPart(core.phase).value, buf[mark.value..n]));
        EmitTouches(Merged(calls), OpenPart(core.phase).value, buf[mark.value..n]);
        calls := calls + [Data(OpenPart(core.phase).value, buf[mark.value..n])];
      }
    }

    /** A stream that arrives in buffers. Whether it is accepted depends on the characters only, and so does
        everything handed over, but for the names of header lines without a colon. */
    method ExecuteAll(bufs: seq<string>) returns (ok: bool)
      requires Valid() && !core.failed
      modifies this
      ensures Valid() && (ok <==> !Run(old(Contents()), Join(bufs)).core.failed)
      ensures ok ==> Contents() == FeedAll(old(Contents()), bufs)
      ensures ok ==> Same(Contents(), Run(old(Contents()), Join(bufs)))
      ensures ok ==> Others(Contents().events) == Others(Run(old(Contents()), Join(bufs)).events)
      ensures ok && !core.torn ==> Contents() == Run(old(Contents()), Join(bufs))
    {
      hide Merged, Step, Run, Feed, Coherent, Same, Others;
      ghost var s0 := Contents();
      ghost var done: seq<string> := [];
      var i := 0;
      RunEmpty(s0);
      while i < |bufs|
        invariant i <= |bufs| && Valid() && !core.failed && done == bufs[..i] && core == Run(s0, Join(done)).core
        invariant FeedAll(Contents(), bufs[i..]) == FeedAll(s0, bufs)
        invariant Join(done) + Join(bufs[i..]) == Join(bufs)
      {
        ghost var t, rest := Contents(), Join(bufs[i + 1..]);
        var n := Execute(bufs[i]);
        assert bufs[..i + 1] == done + [bufs[i]];
        JoinMore(done, bufs[i]);
        Assoc(Join(done), bufs[i], rest);
        RunConcat(s0, Join(done) + bufs[i], rest);
        RunConcat(s0, Join(done), bufs[i]);
        CoreOnly(t, Run(s0, Join(done)), bufs[i]);
        if core.failed {
          FailsWithin(t, bufs[i], n + 1);
          StaysFailed(Run(s0, Join(done) + bufs[i]), rest);
          return false;
        }
        done := done + [bufs[i]];
        i := i + 1;
      }
      assert bufs[i..] == [] && Join(done) + "" == Join(done);
      ok := true;
      FeedAllSame(s0, bufs);
      SameOthers(Contents(), Run(s0, Join(bufs)));
      if !core.torn {
        FeedAllExact(s0, bufs);
      }
    }
  }

  lemma NotStarted(core: Core, calls: seq<Event>)
    requires core.phase != HeaderField
    ensures NameStarted(core, calls)
  {
  }

  lemma Started(core: Core, calls: seq<Event>)
    requires NameStarted(core, calls) && core.phase == HeaderField
    ensures EndsInField(Merged(calls)) ==> Merged(calls)[|Merged(calls)| - 1].text != ""
  {
  }

  /** At the start of a buffer nothing has been read of it. */
  lemma BeginBuffer(s0: State, core: Core, calls: seq<Event>, mark: Option<nat>, buf: string)
    requires s0 == State(core, Merged(calls)) && !core.failed && Coherent(s0)
    requires mark == if OpenPart(core.phase).Some? then Some(0) else None
    requires OpenPart(core.phase).Some? ==> Touches(Merged(calls), OpenPart(core.phase).value)
    ensures core == Run(s0, buf[..0]).core
    ensures Position(core, calls, mark, buf, 0) == Read(Reader(s0, 0), buf[..0]) && NameStarted(core, calls)
    ensures Within(Reader(s0, 0))
  {
    hide Merged, Emit;
    assert buf[..0] == "" && buf[0..0] == "";
    if OpenPart(core.phase).Some? {
      TouchesNothing(Merged(calls), OpenPart(core.phase).value);
    }
  }

  /** A name that begins, or goes on, leaves the callbacks as they are. */
  lemma KeepsStarted(core: Core, calls: seq<Event>, mark: Option<nat>, buf: string, i: nat, c: char)
    requires i <= |buf| && (mark.Some? ==> mark.value <= i) && (mark.Some? <==> OpenPart(core.phase).Some?)
    requires !core.failed && Within(Position(core, calls, mark, buf, i)) && NameStarted(core, calls)
    ensures var o := Handle(core, c).core; !o.failed && o.phase == HeaderField ==> NameStarted(o, calls)
    ensures var o := Handle(core, c).core; !o.failed && o.phase == HeaderField ==> |Handle(core, c).acts| == 1
    ensures var o := Handle(core, c).core;
            !o.failed && o.phase == HeaderField ==>
              Handle(core, c).acts[0] == Take(Field) && (core.phase == HeaderField || core.phase == HeaderFieldStart)
  {
    hide Merged, Emit, Handle;
    var o := Handle(core, c).core;
    if !o.failed && o.phase == HeaderField {
      ToField(core, c);
    }
  }

  lemma {:induction false} CoreOnly(a: State, b: State, x: string)
    requires a.core == b.core
    ensures Run(a, x).core == Run(b, x).core
  {
    hide Handle, Apply;
    if x != "" {
      var r, c := x[..|x| - 1], x[|x| - 1];
      assert x == r + [c];
      RunLast(a, r, c);
      RunLast(b, r, c);
      CoreOnly(a, b, r);
    }
  }

  lemma {:induction false} StaysFailed(s: State, x: string)
    requires s.core.failed
    ensures Run(s, x).core.failed
  {
    if x != "" {
      var r, c := x[..|x| - 1], x[|x| - 1];
      assert x == r + [c];
      RunLast(s, r, c);
      StaysFailed(s, r);
    }
  }

  lemma FailsWithin(s: State, x: string, n: nat)
    requires n <= |x| && Run(s, x[..n]).core.failed
    ensures Run(s, x).core.failed
  {
    assert x == x[..n] + x[n..];
    RunConcat(s, x[..n], x[n..]);
    StaysFailed(Run(s, x[..n]), x[n..]);
  }

  lemma {:induction false} JoinMore(done: seq<string>, x: string)
    ensures Join(done + [x]) == Join(done) + x
    decreases |done|
  {
    if done == [] {
      assert [x][1..] == [] && x + "" == x && [] + [x] == [x];
    } else {
      assert (done + [x])[1..] == done[1..] + [x];
      JoinMore(done[1..], x);
    }
  }

  lemma NoActs(events: seq<Event>, c: char)
    ensures Apply(events, [], c) == events
  {
  }

  lemma RunNothing(s: State)
    ensures Run(s, "") == s
  {
  }

  lemma StepCore(s: State, c: char)
    requires !s.core.failed
    ensures Step(s, c).core == Handle(s.core, c).core
  {
  }

  lemma EmitTouches(events: seq<Event>, part: Part, text: string)
    ensures Touches(Emit(events, part, text), part)
  {
  }
}
