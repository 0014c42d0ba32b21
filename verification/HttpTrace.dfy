/** The HTTP parser as a machine over a byte stream, with the trace of its callbacks. Adjacent data
    callbacks about the same part count as one. */
module HttpTrace {
  import opened HttpChars
  import opened HttpStep
  import opened Folding

  datatype State = State(core: Core, events: seq<Event>)

  function Emit(events: seq<Event>, part: Part, text: string): seq<Event> {
    var n := |events|;
    if n > 0 && events[n - 1].Data? && events[n - 1].part == part
    then events[..n - 1] + [Data(part, events[n - 1].text + text)]
    else events + [Data(part, text)]
  }

  function ApplyOne(events: seq<Event>, act: Act, c: char): seq<Event> {
    match act
    case Take(part) => Emit(events, part, [c])
    case Flush(part) => events
    case Empty(part) => Emit(events, part, "")
    case Notify(event) => events + [event]
  }

  function Apply(events: seq<Event>, acts: seq<Act>, c: char): seq<Event> {
    if acts == [] then events else ApplyOne(Apply(events, acts[..|acts| - 1], c), acts[|acts| - 1], c)
  }

  /** A parser that met an error or left the protocol takes no more bytes. */
  predicate Running(s: Core) {
    s.errno == OK && !s.left
  }

  function Step(s: State, c: char): State {
    if Running(s.core) then
      var o := Handle(s.core, c);
      State(o.core, Apply(s.events, o.acts, c))
    else s
  }

  function Run(s: State, x: string): State {
    Fold(Step, s, x)
  }

  /** For any byte stream, cutting it into pieces changes neither the parser nor the trace. */
  lemma SplitsDoNotMatter(s: State, parts: seq<string>)
    ensures FoldAll(Step, s, parts) == Run(s, Join(parts))
  {
    SplitIndependence(Step, s, parts);
  }

  lemma RunConcat(s: State, x: string, y: string)
    ensures Run(s, x + y) == Run(Run(s, x), y)
  {
    FoldConcat(Step, s, x, y);
  }

  lemma RunOne(s: State, c: char)
    ensures Run(s, [c]) == Step(s, c)
  {
    FoldOne(Step, s, c);
  }

  lemma RunLast(s: State, x: string, c: char)
    ensures Run(s, x + [c]) == Step(Run(s, x), c)
  {
    FoldLast(Step, s, x, c);
  }

  lemma RunFirst(s: State, c: char, y: string)
    ensures Run(s, [c] + y) == Run(Step(s, c), y)
  {
    RunConcat(s, [c], y);
    RunOne(s, c);
  }

  /** A parser that has stopped stays as it is. */
  lemma {:induction false} Stopped(s: State, x: string)
    requires !Running(s.core)
    ensures Run(s, x) == s
  {
    if x != "" {
      Stopped(s, x[..|x| - 1]);
    }
  }

  lemma {:induction false} ApplyConcat(events: seq<Event>, a: seq<Act>, b: seq<Act>, c: char)
    ensures Apply(events, a + b, c) == Apply(Apply(events, a, c), b, c)
  {
    if b == [] {
      assert a + b == a;
    } else {
      assert (a + b)[..|a + b| - 1] == a + b[..|b| - 1];
      ApplyConcat(events, a, b[..|b| - 1], c);
    }
  }

  lemma EmitTwice(events: seq<Event>, part: Part, a: string, b: string)
    ensures Emit(Emit(events, part, a), part, b) == Emit(events, part, a + b)
  {
    var n := |events|;
    if n > 0 && events[n - 1].Data? && events[n - 1].part == part {
      assert events[n - 1].text + a + b == events[n - 1].text + (a + b);
    }
  }

  /** What one byte does to the trace when it triggers at most one act. */
  lemma ApplySingle(events: seq<Event>, act: Act, c: char)
    ensures Apply(events, [act], c) == ApplyOne(events, act, c)
    ensures Apply(events, [], c) == events
  {
    assert [act][..0] == [];
  }
}
