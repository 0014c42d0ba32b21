/** Posting work to an event loop from other threads: `hloop_post_event` and `eventfd_read_cb` of
    lib/libhv/event/hloop.c, and the second queue that EventLoop.h layers on them, as interleaved
    atomic steps. */
module Posting {

  /** An event in the loop's queue: one made by `EventLoop::postEvent`, or any other. */
  datatype Ev = Custom | Plain(id: nat)

  /** The loop thread in `eventfd_read_cb`: outside it, in its loop with iterations left, or about
      to call back for an event it took out. */
  datatype Reader = Idle | Looping(left: nat) | Calling(ev: Ev, left: nat)

  /** `between` is the poster that holds the mutex: it has written to the eventfd and not yet pushed.
      `waiting` are the events whose posters have not got that far. `orphans` counts functors whose
      `hloop_post_event` failed. The last four are logs. */
  datatype State = State(
    created: bool, counter: nat, queue: seq<Ev>, between: Maybe, waiting: multiset<Ev>, reader: Reader,
    functors: seq<nat>, orphans: nat,
    pushed: seq<Ev>, called: seq<Ev>, given: seq<nat>, ran: seq<nat>)

  datatype Maybe = Nobody | Poster(ev: Ev)

  const START := State(false, 0, [], Nobody, multiset{}, Idle, [], 0, [], [], [], [])

  datatype Step =
    | Give(f: nat)             // EventLoop::postEvent: customEvents.push under its own mutex
    | Post(id: nat)            // somebody calls hloop_post_event directly
    | Write(ev: Ev)            // lock, create the eventfd if needed, write to it
    | Fail(ev: Ev)             // the same, but creation or the write fails; unlock
    | Push                     // event_queue_push_back, unlock
    | Read(k: nat)             // the loop thread reads the eventfd
    | TakeOut                  // one iteration: lock, look, pop, unlock
    | Call                     // the callback
    | Return                   // the loop is done

  /** Whether a step can be taken. */
  predicate Enabled(s: State, step: Step) {
    match step
    case Give(_) => true
    case Post(_) => true
    case Write(ev) => ev in s.waiting && s.between == Nobody
    case Fail(ev) => ev in s.waiting && s.between == Nobody
    case Push => s.between.Poster?
    case Read(k) => s.reader.Idle? && s.created && 0 < k <= s.counter
    case TakeOut => s.reader.Looping? && s.reader.left > 0 && s.between == Nobody
    case Call => s.reader.Calling?
    case Return => s.reader.Looping? && s.reader.left == 0
  }

  function Next(s: State, step: Step): State
    requires Enabled(s, step)
  {
    match step
    case Give(f) => s.(functors := s.functors + [f], given := s.given + [f], waiting := s.waiting + multiset{Custom})
    case Post(id) => s.(waiting := s.waiting + multiset{Plain(id)})
    case Write(ev) => s.(waiting := s.waiting - multiset{ev}, between := Poster(ev), created := true,
      counter := s.counter + 1)
    case Fail(ev) => s.(waiting := s.waiting - multiset{ev}, orphans := s.orphans + if ev == Custom then 1 else 0)
    case Push => s.(between := Nobody, queue := s.queue + [s.between.ev], pushed := s.pushed + [s.between.ev])
    case Read(k) => s.(counter := s.counter - k, reader := Looping(k))
    case TakeOut =>
      if s.queue == [] then s.(reader := Idle)
      else s.(queue := s.queue[1..], called := s.called + [s.queue[0]],
        reader := Calling(s.queue[0], s.reader.left - 1))
    case Call =>
      var t := s.(reader := Looping(s.reader.left));
      if s.reader.ev != Custom || s.functors == [] then t
      else t.(functors := s.functors[1..], ran := s.ran + [s.functors[0]])
    case Return => s.(reader := Idle)
  }

  /** A run: some threads, in any order, for as long as it lasts. */
  predicate Possible(s: State, steps: seq<Step>)
    decreases |steps|
  {
    steps == [] || (Enabled(s, steps[0]) && Possible(Next(s, steps[0]), steps[1..]))
  }

  function After(s: State, steps: seq<Step>): State
    requires Possible(s, steps)
    decreases |steps|
  {
    if steps == [] then s else After(Next(s, steps[0]), steps[1..])
  }

  // ---------------------------------------------------------------- invariant

  /** Events in the queue, and one more while a poster is between its write and its push, are as many
      as the wake-ups not yet read and the iterations the reader has left. */
  predicate Balanced(s: State) {
    |s.queue| + (if s.between.Poster? then 1 else 0) == s.counter + (if s.reader.Idle? then 0 else s.reader.left)
  }

  /** Functors are as many as the events on their way to `onCustomEvent`, and the orphans. */
  predicate Paired(s: State) {
    |s.functors| == multiset(s.queue)[Custom] + s.waiting[Custom] + (if s.between == Poster(Custom) then 1 else 0)
                    + (if s.reader.Calling? && s.reader.ev == Custom then 1 else 0) + s.orphans
  }

  predicate Inv(s: State) {
    && Balanced(s) && Paired(s)
    && s.pushed == s.called + s.queue && s.given == s.ran + s.functors
    && (s.counter > 0 || s.between.Poster? ==> s.created)
  }

  lemma CustomAfterPop(q: seq<Ev>)
    requires q != []
    ensures multiset(q)[Custom] == multiset(q[1..])[Custom] + (if q[0] == Custom then 1 else 0)
  {
    assert q == [q[0]] + q[1..];
  }

  lemma StepBalanced(s: State, step: Step)
    requires Balanced(s) && Enabled(s, step) && (step.TakeOut? ==> s.queue != [])
    ensures Balanced(Next(s, step))
  {
  }

  lemma StepPaired(s: State, step: Step)
    requires Paired(s) && Enabled(s, step)
    ensures Paired(Next(s, step))
  {
    if step.TakeOut? && s.queue != [] {
      CustomAfterPop(s.queue);
    }
  }

  lemma StepLogs(s: State, step: Step)
    requires Enabled(s, step) && s.pushed == s.called + s.queue && s.given == s.ran + s.functors
    ensures var t := Next(s, step); t.pushed == t.called + t.queue && t.given == t.ran + t.functors
  {
    match step
    case TakeOut =>
      if s.queue != [] {
        assert s.called + s.queue == s.called + [s.queue[0]] + s.queue[1..];
      }
    case Call =>
      if s.functors != [] {
        assert s.ran + s.functors == s.ran + [s.functors[0]] + s.functors[1..];
      }
    case Push => assert s.called + s.queue + [s.between.ev] == s.called + (s.queue + [s.between.ev]);
    case Give(f) => assert s.ran + s.functors + [f] == s.ran + (s.functors + [f]);
    case _ =>
  }

  /** A locked queue in the middle of the reader's loop is not empty. */
  lemma HasEvent(s: State)
    requires Balanced(s) && Enabled(s, TakeOut)
    ensures s.queue != []
  {
  }

  lemma StepKeeps(s: State, step: Step)
    requires Inv(s) && Enabled(s, step)
    ensures Inv(Next(s, step))
  {
    hide Balanced, Paired;
    if step.TakeOut? {
      HasEvent(s);
    }
    StepBalanced(s, step);
    StepPaired(s, step);
    StepLogs(s, step);
    StepCreated(s, step);
  }

  lemma StepCreated(s: State, step: Step)
    requires Enabled(s, step) && (s.counter > 0 || s.between.Poster? ==> s.created)
    ensures var t := Next(s, step); t.counter > 0 || t.between.Poster? ==> t.created
  {
  }

  lemma {:induction false} RunKeeps(s: State, steps: seq<Step>)
    requires Inv(s) && Possible(s, steps)
    ensures Inv(After(s, steps))
    decreases |steps|
  {
    hide Inv, Next, Enabled;
    if steps != [] {
      StepKeeps(s, steps[0]);
      RunKeeps(Next(s, steps[0]), steps[1..]);
    }
  }

  // ---------------------------------------------------------------- what was asked for

  function RequestedBy(step: Step): multiset<Ev> {
    match step
    case Give(_) => multiset{Custom}
    case Post(id) => multiset{Plain(id)}
    case _ => multiset{}
  }

  function FailedBy(step: Step): multiset<Ev> {
    if step.Fail? then multiset{step.ev} else multiset{}
  }

  /** The events that a run asks to post. */
  function Requested(steps: seq<Step>): multiset<Ev>
    decreases |steps|
  {
    if steps == [] then multiset{} else RequestedBy(steps[0]) + Requested(steps[1..])
  }

  /** Those that it fails to post. */
  function Failed(steps: seq<Step>): multiset<Ev>
    decreases |steps|
  {
    if steps == [] then multiset{} else FailedBy(steps[0]) + Failed(steps[1..])
  }

  /** The functors that it hands over, in order. */
  function Handed(steps: seq<Step>): seq<nat>
    decreases |steps|
  {
    if steps == [] then [] else (if steps[0].Give? then [steps[0].f] else []) + Handed(steps[1..])
  }

  /** Events on their way to the queue, or past it. */
  function Posted(s: State): multiset<Ev> {
    s.waiting + (if s.between.Poster? then multiset{s.between.ev} else multiset{}) + multiset(s.pushed)
  }

  lemma Moved(w: multiset<Ev>, ev: Ev, p: multiset<Ev>)
    requires ev in w
    ensures w - multiset{ev} + multiset{ev} + p == w + multiset{} + p
    ensures w - multiset{ev} + multiset{} + p + multiset{ev} == w + multiset{} + p
  {
    assert w - multiset{ev} + multiset{ev} == w;
  }

  lemma PushAccounted(s: State)
    requires Enabled(s, Push)
    ensures Posted(Next(s, Push)) == Posted(s)
  {
    var e, w, p := s.between.ev, s.waiting, multiset(s.pushed);
    assert multiset(s.pushed + [e]) == p + multiset{e};
    assert w + multiset{} + (p + multiset{e}) == w + multiset{e} + p;
  }

  lemma WriteAccounted(s: State, ev: Ev)
    requires Enabled(s, Write(ev)) && Enabled(s, Fail(ev))
    ensures Posted(Next(s, Write(ev))) == Posted(s) && Posted(Next(s, Fail(ev))) + multiset{ev} == Posted(s)
  {
    Moved(s.waiting, ev, multiset(s.pushed));
  }

  lemma AskAccounted(s: State, ev: Ev)
    ensures Posted(s.(waiting := s.waiting + multiset{ev})) == Posted(s) + multiset{ev}
  {
    var b, p := if s.between.Poster? then multiset{s.between.ev} else multiset{}, multiset(s.pushed);
    assert s.waiting + multiset{ev} + b + p == s.waiting + b + p + multiset{ev};
  }

  lemma QuietAccounted(s: State, step: Step)
    requires Enabled(s, step) && (step.Read? || step.TakeOut? || step.Call? || step.Return?)
    ensures var t := Next(s, step); t.waiting == s.waiting && t.between == s.between && t.pushed == s.pushed
  {
  }

  lemma Same(s: State, t: State)
    requires t.waiting == s.waiting && t.between == s.between && t.pushed == s.pushed
    ensures Posted(t) == Posted(s)
  {
  }

  lemma StepAccounted(s: State, step: Step)
    requires Enabled(s, step)
    ensures Posted(Next(s, step)) + FailedBy(step) == Posted(s) + RequestedBy(step)
  {
    hide Posted;
    match step
    case Push => PushAccounted(s);
    case Write(ev) => WriteAccounted(s, ev);
    case Fail(ev) => WriteAccounted(s, ev);
    case Give(f) =>
      AskAccounted(s, Custom);
      Same(s.(waiting := s.waiting + multiset{Custom}), Next(s, step));
    case Post(id) => AskAccounted(s, Plain(id));
    case _ =>
      QuietAccounted(s, step);
      Same(s, Next(s, step));
  }

  lemma StepHanded(s: State, step: Step)
    requires Enabled(s, step)
    ensures Next(s, step).given == s.given + if step.Give? then [step.f] else []
    ensures Next(s, step).orphans == s.orphans + FailedBy(step)[Custom]
  {
  }

  lemma Combined(a0: multiset<Ev>, a1: multiset<Ev>, a2: multiset<Ev>, f1: multiset<Ev>, f: multiset<Ev>,
                 r1: multiset<Ev>, r: multiset<Ev>)
    requires a1 + f1 == a0 + r1 && a2 + f == a1 + r
    ensures a2 + (f1 + f) == a0 + (r1 + r)
  {
    assert a2 + (f1 + f) == a2 + f + f1 && a1 + r + f1 == a1 + f1 + r && a0 + r1 + r == a0 + (r1 + r);
  }

  lemma {:induction false} RunAccounted(s: State, steps: seq<Step>)
    requires Possible(s, steps)
    ensures Posted(After(s, steps)) + Failed(steps) == Posted(s) + Requested(steps)
    ensures After(s, steps).given == s.given + Handed(steps)
    ensures After(s, steps).orphans == s.orphans + Failed(steps)[Custom]
    decreases |steps|
  {
    hide Next, Enabled, Posted, FailedBy, RequestedBy;
    if steps != [] {
      var step, rest := steps[0], steps[1..];
      var t := Next(s, step);
      StepAccounted(s, step);
      StepHanded(s, step);
      RunAccounted(t, rest);
      Combined(Posted(s), Posted(t), Posted(After(t, rest)), FailedBy(step), Failed(rest), RequestedBy(step),
               Requested(rest));
    }
  }

  /** In every interleaving: each event that somebody asked to post is waiting for the mutex, or between its
      wake-up and its push, or was pushed, or its post failed; and the functors handed over are exactly those
      given to `postEvent`, in that order. */
  lemma Accounted(steps: seq<Step>)
    requires Possible(START, steps)
    ensures Posted(After(START, steps)) + Failed(steps) == Requested(steps)
    ensures After(START, steps).given == Handed(steps) && After(START, steps).orphans == Failed(steps)[Custom]
  {
    RunAccounted(START, steps);
    assert Posted(START) == multiset{};
  }

  // ---------------------------------------------------------------- what holds in every run

  /** In every interleaving: an iteration of the reader never finds the queue empty, `onCustomEvent`
      never finds the functor queue empty, and a waiting event always has a wake-up. */
  lemma NeverEmpty(steps: seq<Step>)
    requires Possible(START, steps)
    ensures var s := After(START, steps);
            && (Enabled(s, TakeOut) ==> s.queue != [])
            && (Enabled(s, Call) && s.reader.ev == Custom ==> s.functors != [])
            && (s.queue != [] && s.reader.Idle? && s.between == Nobody ==> Enabled(s, Read(s.counter)))
  {
    RunKeeps(START, steps);
  }

  /** In every interleaving: events are called back in the order in which they were pushed, each at
      most once, and functors run in the order in which they were given. */
  lemma InOrder(steps: seq<Step>)
    requires Possible(START, steps)
    ensures var s := After(START, steps); s.called <= s.pushed && s.ran <= s.given
  {
    RunKeeps(START, steps);
  }

  /** Once everything is quiet, every event has been called back except those whose post failed, and every
      functor has run in turn, except as many as there were failed posts of `postEvent`. */
  lemma NothingLost(steps: seq<Step>)
    requires Possible(START, steps)
    ensures var s := After(START, steps);
            s.reader.Idle? && s.counter == 0 && s.between == Nobody && s.waiting == multiset{} ==>
              && s.called == s.pushed && multiset(s.called) + Failed(steps) == Requested(steps)
              && |s.functors| == s.orphans == Failed(steps)[Custom] && |s.ran| == |s.given| - s.orphans
              && s.ran <= Handed(steps) && (s.orphans == 0 ==> s.ran == Handed(steps))
  {
    RunKeeps(START, steps);
    Accounted(steps);
  }

  // ---------------------------------------------------------------- draining

  /** What the loop thread does on its own until the queue is empty. */
  function Drain(n: nat): seq<Step> {
    if n == 0 then [Return] else [TakeOut, Call] + Drain(n - 1)
  }

  lemma DrainedEmpty(s: State)
    requires Balanced(s) && s.reader == Looping(0) && s.between == Nobody && s.counter == 0
    ensures s.queue == []
  {
  }

  /** In a reader's loop with as many iterations left as there are events, all of them are called back. */
  lemma {:induction false} DrainWorks(s: State, n: nat)
    requires Inv(s) && s.reader == Looping(n) && s.between == Nobody && s.counter == 0
    ensures Possible(s, Drain(n))
    ensures var t := After(s, Drain(n)); t.reader.Idle? && t.queue == [] && t.called == s.pushed && t.pushed == s.pushed
    decreases n
  {
    hide Paired, Balanced;
    if n == 0 {
      assert Drain(0)[1..] == [];
      DrainedEmpty(s);
    } else {
      HasEvent(s);
      var a := Next(s, TakeOut);
      var b := Next(a, Call);
      StepKeeps(s, TakeOut);
      StepKeeps(a, Call);
      DrainWorks(b, n - 1);
      var d := Drain(n);
      assert d[0] == TakeOut && d[1..][0] == Call && d[1..][1..] == Drain(n - 1);
      assert Possible(a, d[1..]);
    }
  }

  /** No wake-up is lost: whenever the loop thread is outside the callback and no poster holds the mutex,
      one read of the eventfd and the loop after it call back everything that was pushed. */
  lemma WakeUpSuffices(steps: seq<Step>)
    requires Possible(START, steps)
    ensures var s := After(START, steps);
            s.reader.Idle? && s.between == Nobody && s.queue != [] ==>
              && Possible(s, [Read(s.counter)] + Drain(s.counter))
              && After(s, [Read(s.counter)] + Drain(s.counter)).called == s.pushed
  {
    RunKeeps(START, steps);
    var s := After(START, steps);
    if s.reader.Idle? && s.between == Nobody && s.queue != [] {
      var t := Next(s, Read(s.counter));
      StepKeeps(s, Read(s.counter));
      DrainWorks(t, s.counter);
      assert ([Read(s.counter)] + Drain(s.counter))[1..] == Drain(s.counter);
    }
  }
}
