/** The timers of an event loop: the timer part of lib/libhv/event/hloop.c, with the event flags of
    hevent.h, over the pointer heap. */
module Timers {
  import opened HeapShape
  import opened HeapOrder
  import H = Heap

  const INFINITE: nat := 0xFFFF_FFFF

  // ---------------------------------------------------------------- one timer

  /** The scheduling fields of a timer. */
  datatype TimerRec = TimerRec(next: nat, timeout: nat, repeat: nat, destroy: bool, active: bool, pending: bool)

  predicate Due(r: TimerRec, now: nat) {
    !r.destroy && r.next <= now
  }

  /** `--repeat` on an unsigned 32-bit counter, skipped for `INFINITE`. */
  function CountDown(repeat: nat): nat {
    if repeat == INFINITE then repeat else if repeat == 0 then 0xFFFF_FFFF else repeat - 1
  }

  /** The first point after `now` on the progression `next`, `next + step`, `next + 2 * step`, ... */
  function NextAfter(next: nat, step: nat, now: nat): (r: nat)
    requires step > 0
    ensures r > now
    decreases now + 1 - next
  {
    if next > now then next else NextAfter(next + step, step, now)
  }

  /** What one firing does to a due timer. */
  function Fired(r: TimerRec, now: nat): TimerRec
    requires r.timeout > 0
  {
    Settled(r.(repeat := CountDown(r.repeat)), now)
  }

  function Settled(r: TimerRec, now: nat): TimerRec
    requires r.timeout > 0
  {
    if r.repeat == 0 then r.(destroy := true, pending := true)
    else r.(pending := true, next := NextAfter(r.next, r.timeout * 1000, now))
  }

  /** The new due time stays on the timer's own progression, and is its first point after `now`. */
  lemma {:induction false} NextAfterIsFirst(next: nat, step: nat, now: nat) returns (k: nat)
    requires step > 0
    ensures NextAfter(next, step, now) == next + k * step
    ensures k > 0 ==> next + (k - 1) * step <= now
    decreases now + 1 - next
  {
    if next > now {
      k := 0;
    } else {
      var j := NextAfterIsFirst(next + step, step, now);
      k := j + 1;
      assert (j + 1) * step == j * step + step;
      if j > 0 {
        assert (j - 1) * step + step == j * step;
      }
    }
  }

  /** One firing, told by what becomes of the timer: with one repetition left it is destroyed; otherwise it
      has one less, or still no end of them, and is due next at the first point behind `limit` on its own
      progression. A count of 0 is as good as no end, because it wraps around. */
  ghost predicate FiresOnce(r: TimerRec, r': TimerRec, limit: nat) {
    && r'.pending && r'.timeout == r.timeout && r'.active == r.active
    && (r'.destroy <==> r.repeat == 1)
    && (Endless(r.repeat) ==> Endless(r'.repeat))
    && (!Endless(r.repeat) ==> r'.repeat == r.repeat - 1)
    && (!r'.destroy ==> FirstAfter(r.next, r.timeout * 1000, limit, r'.next))
  }

  predicate Endless(repeat: nat) {
    repeat == 0 || repeat == INFINITE
  }

  /** The point number `j` of a progression. */
  function Point(next: nat, step: nat, j: nat): nat {
    next + j * step
  }

  ghost predicate FirstAfter(next: nat, step: nat, limit: nat, p: nat) {
    p > limit && exists j: nat :: j > 0 && p == Point(next, step, j) && Point(next, step, j - 1) <= limit
  }

  lemma FiredOnce(r: TimerRec, limit: nat)
    requires r.timeout > 0 && Due(r, limit)
    ensures FiresOnce(r, Fired(r, limit), limit)
  {
    NextIsAfter(r.next, r.timeout * 1000, limit);
  }

  lemma NextIsAfter(next: nat, step: nat, limit: nat)
    requires step > 0 && next <= limit
    ensures FirstAfter(next, step, limit, NextAfter(next, step, limit))
  {
    hide NextAfter;
    var k := NextAfterIsFirst(next, step, limit);
    assert k > 0 && NextAfter(next, step, limit) == Point(next, step, k) && Point(next, step, k - 1) <= limit;
  }

  /** `next_timeout` for a timer started at `now`: long round intervals are aligned to 100 ms. */
  function StartAt(now: nat, timeoutMs: nat): nat {
    var t := now + timeoutMs * 1000;
    if timeoutMs >= 1000 && timeoutMs % 100 == 0 then t / 100000 * 100000 else t
  }

  lemma StartInFuture(now: nat, timeoutMs: nat)
    requires timeoutMs > 0
    ensures now < StartAt(now, timeoutMs) <= now + timeoutMs * 1000
    ensures timeoutMs < 1000 || timeoutMs % 100 != 0 ==> StartAt(now, timeoutMs) == now + timeoutMs * 1000
    ensures timeoutMs >= 1000 && timeoutMs % 100 == 0 ==>
        StartAt(now, timeoutMs) % 100000 == 0 && StartAt(now, timeoutMs) > now + timeoutMs * 1000 - 100000
  {
  }

  /** `htimer_reset`: a new due time, and no longer destroyed, inactive or pending. */
  function Restarted(r: TimerRec, now: nat, timeoutMs: nat): TimerRec {
    var timeout := if timeoutMs > 0 then timeoutMs else r.timeout;
    TimerRec(StartAt(now, timeout), timeout, if r.repeat == 0 then 1 else r.repeat, false, true, false)
  }

  // ---------------------------------------------------------------- the loop

  type Recs = map<HeapNode, TimerRec>

  /** The pending list holds every timer flagged pending, and no timer twice. A timer reset while
      it is listed stays there unflagged until the next dispatch. */
  ghost predicate Listed(recs: Recs, pendings: seq<HeapNode>) {
    && (forall i, j :: 0 <= i < j < |pendings| ==> pendings[i] != pendings[j])
    && (forall i :: 0 <= i < |pendings| ==> pendings[i] in recs)
    && (forall t :: t in recs && recs[t].pending ==> t in pendings)
  }

  /** No listed timer has been reset. */
  ghost predicate Fresh(recs: Recs, pendings: seq<HeapNode>) {
    forall i :: 0 <= i < |pendings| ==> pendings[i] in recs && recs[pendings[i]].pending
  }

  /** A timer is in the heap if and only if it is not marked destroyed. */
  ghost predicate InHeap(recs: Recs, nodes: set<HeapNode>) {
    nodes <= recs.Keys && forall t :: t in recs ==> (t in nodes <==> !recs[t].destroy) && recs[t].timeout > 0
  }

  ghost predicate Agree(recs: Recs, nodes: set<HeapNode>, pendings: seq<HeapNode>) {
    InHeap(recs, nodes) && Listed(recs, pendings)
  }

  lemma Marked(recs: Recs, t: HeapNode, nodes: set<HeapNode>, pendings: seq<HeapNode>)
    requires Agree(recs, nodes, pendings) && t in recs
    ensures Agree(recs[t := recs[t].(destroy := true)], nodes - {t}, pendings)
  {
    ListedKept(recs, t, recs[t].(destroy := true), pendings);
    InHeapLess(recs, t, nodes);
  }

  lemma Twice(recs: Recs, t: HeapNode, a: TimerRec, b: TimerRec)
    ensures recs[t := a][t := b] == recs[t := b]
  {
  }

  /** Changing a timer without setting its pending flag keeps the pending list right. */
  lemma ListedKept(recs: Recs, t: HeapNode, r: TimerRec, pendings: seq<HeapNode>)
    requires Listed(recs, pendings) && (r.pending ==> t in recs && recs[t].pending)
    ensures Listed(recs[t := r], pendings)
  {
  }

  lemma ListedMore(recs: Recs, t: HeapNode, pendings: seq<HeapNode>)
    requires Listed(recs, pendings) && t in recs && t !in pendings
    ensures Listed(recs[t := recs[t].(pending := true)], [t] + pendings)
  {
    var recs', p := recs[t := recs[t].(pending := true)], [t] + pendings;
    forall x | x in recs' && recs'[x].pending
      ensures x in p
    {
      assert p[0] == t;
    }
  }

  lemma InHeapLess(recs: Recs, t: HeapNode, nodes: set<HeapNode>)
    requires InHeap(recs, nodes) && t in recs
    ensures InHeap(recs[t := recs[t].(destroy := true)], nodes - {t})
  {
  }

  lemma InHeapSame(recs: Recs, t: HeapNode, r: TimerRec, nodes: set<HeapNode>)
    requires InHeap(recs, nodes) && t in recs && r.destroy == recs[t].destroy && r.timeout > 0
    ensures InHeap(recs[t := r], nodes)
  {
  }

  lemma InHeapFreed(recs: Recs, t: HeapNode, nodes: set<HeapNode>)
    requires InHeap(recs, nodes) && t in recs && recs[t].destroy
    ensures InHeap(recs - {t}, nodes)
  {
  }

  lemma InHeapMore(recs: Recs, t: HeapNode, r: TimerRec, nodes: set<HeapNode>)
    requires InHeap(recs, nodes) && !r.destroy && r.timeout > 0
    ensures InHeap(recs[t := r], nodes + {t})
  {
  }

  lemma Restart(recs: Recs, t: HeapNode, now: nat, timeoutMs: nat, nodes: set<HeapNode>,
          pendings: seq<HeapNode>)
    requires Agree(recs, nodes, pendings) && t in recs
    ensures Agree(recs[t := Restarted(recs[t], now, timeoutMs)], nodes + {t}, pendings)
  {
    ListedKept(recs, t, Restarted(recs[t], now, timeoutMs), pendings);
    InHeapMore(recs, t, Restarted(recs[t], now, timeoutMs), nodes);
  }

  // ---------------------------------------------------------------- a timer pass

  ghost predicate Armed(recs: Recs) {
    forall t :: t in recs ==> recs[t].timeout > 0
  }

  /** The timers after those in `fired` have fired. */
  ghost function After(recs: Recs, fired: seq<HeapNode>, limit: nat): Recs
    requires Armed(recs)
  {
    map t | t in recs :: if t in fired then Fired(recs[t], limit) else recs[t]
  }

  /** Timers not yet pending go to the front of the list, in the order in which they fire. */
  ghost function Pushed(recs: Recs, pendings: seq<HeapNode>, fired: seq<HeapNode>): seq<HeapNode> {
    if fired == [] then pendings
    else
      var t, rest := fired[|fired| - 1], Pushed(recs, pendings, fired[..|fired| - 1]);
      if t in recs && recs[t].pending then rest else [t] + rest
  }

  /** `fired` lists due timers, none twice, by increasing due time and none later than a timer left out. */
  ghost predicate InTurn(recs: Recs, fired: seq<HeapNode>, limit: nat) {
    && (forall i :: 0 <= i < |fired| ==> fired[i] in recs && Due(recs[fired[i]], limit))
    && (forall i, j :: 0 <= i < j < |fired| ==> fired[i] != fired[j] && recs[fired[i]].next <= recs[fired[j]].next)
    && (forall i, t :: 0 <= i < |fired| && t in recs && !recs[t].destroy && t !in fired ==>
      recs[fired[i]].next <= recs[t].next)
  }

  /** `t` has the smallest due time of all timers still scheduled, and that is not after `limit`. */
  ghost predicate NextUp(recs: Recs, t: HeapNode, limit: nat) {
    && t in recs && Due(recs[t], limit)
    && forall x :: x in recs && !recs[x].destroy ==> recs[t].next <= recs[x].next
  }

  /** A timer that has fired is not the next one up: it is gone or due later. */
  lemma InTurnStep(recs: Recs, fired: seq<HeapNode>, limit: nat, t: HeapNode)
    requires Armed(recs) && InTurn(recs, fired, limit) && NextUp(After(recs, fired, limit), t, limit)
    ensures t in recs && t !in fired && InTurn(recs, fired + [t], limit)
  {
    var now := After(recs, fired, limit);
    assert t !in fired;
    var more := fired + [t];
    forall x | x in recs && !recs[x].destroy && x !in more
      ensures recs[t].next <= recs[x].next
    {
      assert t == more[|fired|];
      assert x !in fired by {
        assert forall i :: 0 <= i < |fired| ==> more[i] == fired[i];
      }
      assert now[x] == recs[x] && now[t] == recs[t];
    }
    forall i, x | 0 <= i < |more| && x in recs && !recs[x].destroy && x !in more
      ensures recs[more[i]].next <= recs[x].next
    {
      assert forall j :: 0 <= j < |fired| ==> more[j] == fired[j];
    }
  }

  lemma AfterStep(recs: Recs, fired: seq<HeapNode>, limit: nat, t: HeapNode)
    requires Armed(recs) && t in recs && t !in fired
    ensures t in After(recs, fired, limit) && After(recs, fired, limit)[t] == recs[t]
    ensures After(recs, fired + [t], limit) == After(recs, fired, limit)[t := Fired(recs[t], limit)]
  {
    var a, b := After(recs, fired + [t], limit), After(recs, fired, limit)[t := Fired(recs[t], limit)];
    forall x | x in recs
      ensures a[x] == b[x]
    {
      assert x in fired + [t] <==> x in fired || x == t;
    }
  }

  lemma PushedStep(recs: Recs, pendings: seq<HeapNode>, fired: seq<HeapNode>, t: HeapNode)
    requires t in recs
    ensures Pushed(recs, pendings, fired + [t])
         == if recs[t].pending then Pushed(recs, pendings, fired) else [t] + Pushed(recs, pendings, fired)
  {
    assert (fired + [t])[..|fired|] == fired;
  }

  /** The state of a pass that has fired `fired` so far. */
  ghost predicate Pass(recs0: Recs, pendings0: seq<HeapNode>, recs: Recs, pendings: seq<HeapNode>,
          fired: seq<HeapNode>, limit: nat) {
    Armed(recs0) && InTurn(recs0, fired, limit) && recs == After(recs0, fired, limit)
    && pendings == Pushed(recs0, pendings0, fired) && Fresh(recs, pendings)
  }

  lemma PassBegins(recs: Recs, pendings: seq<HeapNode>, limit: nat)
    requires Armed(recs) && Fresh(recs, pendings)
    ensures Pass(recs, pendings, recs, pendings, [], limit)
  {
    assert After(recs, [], limit) == recs;
  }

  lemma PassStep(recs0: Recs, pendings0: seq<HeapNode>, recs: Recs, pendings: seq<HeapNode>,
          fired: seq<HeapNode>, limit: nat, t: HeapNode)
    requires Pass(recs0, pendings0, recs, pendings, fired, limit) && NextUp(recs, t, limit)
    ensures recs[t].timeout > 0 && recs[t].pending == recs0[t].pending && (recs[t].pending || t !in fired)
    ensures Pass(recs0, pendings0, recs[t := Fired(recs[t], limit)],
                 if recs[t].pending then pendings else [t] + pendings, fired + [t], limit)
    ensures |fired| < |DueSet(recs0, limit)|
  {
    InTurnStep(recs0, fired, limit, t);
    AfterStep(recs0, fired, limit, t);
    PushedStep(recs0, pendings0, fired, t);
    FiredBound(recs0, fired + [t], limit);
    var more := [t] + pendings;
    assert forall i :: 0 < i < |more| ==> more[i] == pendings[i - 1];
  }

  /** When no scheduled timer is due any more, all those that were due have fired, and each timer's
      new due time is after `limit`. */
  lemma PassComplete(recs: Recs, fired: seq<HeapNode>, limit: nat)
    requires Armed(recs) && InTurn(recs, fired, limit)
    requires forall x :: x in recs && !After(recs, fired, limit)[x].destroy ==>
        After(recs, fired, limit)[x].next > limit
    ensures forall t :: t in fired <==> t in recs && Due(recs[t], limit)
  {
    forall t | t in recs && Due(recs[t], limit)
      ensures t in fired
    {
      var now := After(recs, fired, limit);
      assert t in now;
    }
  }

  ghost function DueSet(recs: Recs, limit: nat): set<HeapNode> {
    set t | t in recs && Due(recs[t], limit)
  }

  /** What a pass does to one timer. */
  ghost predicate Turned(r: TimerRec, r': TimerRec, limit: nat) {
    if Due(r, limit) then FiresOnce(r, r', limit) else r' == r
  }

  lemma AllTurned(recs: Recs, fired: seq<HeapNode>, limit: nat)
    requires Armed(recs) && InTurn(recs, fired, limit)
    ensures forall t :: t in fired ==> t in recs
    ensures forall t :: t in recs && (t in fired <==> Due(recs[t], limit)) ==>
        Turned(recs[t], After(recs, fired, limit)[t], limit)
  {
    hide FiresOnce, Fired;
    forall t | t in recs && (t in fired <==> Due(recs[t], limit))
      ensures Turned(recs[t], After(recs, fired, limit)[t], limit)
    {
      if Due(recs[t], limit) {
        FiredOnce(recs[t], limit);
      }
    }
  }

  lemma FiredBound(recs: Recs, fired: seq<HeapNode>, limit: nat)
    requires InTurn(recs, fired, limit)
    ensures |fired| <= |DueSet(recs, limit)|
    ensures DueSet(recs, limit) <= Members(fired) ==> |fired| == |DueSet(recs, limit)|
  {
    MembersSize(fired);
    Subset(Members(fired), DueSet(recs, limit));
    if DueSet(recs, limit) <= Members(fired) {
      Subset(DueSet(recs, limit), Members(fired));
    }
  }

  ghost function Members(q: seq<HeapNode>): set<HeapNode> {
    set t | t in q
  }

  lemma {:induction false} Subset<T>(a: set<T>, b: set<T>)
    requires a <= b
    ensures |a| <= |b|
    decreases |a|
  {
    if a != {} {
      var x :| x in a;
      Subset(a - {x}, b - {x});
    }
  }

  lemma {:induction false} MembersSize(q: seq<HeapNode>)
    requires forall i, j :: 0 <= i < j < |q| ==> q[i] != q[j]
    ensures |Members(q)| == |q|
  {
    if q != [] {
      var n := |q| - 1;
      MembersSize(q[..n]);
      assert q == q[..n] + [q[n]];
      assert Members(q) == Members(q[..n]) + {q[n]};
    }
  }

  lemma PassEnds(recs0: Recs, pendings0: seq<HeapNode>, recs: Recs, pendings: seq<HeapNode>,
          fired: seq<HeapNode>, limit: nat)
    requires Pass(recs0, pendings0, recs, pendings, fired, limit)
    requires forall x :: x in recs && !recs[x].destroy ==> recs[x].next > limit
    ensures forall t :: t in fired <==> t in recs0 && Due(recs0[t], limit)
    ensures |fired| == |DueSet(recs0, limit)|
  {
    PassComplete(recs0, fired, limit);
    FiredBound(recs0, fired, limit);
  }

  // ---------------------------------------------------------------- dispatch

  /** The timers of `list` whose callbacks run: flagged pending, and active. */
  ghost function Running(recs: Recs, list: seq<HeapNode>): seq<HeapNode> {
    if list == [] then []
    else
      var t, rest := list[|list| - 1], Running(recs, list[..|list| - 1]);
      if t in recs && recs[t].pending && recs[t].active then rest + [t] else rest
  }

  /** After the timers of `list` were dispatched: none is pending, and those marked destroyed are freed. */
  ghost function Dispatched(recs: Recs, list: seq<HeapNode>): Recs {
    map t | t in recs && !(t in list && recs[t].pending && recs[t].destroy)
      :: if t in list then recs[t].(pending := false) else recs[t]
  }

  lemma DispatchStep(recs: Recs, list: seq<HeapNode>, t: HeapNode)
    requires t in recs && t !in list
    ensures t in Dispatched(recs, list) && Dispatched(recs, list)[t] == recs[t]
    ensures Dispatched(recs, list + [t]) == if recs[t].pending && recs[t].destroy then Dispatched(recs, list) - {t}
                                            else Dispatched(recs, list)[t := recs[t].(pending := false)]
    ensures Running(recs, list + [t])
            == if recs[t].pending && recs[t].active then Running(recs, list) + [t] else Running(recs, list)
  {
    assert (list + [t])[..|list|] == list;
    assert forall x :: x in list + [t] <==> x in list || x == t;
  }

  lemma DispatchNone(recs: Recs, list: seq<HeapNode>)
    requires list == []
    ensures Dispatched(recs, list) == recs && Running(recs, list) == []
  {
  }

  lemma ListedAt(recs: Recs, pendings: seq<HeapNode>, i: nat)
    requires Listed(recs, pendings) && i < |pendings|
    ensures pendings[i] in recs && pendings[i] !in pendings[..i]
  {
  }

  lemma Emptied(recs: Recs, pendings: seq<HeapNode>)
    requires Listed(recs, pendings)
    ensures forall t :: t in Dispatched(recs, pendings) ==> !Dispatched(recs, pendings)[t].pending
    ensures Listed(Dispatched(recs, pendings), [])
  {
  }

  /** The timers that fire in a pass which starts with an empty pending list: each active one runs
      exactly once in the dispatch that follows, the latest due time first. */
  lemma RunsOnce(recs: Recs, fired: seq<HeapNode>, limit: nat)
    requires Armed(recs) && InTurn(recs, fired, limit) && forall t :: t in recs ==> !recs[t].pending
    ensures Running(After(recs, fired, limit), Pushed(recs, [], fired)) == Reversed(Active(recs, fired))
  {
    PushedReversed(recs, fired);
    var now := After(recs, fired, limit);
    RunningReversed(now, fired);
    ActiveSame(recs, now, fired);
  }

  ghost function Reversed<T>(q: seq<T>): seq<T> {
    if q == [] then [] else [q[|q| - 1]] + Reversed(q[..|q| - 1])
  }

  ghost function Active(recs: Recs, q: seq<HeapNode>): seq<HeapNode> {
    if q == [] then []
    else
      var t, rest := q[|q| - 1], Active(recs, q[..|q| - 1]);
      if t in recs && recs[t].active then rest + [t] else rest
  }

  lemma {:induction false} PushedReversed(recs: Recs, fired: seq<HeapNode>)
    requires forall t :: t in recs ==> !recs[t].pending
    ensures Pushed(recs, [], fired) == Reversed(fired)
  {
    if fired != [] {
      PushedReversed(recs, fired[..|fired| - 1]);
    }
  }

  lemma {:induction false} RunningConcat(recs: Recs, a: seq<HeapNode>, b: seq<HeapNode>)
    ensures Running(recs, a + b) == Running(recs, a) + Running(recs, b)
  {
    if b == [] {
      assert a + b == a;
    } else {
      var n := |b| - 1;
      RunningConcat(recs, a, b[..n]);
      assert (a + b)[..|a| + n] == a + b[..n];
    }
  }

  lemma {:induction false} RunningReversed(now: Recs, fired: seq<HeapNode>)
    requires forall i :: 0 <= i < |fired| ==> fired[i] in now && now[fired[i]].pending
    ensures Running(now, Reversed(fired)) == Reversed(Active(now, fired))
  {
    if fired != [] {
      var n := |fired| - 1;
      var t := fired[n];
      RunningReversed(now, fired[..n]);
      RunningConcat(now, [t], Reversed(fired[..n]));
      assert [t][..0] == [];
      var rest := Active(now, fired[..n]);
      assert (rest + [t])[..|rest|] == rest;
    }
  }

  lemma {:induction false} ActiveSame(recs: Recs, now: Recs, fired: seq<HeapNode>)
    requires forall i :: 0 <= i < |fired| ==>
        fired[i] in recs && fired[i] in now && recs[fired[i]].active == now[fired[i]].active
    ensures Active(recs, fired) == Active(now, fired)
  {
    if fired != [] {
      ActiveSame(recs, now, fired[..|fired| - 1]);
    }
  }

  class Loop {
    var timers: H.Heap
    var ntimers: nat
    var pendings: seq<HeapNode>
    var now: nat
    /** Every allocated timer. */
    ghost var all: set<HeapNode>

    ghost function View(): Recs
      reads this`all, all`key, all`timeout, all`repeat, all`destroy, all`active, all`pending
    {
      map t | t in all :: TimerRec(t.key, t.timeout, t.repeat, t.destroy, t.active, t.pending)
    }

    /** Timers outside the heap have no children left. */
    ghost predicate Bare()
      reads this`all, all`destroy, all`left, all`right
    {
      forall t :: t in all && t.destroy ==> t.left == null && t.right == null
    }

    ghost predicate Valid()
      reads this, timers, timers.nodes, all
    {
      && timers.Valid() && ntimers == |timers.s|
      && Agree(View(), timers.nodes, pendings) && Bare()
    }

    constructor (start: nat)
      ensures Valid() && all == {} && pendings == [] && now == start
    {
      hide H.Heap.Valid;
      timers := new H.Heap();
      ntimers, pendings, all := 0, [], {};
      now := start;
      new;
      assert View() == map[];
    }

    /** `EVENT_PENDING`: to the front of the pending list, unless it is there already. */
    method MarkPending(t: HeapNode)
      requires t in all && Listed(View(), pendings) && (t.pending || t !in pendings)
      modifies this`pendings, t`pending
      ensures View() == old(View())[t := old(View())[t].(pending := true)]
      ensures Listed(View(), pendings)
      ensures pendings == if old(t.pending) then old(pendings) else [t] + old(pendings)
    {
      if !t.pending {
        ListedMore(View(), t, pendings);
        ghost var recs := View();
        t.pending := true;
        assert View() == recs[t := recs[t].(pending := true)];
        pendings := [t] + pendings;
      }
    }

    /** `__htimer_del`: out of the heap and marked, unless that was done before. */
    method Unschedule(t: HeapNode)
      requires Valid() && t in all
      modifies this`ntimers, timers, timers.nodes`parent, timers.nodes`left, timers.nodes`right, t`destroy
      ensures Valid() && View() == old(View())[t := old(View())[t].(destroy := true)]
      ensures timers.nodes == old(timers.nodes) - {t}
    {
      ghost var recs := View();
      if t.destroy {
        assert recs[t] == recs[t].(destroy := true) && t !in timers.nodes;
        return;
      }
      TakeOut(t);
    }

    method TakeOut(t: HeapNode)
      requires Valid() && t in all && !t.destroy
      modifies this`ntimers, timers, timers.nodes`parent, timers.nodes`left, timers.nodes`right, t`destroy
      ensures Valid() && View() == old(View())[t := old(View())[t].(destroy := true)]
      ensures timers.nodes == old(timers.nodes) - {t}
    {
      ghost var recs := View();
      assert recs[t].destroy == t.destroy;
      Marked(recs, t, timers.nodes, pendings);
      Extract(t);
      Retire(t);
    }

    method Retire(t: HeapNode)
      requires timers.Valid() && ntimers == |timers.s| + 1 && t !in timers.nodes && t in all && Bare()
      requires t.left == null && t.right == null
          && Agree(View()[t := View()[t].(destroy := true)], timers.nodes, pendings)
      modifies this`ntimers, t`destroy
      ensures Valid() && View() == old(View())[t := old(View())[t].(destroy := true)]
    {
      hide H.Heap.Valid;
      ntimers := ntimers - 1;
      MarkDestroyed(t);
    }

    /** `timer->destroy = 1;` */
    method MarkDestroyed(t: HeapNode)
      requires timers.Valid() && t !in timers.nodes && t in all && Bare() && t.left == null && t.right == null
      modifies t`destroy
      ensures timers.Valid() && Bare()
      ensures View() == old(View())[t := old(View())[t].(destroy := true)]
    {
      ghost var recs := View();
      t.destroy := true;
      assert View() == recs[t := recs[t].(destroy := true)];
    }

    /** `heap_remove(&loop->timers, &timer->node)`. */
    method Extract(t: HeapNode)
      requires timers.Valid() && t in timers.nodes && Bare() && InHeap(View(), timers.nodes)
      modifies timers, timers.nodes`parent, timers.nodes`left, timers.nodes`right
      ensures timers.Valid() && timers.nodes == old(timers.nodes) - {t} && |timers.s| == |old(timers.s)| - 1
      ensures View() == old(View()) && Bare() && t.left == null && t.right == null
    {
      assert forall x :: x in all && x.destroy ==> x !in timers.nodes by {
        assert forall x :: x in all ==> x in View() && View()[x].destroy == x.destroy;
      }
      timers.Remove(t);
    }

    /** Nothing else hangs on the due time of a timer. */
    lemma DueTimeIrrelevant(t: HeapNode, limit: nat)
      requires Valid() && t in all && !t.destroy
      ensures t in timers.nodes && t.timeout > 0 && InHeap(View(), timers.nodes)
      ensures timers.nodes <= all && forall x :: x in all && x.destroy ==> x !in timers.nodes
      ensures Agree(View()[t := View()[t].(next := NextAfter(t.key, t.timeout * 1000, limit))], timers.nodes, pendings)
    {
      hide H.Heap.Valid, NextAfter, Listed;
      var r := View()[t].(next := NextAfter(t.key, t.timeout * 1000, limit));
      assert forall x :: x in all ==> x in View() && View()[x].destroy == x.destroy;
      InHeapSame(View(), t, r, timers.nodes);
      ListedKept(View(), t, r, pendings);
    }

    /** `heap_dequeue`, the new due time, `heap_insert`. */
    method Reschedule(t: HeapNode, limit: nat)
      requires Valid() && t in all && !t.destroy && timers.root == t
      modifies timers, timers.nodes`parent, timers.nodes`left, timers.nodes`right, t`key
      ensures Valid() && timers.nodes == old(timers.nodes)
      ensures View() == old(View())[t := old(View())[t].(next := NextAfter(old(t.key), t.timeout * 1000, limit))]
    {
      hide H.Heap.Valid, NextAfter, Agree, Listed, InHeap;
      DueTimeIrrelevant(t, limit);
      Extract(t);
      Advance(t, limit);
      Enter(t);
      assert timers.nodes == old(timers.nodes);
    }

    /** `while (timer->next_timeout <= timeout) timer->next_timeout += timer->timeout * 1000;` */
    method Advance(t: HeapNode, limit: nat)
      requires timers.Valid() && t !in timers.nodes && t in all && Bare() && t.timeout > 0
      modifies t`key
      ensures timers.Valid() && Bare() && t.key == NextAfter(old(t.key), t.timeout * 1000, limit)
      ensures View() == old(View())[t := old(View())[t].(next := t.key)]
    {
      ghost var k0 := t.key;
      while t.key <= limit
        invariant NextAfter(k0, t.timeout * 1000, limit) == NextAfter(t.key, t.timeout * 1000, limit)
        decreases limit + 1 - t.key
      {
        t.key := t.key + t.timeout * 1000;
      }
    }

    /** `heap_insert(timers, &timer->node)`. */
    method Enter(t: HeapNode)
      requires timers.Valid() && t !in timers.nodes && t in all && t.left == null && t.right == null
      requires !t.destroy && timers.nodes <= all && forall x :: x in all && x.destroy ==>
          x !in timers.nodes && x.left == null && x.right == null
      modifies timers, t`parent, t`left, t`right, timers.nodes`parent, timers.nodes`left, timers.nodes`right
      ensures timers.Valid() && timers.nodes == old(timers.nodes) + {t} && |timers.s| == |old(timers.s)| + 1
      ensures View() == old(View()) && Bare()
    {
      timers.Insert(t);
    }

    /** One round of `__hloop_process_timers`: the root timer is due. */
    method FireRoot(t: HeapNode, limit: nat)
      requires Valid() && t in all && timers.root == t && t in timers.nodes && t.key <= limit
          && (t.pending || t !in pendings)
      modifies this`ntimers, this`pendings, timers, timers.nodes`parent, timers.nodes`left, timers.nodes`right
      modifies t`key, t`repeat, t`destroy, t`pending
      ensures Valid() && View() == old(View())[t := Fired(old(View())[t], limit)]
      ensures FiresOnce(old(View())[t], View()[t], limit)
      ensures timers.nodes == if t.destroy then old(timers.nodes) - {t} else old(timers.nodes)
      ensures pendings == if old(t.pending) then old(pendings) else [t] + old(pendings)
    {
      ghost var recs := View();
      assert !t.destroy by {
        assert recs[t].destroy == t.destroy;
      }
      Tick(t);
      Settle(t, limit);
      ghost var r1 := recs[t].(repeat := CountDown(recs[t].repeat));
      Twice(recs, t, r1, Fired(recs[t], limit));
      FiredOnce(recs[t], limit);
    }

    method Settle(t: HeapNode, limit: nat)
      requires Valid() && t in all && timers.root == t && t in timers.nodes && !t.destroy && t.timeout > 0
      requires t.pending || t !in pendings
      modifies this`ntimers, this`pendings, timers, timers.nodes`parent, timers.nodes`left, timers.nodes`right
      modifies t`key, t`destroy, t`pending
      ensures Valid() && View() == old(View())[t := Settled(old(View())[t], limit)]
      ensures timers.nodes == if t.destroy then old(timers.nodes) - {t} else old(timers.nodes)
      ensures pendings == if old(t.pending) then old(pendings) else [t] + old(pendings)
    {
      ghost var recs := View();
      if t.repeat == 0 {
        Unschedule(t);
      } else {
        Reschedule(t, limit);
      }
      ghost var r := View()[t];
      Pend(t);
      Twice(recs, t, r, Settled(recs[t], limit));
    }

    /** `if (timer->repeat != INFINITE) --timer->repeat;` */
    method Tick(t: HeapNode)
      requires Valid() && t in all
      modifies t`repeat
      ensures Valid() && View() == old(View())[t := old(View())[t].(repeat := CountDown(old(t.repeat)))]
    {
      hide H.Heap.Valid;
      ghost var recs := View();
      ghost var r := recs[t].(repeat := CountDown(t.repeat));
      InHeapSame(recs, t, r, timers.nodes);
      ListedKept(recs, t, r, pendings);
      if t.repeat != INFINITE {
        t.repeat := if t.repeat == 0 then 0xFFFF_FFFF else t.repeat - 1;
      }
      assert View() == recs[t := r];
    }

    method Pend(t: HeapNode)
      requires Valid() && t in all && (t.pending || t !in pendings)
      modifies this`pendings, t`pending
      ensures Valid() && View() == old(View())[t := old(View())[t].(pending := true)]
      ensures pendings == if old(t.pending) then old(pendings) else [t] + old(pendings)
    {
      hide H.Heap.Valid;
      InHeapSame(View(), t, View()[t].(pending := true), timers.nodes);
      MarkPending(t);
    }

    /** What the root of the heap says about all timers. */
    ghost predicate Ready(limit: nat)
      reads this, timers, all`key, all`timeout, all`repeat, all`destroy, all`active, all`pending
    {
      var root := timers.root;
      && (root != null ==> root in timers.nodes && root in all)
      && (root != null && root in View() && View()[root].next <= limit ==> NextUp(View(), root, limit))
      && (root == null || (root in View() && View()[root].next > limit) ==>
        forall x :: x in View() && !View()[x].destroy ==> View()[x].next > limit)
    }

    lemma Front(limit: nat)
      requires Valid()
      ensures Ready(limit)
    {
      timers.RootMember();
      assert forall x :: x in all ==> x in View() && View()[x].next == x.key && View()[x].destroy == x.destroy;
      forall x | x in timers.nodes
        ensures timers.root != null && timers.root.key <= x.key
      {
        Placed(x);
      }
    }

    lemma Placed(x: HeapNode)
      requires timers.Valid() && x in timers.nodes
      ensures timers.root != null && timers.root in timers.nodes && timers.root.key <= x.key
    {
      timers.RootMember();
      assert Has(timers.s, x);
      var k :| 0 <= k < |timers.s| && timers.s[k] == x;
      AllKeyed(timers.Snapshot(), timers.Keys(), timers.root, timers.s);
      RootIsMin(timers.Keys(), timers.s, k);
    }

    /** `__hloop_process_timers`: every timer due at entry fires exactly once, in the order of due
        times; no other timer changes. */
    method ProcessTimers(limit: nat) returns (n: nat, ghost fired: seq<HeapNode>)
      requires Valid() && Fresh(View(), pendings) && Armed(View())
      modifies this`ntimers, this`pendings, timers, timers.nodes
      ensures Valid() && Fresh(View(), pendings)
      ensures InTurn(old(View()), fired, limit) && n == |fired| == |DueSet(old(View()), limit)|
      ensures forall t :: t in fired <==> t in old(View()) && Due(old(View())[t], limit)
      ensures View() == After(old(View()), fired, limit)
      ensures pendings == Pushed(old(View()), old(pendings), fired)
      ensures forall t :: t in timers.nodes ==> t.key > limit
      ensures View().Keys == old(View()).Keys && forall t :: t in View() ==> Turned(old(View())[t], View()[t], limit)
    {
      n, fired := RunPass(limit);
      AllTurned(old(View()), fired, limit);
      PassEnds(old(View()), old(pendings), View(), pendings, fired, limit);
      assert forall t :: t in timers.nodes ==> View()[t].next == t.key;
    }

    method RunPass(limit: nat) returns (n: nat, ghost fired: seq<HeapNode>)
      requires Valid() && Fresh(View(), pendings) && Armed(View())
      modifies this`ntimers, this`pendings, timers, timers.nodes
      ensures Valid() && n == |fired| && Pass(old(View()), old(pendings), View(), pendings, fired, limit)
      ensures forall x :: x in View() && !View()[x].destroy ==> View()[x].next > limit
    {
      hide H.Heap.Valid, Agree, InTurn, After, Pushed, Fired, Armed, FiresOnce, DueSet;
      n, fired := 0, [];
      ghost var recs, nodes := View(), timers.nodes;
      PassBegins(recs, pendings, limit);
      Front(limit);
      while timers.root != null && timers.root.key <= limit
        invariant Valid() && timers.nodes <= nodes && n == |fired|
        invariant Pass(recs, old(pendings), View(), pendings, fired, limit) && Ready(limit)
        decreases |DueSet(recs, limit)| - n
      {
        var t := timers.root;
        PassStep(recs, old(pendings), View(), pendings, fired, limit, t);
        FireRoot(t, limit);
        n, fired := n + 1, fired + [t];
        Front(limit);
      }
    }

    /** `next_timeout` as `htimer_add` and `htimer_reset` compute it. */
    method NextTimeout(timeoutMs: nat) returns (next: nat)
      ensures next == StartAt(now, timeoutMs)
    {
      next := now + timeoutMs * 1000;
      if timeoutMs >= 1000 && timeoutMs % 100 == 0 {
        next := next / 100000 * 100000;
      }
    }

    /** `htimer_add`, with the loop time it reads as a parameter. */
    method Add(time: nat, timeoutMs: nat, repeat: nat) returns (t: HeapNode?)
      requires Valid()
      modifies this`now, this`all, this`ntimers, timers, timers.nodes`parent, timers.nodes`left, timers.nodes`right
      ensures Valid() && pendings == old(pendings)
      ensures timeoutMs == 0 ==>
          t == null && View() == old(View()) && timers.nodes == old(timers.nodes) && now == old(now)
      ensures timeoutMs > 0 ==> t != null && fresh(t) && now == time && timers.nodes == old(timers.nodes) + {t}
      ensures timeoutMs > 0 ==>
          View() == old(View())[t := TimerRec(StartAt(time, timeoutMs), timeoutMs, repeat, false, true, false)]
    {
      hide H.Heap.Valid, Listed, StartAt, InHeap, Bare, Agree;
      if timeoutMs == 0 {
        return null;
      }
      now := time;
      var next := NextTimeout(timeoutMs);
      t := new HeapNode(next, timeoutMs, repeat);
      Register(t);
    }

    /** The insertion of a new timer. */
    method Register(t: HeapNode)
      requires Valid() && t !in all && t.timeout > 0 && !t.destroy && !t.pending
      requires t.parent == null && t.left == null && t.right == null
      modifies this`all, this`ntimers, timers, t`parent, t`left, t`right, timers.nodes`parent, timers.nodes`left,
          timers.nodes`right
      ensures Valid() && timers.nodes == old(timers.nodes) + {t}
      ensures View() == old(View())[t := TimerRec(t.key, t.timeout, t.repeat, t.destroy, t.active, t.pending)]
    {
      hide H.Heap.Valid;
      ghost var recs := View();
      ghost var r := TimerRec(t.key, t.timeout, t.repeat, t.destroy, t.active, t.pending);
      ListedKept(recs, t, r, pendings);
      InHeapMore(recs, t, r, timers.nodes);
      Allocate(t);
      Enter(t);
      ntimers := ntimers + 1;
    }

    ghost method Allocate(t: HeapNode)
      requires timers.Valid() && Bare() && InHeap(View(), timers.nodes) && t !in all && !t.destroy
      modifies this`all
      ensures all == old(all) + {t} && timers.nodes <= all && t !in timers.nodes && Bare()
      ensures forall x :: x in all && x.destroy ==> x !in timers.nodes
      ensures View() == old(View())[t := TimerRec(t.key, t.timeout, t.repeat, t.destroy, t.active, t.pending)]
    {
      var recs := View();
      assert forall x :: x in recs ==> recs[x].destroy == x.destroy;
      all := all + {t};
      assert View() == recs[t := TimerRec(t.key, t.timeout, t.repeat, t.destroy, t.active, t.pending)];
    }

    /** `htimer_reset`. */
    method Reset(t: HeapNode, timeoutMs: nat)
      requires Valid() && t in all
      modifies this`ntimers, timers, timers.nodes`parent, timers.nodes`left, timers.nodes`right
      modifies t`parent, t`left, t`right, t`key, t`timeout, t`repeat, t`destroy, t`active, t`pending
      ensures Valid() && timers.nodes == old(timers.nodes) + {t}
      ensures View() == old(View())[t := Restarted(old(View())[t], now, timeoutMs)]
    {
      hide H.Heap.Valid, StartAt, Listed, InHeap;
      ghost var recs := View();
      Restart(recs, t, now, timeoutMs, timers.nodes, pendings);
      assert timers.nodes + {t} == timers.nodes - {t} + {t};
      Detach(t);
      Refresh(t, timeoutMs);
      Enter(t);
    }

    /** The first branch of `htimer_reset`: out of the heap, counted either way. */
    method Detach(t: HeapNode)
      requires Valid() && t in all
      modifies this`ntimers, timers, timers.nodes`parent, timers.nodes`left, timers.nodes`right
      ensures timers.Valid() && Bare() && View() == old(View()) && timers.nodes == old(timers.nodes) - {t}
      ensures ntimers == |timers.s| + 1 && t.left == null && t.right == null
      ensures timers.nodes <= all && forall x :: x in all && x.destroy ==> x !in timers.nodes
    {
      hide H.Heap.Valid, Listed;
      assert forall x :: x in all ==> x in View() && View()[x].destroy == x.destroy;
      if t.destroy {
        ntimers := ntimers + 1;
      } else {
        Extract(t);
      }
    }

    /** The field assignments of `htimer_reset`. */
    method Refresh(t: HeapNode, timeoutMs: nat)
      requires timers.Valid() && t !in timers.nodes && t in all && Bare()
      modifies t`key, t`timeout, t`repeat, t`destroy, t`active, t`pending
      ensures timers.Valid() && Bare() && View() == old(View())[t := Restarted(old(View())[t], now, timeoutMs)]
    {
      hide H.Heap.Valid, H.Heap.Linked, StartAt, Listed, InHeap;
      ghost var recs := View();
      var timeout := if timeoutMs > 0 then timeoutMs else t.timeout;
      var next := NextTimeout(timeout);
      var repeat := if t.repeat == 0 then 1 else t.repeat;
      Assign(t, repeat, timeout, next);
    }

    method Assign(t: HeapNode, repeat: nat, timeout: nat, next: nat)
      requires timers.Valid() && t !in timers.nodes && t in all && Bare()
      modifies t`key, t`timeout, t`repeat, t`destroy, t`active, t`pending
      ensures timers.Valid() && Bare()
          && View() == old(View())[t := TimerRec(next, timeout, repeat, false, true, false)]
    {
      hide H.Heap.Valid;
      ghost var recs := View();
      t.repeat, t.timeout, t.key, t.destroy, t.active, t.pending := repeat, timeout, next, false, true, false;
      assert View() == recs[t := TimerRec(next, timeout, repeat, false, true, false)];
    }

    /** `htimer_del`: a timer that is not pending is freed at once, a pending one by the dispatch. */
    method Del(t: HeapNode)
      requires Valid() && t in all && (t.pending || t !in pendings)
      modifies this`ntimers, this`all, timers, timers.nodes`parent, timers.nodes`left, timers.nodes`right, t`destroy,
          t`active
      ensures Valid() && pendings == old(pendings)
      ensures !old(t.active) ==> View() == old(View()) && timers.nodes == old(timers.nodes)
      ensures old(t.active) ==> timers.nodes == old(timers.nodes) - {t}
      ensures old(t.active && !t.pending) ==> View() == old(View()) - {t}
      ensures old(t.active && t.pending) ==>
          View() == old(View())[t := old(View())[t].(destroy := true, active := false)]
    {
      hide H.Heap.Valid, Listed, InHeap;
      if !t.active {
        return;
      }
      Unschedule(t);
      Drop(t);
    }

    /** `EVENT_DEL`. */
    method Drop(t: HeapNode)
      requires Valid() && t in all && t.active && t.destroy && t !in timers.nodes && (t.pending || t !in pendings)
      modifies this`all, t`active
      ensures Valid()
      ensures View() == if t.pending then old(View())[t := old(View())[t].(active := false)] else old(View()) - {t}
    {
      hide H.Heap.Valid;
      ghost var recs := View();
      ghost var r := recs[t].(active := false);
      t.active := false;
      if !t.pending {
        all := all - {t};
        assert View() == recs - {t};
      } else {
        InHeapSame(recs, t, r, timers.nodes);
        ListedKept(recs, t, r, pendings);
        assert View() == recs[t := r];
      }
    }

    /** The timer part of `hloop_process_pendings`, with callbacks that only leave a trace. */
    method ProcessPendings() returns (ncbs: nat, ghost ran: seq<HeapNode>)
      requires Valid()
      modifies this`pendings, this`all, all`pending, all`active
      ensures Valid() && pendings == [] && ran == Running(old(View()), old(pendings)) && ncbs == |ran|
      ensures View() == Dispatched(old(View()), old(pendings)) && all <= old(all)
      ensures forall t :: t in all ==> !t.pending
    {
      hide H.Heap.Valid, InHeap, Listed, Bare, Dispatched, Running;
      ncbs, ran := 0, [];
      ghost var recs := View();
      DispatchNone(recs, pendings[..0]);
      var i := 0;
      while i < |pendings|
        invariant i <= |pendings| && Core() && all <= old(all) && pendings == old(pendings)
        invariant View() == Dispatched(recs, pendings[..i])
        invariant ran == Running(recs, pendings[..i]) && ncbs == |ran|
      {
        ghost var t := pendings[i];
        ListedAt(recs, pendings, i);
        DispatchStep(recs, pendings[..i], t);
        assert pendings[..i + 1] == pendings[..i] + [t];
        var run := DispatchOne(pendings[i]);
        if run {
          ncbs, ran := ncbs + 1, ran + [t];
        }
        i := i + 1;
      }
      assert pendings[..i] == pendings;
      Emptied(recs, pendings);
      pendings := [];
      assert forall t :: t in all ==> t in View() && View()[t].pending == t.pending;
    }

    /** One turn of the dispatch loop. */
    method DispatchOne(t: HeapNode) returns (run: bool)
      requires Core() && t in all
      modifies this`all, t`pending, t`active
      ensures Core() && all <= old(all) && run == old(t.pending && t.active)
      ensures View() == if old(t.pending) && t.destroy then old(View()) - {t}
                        else old(View())[t := old(View())[t].(pending := false)]
    {
      ghost var recs := View();
      assert t in recs && recs[t].pending == t.pending;
      run := t.pending && t.active;
      if t.pending {
        if t.destroy {
          Free(t);
        } else {
          Unmark(t);
        }
      } else {
        assert recs[t := recs[t].(pending := false)] == recs;
      }
    }

    /** `cur->pending = 0; EVENT_DEL(cur);` */
    method Free(t: HeapNode)
      requires Core() && t in all && t.destroy
      modifies this`all, t`pending, t`active
      ensures Core() && all <= old(all) && View() == old(View()) - {t}
    {
      hide H.Heap.Valid;
      ghost var recs := View();
      InHeapFreed(recs, t, timers.nodes);
      t.pending := false;
      t.active := false;
      all := all - {t};
      assert View() == recs - {t};
    }

    method Unmark(t: HeapNode)
      requires Core() && t in all
      modifies t`pending
      ensures Core() && View() == old(View())[t := old(View())[t].(pending := false)]
    {
      hide H.Heap.Valid;
      ghost var recs := View();
      InHeapSame(recs, t, recs[t].(pending := false), timers.nodes);
      t.pending := false;
      assert View() == recs[t := recs[t].(pending := false)];
    }

    /** What holds of the timers whether or not the pending list is in order. */
    ghost predicate Core()
      reads this, timers, all, timers.nodes
    {
      timers.Valid() && ntimers == |timers.s| && InHeap(View(), timers.nodes) && Bare()
    }
  }
}
