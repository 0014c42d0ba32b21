/** How often a timer of lib/libhv/event/hloop.c fires, over any number of passes. */
module TimerLife {
  import opened HeapShape
  import opened Timers
  import H = Heap

  // ---------------------------------------------------------------- the points of a timer

  /** In the pass number `i` the timer is due for a point of its progression that no earlier pass has reached. */
  ghost predicate DueIn(next: nat, step: nat, limits: seq<nat>, i: nat) {
    i < |limits| && exists j: nat :: New(next, step, limits, i, j)
  }

  ghost predicate New(next: nat, step: nat, limits: seq<nat>, i: nat, j: nat) {
    i < |limits| && Point(next, step, j) <= limits[i] && forall h :: 0 <= h < i ==> limits[h] < Point(next, step, j)
  }

  /** The number of due passes among the first `n`. */
  ghost function DueCount(next: nat, step: nat, limits: seq<nat>, n: nat): nat {
    if n == 0 then 0 else DueCount(next, step, limits, n - 1) + if DueIn(next, step, limits, n - 1) then 1 else 0
  }

  lemma DueInSame(next: nat, step: nat, a: seq<nat>, b: seq<nat>, i: nat)
    requires i < |a| <= |b| && a == b[..|a|]
    ensures DueIn(next, step, a, i) == DueIn(next, step, b, i)
  {
    forall j: nat
      ensures New(next, step, a, i, j) == New(next, step, b, i, j)
    {
      assert forall h :: 0 <= h < |a| ==> a[h] == b[h];
    }
  }

  lemma {:induction false} DueCountSame(next: nat, step: nat, a: seq<nat>, b: seq<nat>, n: nat)
    requires n <= |a| <= |b| && a == b[..|a|]
    ensures DueCount(next, step, a, n) == DueCount(next, step, b, n)
  {
    if n > 0 {
      DueCountSame(next, step, a, b, n - 1);
      DueInSame(next, step, a, b, n - 1);
    }
  }

  lemma PointsGrow(next: nat, step: nat, j: nat, k: nat)
    requires j <= k
    ensures Point(next, step, j) <= Point(next, step, k)
    ensures Point(Point(next, step, j), step, k - j) == Point(next, step, k)
  {
    assert k * step == j * step + (k - j) * step;
  }

  // ---------------------------------------------------------------- one timer over many passes

  /** What is left of the timer that was `r0`, after passes with these limits: its due time is the first point
      of its progression that no pass has reached. */
  ghost predicate Pending(r0: TimerRec, limits: seq<nat>, r: TimerRec) {
    var step := r0.timeout * 1000;
    var c := DueCount(r0.next, step, limits, |limits|);
    && !r.destroy && r.timeout == r0.timeout && r0.repeat <= INFINITE
    && (if Endless(r0.repeat) then Endless(r.repeat) else r.repeat == r0.repeat - c && r.repeat > 0)
    && exists j: nat :: Unreached(r0.next, step, limits, j) && r.next == Point(r0.next, step, j)
  }

  /** The point number `j` is the first that is behind all these limits. */
  ghost predicate Unreached(next: nat, step: nat, limits: seq<nat>, j: nat) {
    && (forall h :: 0 <= h < |limits| ==> limits[h] < Point(next, step, j))
    && (j > 0 ==> exists h :: 0 <= h < |limits| && limits[h] >= Point(next, step, j - 1))
  }

  lemma DueWhen(next: nat, step: nat, limits: seq<nat>, j: nat, limit: nat)
    requires Unreached(next, step, limits, j)
    ensures DueIn(next, step, limits + [limit], |limits|) <==> Point(next, step, j) <= limit
  {
    var more := limits + [limit];
    assert forall h :: 0 <= h < |limits| ==> more[h] == limits[h];
    if Point(next, step, j) <= limit {
      assert New(next, step, more, |limits|, j);
    }
    if DueIn(next, step, more, |limits|) {
      var k: nat :| New(next, step, more, |limits|, k);
      assert forall h :: 0 <= h < |limits| ==> limits[h] < Point(next, step, k);
      if k < j {
        PointsGrow(next, step, k, j - 1);
        assert false;
      }
      PointsGrow(next, step, j, k);
    }
  }

  lemma StillUnreached(next: nat, step: nat, limits: seq<nat>, j: nat, limit: nat)
    requires Unreached(next, step, limits, j) && Point(next, step, j) > limit
    ensures Unreached(next, step, limits + [limit], j)
  {
    var more := limits + [limit];
    if j > 0 {
      var h :| 0 <= h < |limits| && limits[h] >= Point(next, step, j - 1);
      assert more[h] >= Point(next, step, j - 1);
    }
  }

  lemma NextUnreached(next: nat, step: nat, limits: seq<nat>, j: nat, limit: nat, p: nat) returns (k: nat)
    requires Unreached(next, step, limits, j) && FirstAfter(Point(next, step, j), step, limit, p)
    ensures p == Point(next, step, k) && Unreached(next, step, limits + [limit], k)
  {
    var more := limits + [limit];
    var i: nat :| i > 0 && p == Point(Point(next, step, j), step, i)
      && Point(Point(next, step, j), step, i - 1) <= limit;
    k := j + i;
    PointsGrow(next, step, j, k);
    PointsGrow(next, step, j, k - 1);
    assert more[|limits|] >= Point(next, step, k - 1);
  }

  /** One more pass: the timer fires if and only if it is due for a new point, and with the last of its
      repetitions it is destroyed. */
  lemma OneMore(r0: TimerRec, limits: seq<nat>, r: TimerRec, r': TimerRec, limit: nat)
    requires Pending(r0, limits, r) && Turned(r, r', limit)
    ensures var more, step := limits + [limit], r0.timeout * 1000;
            && (Due(r, limit) <==> DueIn(r0.next, step, more, |limits|))
            && (if !Endless(r0.repeat) && DueCount(r0.next, step, more, |more|) >= r0.repeat
                then r'.destroy && DueIn(r0.next, step, more, |limits|)
                else Pending(r0, more, r'))
  {
    hide DueIn, Unreached, Point, FirstAfter;
    var more, step := limits + [limit], r0.timeout * 1000;
    var j: nat :| Unreached(r0.next, step, limits, j) && r.next == Point(r0.next, step, j);
    DueWhen(r0.next, step, limits, j, limit);
    DueCountSame(r0.next, step, limits, more, |limits|);
    assert |more| - 1 == |limits|;
    if !Due(r, limit) {
      StillUnreached(r0.next, step, limits, j, limit);
    } else if !r'.destroy {
      var k := NextUnreached(r0.next, step, limits, j, limit, r'.next);
    }
  }

  /** All repetitions have been used up. */
  ghost predicate Over(r0: TimerRec, limits: seq<nat>, n: nat) {
    !Endless(r0.repeat) && DueCount(r0.next, r0.timeout * 1000, limits, n) >= r0.repeat
  }

  /** The pass number `i` is one of those in which the timer should fire: it is due for a new point, and has
      been fewer times than it is to be repeated. */
  ghost predicate Fires(r0: TimerRec, limits: seq<nat>, i: nat) {
    DueIn(r0.next, r0.timeout * 1000, limits, i) && !Over(r0, limits, i)
  }

  lemma FiresSame(r0: TimerRec, a: seq<nat>, b: seq<nat>, i: nat)
    requires i <= |a| <= |b| && a == b[..|a|]
    ensures Over(r0, a, i) == Over(r0, b, i) && (i < |a| ==> Fires(r0, a, i) == Fires(r0, b, i))
  {
    hide DueIn, DueCount;
    DueCountSame(r0.next, r0.timeout * 1000, a, b, i);
    if i < |a| {
      DueInSame(r0.next, r0.timeout * 1000, a, b, i);
    }
  }

  /** Where the timer that was `r0` stands after passes with these limits. */
  ghost predicate Standing(r0: TimerRec, limits: seq<nat>, r: TimerRec) {
    if Over(r0, limits, |limits|) then r.destroy else Pending(r0, limits, r)
  }

  lemma StandingMore(r0: TimerRec, limits: seq<nat>, r: TimerRec, r': TimerRec, limit: nat)
    requires Standing(r0, limits, r) && Turned(r, r', limit)
    ensures var more := limits + [limit];
            Standing(r0, more, r') && (Due(r, limit) <==> Fires(r0, more, |limits|))
  {
    hide DueIn, Pending, Turned, FiresOnce;
    var more, step := limits + [limit], r0.timeout * 1000;
    FiresSame(r0, limits, more, |limits|);
    if Over(r0, limits, |limits|) {
      assert Turned(r, r', limit) ==> r' == r by {
        NotDue(r, r', limit);
      }
      assert |more| - 1 == |limits|;
    } else {
      OneMore(r0, limits, r, r', limit);
    }
  }

  lemma NotDue(r: TimerRec, r': TimerRec, limit: nat)
    requires r.destroy
    ensures Turned(r, r', limit) ==> r' == r
  {
  }

  lemma StandingFirst(r: TimerRec)
    requires !r.destroy && r.repeat <= INFINITE
    ensures Standing(r, [], r)
  {
    assert Unreached(r.next, r.timeout * 1000, [], 0) && r.next == Point(r.next, r.timeout * 1000, 0);
  }

  /** The fields that a pass looks at. */
  predicate Alike(a: TimerRec, b: TimerRec) {
    a.next == b.next && a.timeout == b.timeout && a.repeat == b.repeat && a.destroy == b.destroy
  }

  lemma StandingAlike(r0: TimerRec, limits: seq<nat>, a: TimerRec, b: TimerRec)
    requires Standing(r0, limits, a) && Alike(a, b)
    ensures Standing(r0, limits, b)
  {
  }

  /** One pass in the life of a timer: the record at its start and at its end, and whether the timer fired. */
  datatype Turn = Turn(limit: nat, before: TimerRec, fired: bool, after: TimerRec)

  function Limits(turns: seq<Turn>): (l: seq<nat>)
    ensures |l| == |turns|
  {
    seq(|turns|, i requires 0 <= i < |turns| => turns[i].limit)
  }

  /** The life of a timer that is neither reset nor deleted; in between, its callback may run, and anything may
      happen to other timers. */
  ghost predicate Lived(r0: TimerRec, turns: seq<Turn>) {
    forall i :: 0 <= i < |turns| ==> LivedAt(r0, turns, i)
  }

  ghost predicate LivedAt(r0: TimerRec, turns: seq<Turn>, i: nat)
    requires i < |turns|
  {
    && Alike(if i == 0 then r0 else turns[i - 1].after, turns[i].before)
    && turns[i].fired == Due(turns[i].before, turns[i].limit)
    && Turned(turns[i].before, turns[i].after, turns[i].limit)
  }

  lemma LivedBefore(r0: TimerRec, turns: seq<Turn>)
    requires turns != [] && Lived(r0, turns)
    ensures var n := |turns| - 1;
            Lived(r0, turns[..n]) && Limits(turns) == Limits(turns[..n]) + [turns[n].limit]
  {
    hide Alike, Turned, Due;
    var most := turns[..|turns| - 1];
    forall i | 0 <= i < |most|
      ensures LivedAt(r0, most, i)
    {
      assert LivedAt(r0, turns, i);
    }
  }

  /** A timer started with `repeat` repetitions fires in exactly its first `repeat` due passes, and is destroyed
      by the last of them; one that is to be repeated without end fires in every due pass and never is. */
  lemma {:induction false} Lifetime(r0: TimerRec, turns: seq<Turn>)
    requires !r0.destroy && r0.repeat <= INFINITE && Lived(r0, turns)
    ensures forall i :: 0 <= i < |turns| ==>
        && (turns[i].fired <==> Fires(r0, Limits(turns), i))
        && (turns[i].after.destroy <==> Over(r0, Limits(turns), i + 1))
    ensures turns != [] ==> Standing(r0, Limits(turns), turns[|turns| - 1].after)
  {
    hide Due, Turned, Alike, Standing, Fires, Over;
    if turns != [] {
      var n := |turns| - 1;
      var most, last := turns[..n], turns[n];
      var before, all := Limits(most), Limits(turns);
      assert LivedAt(r0, turns, n);
      LivedBefore(r0, turns);
      Lifetime(r0, most);
      var r := if n == 0 then r0 else turns[n - 1].after;
      if n == 0 {
        StandingFirst(r0);
        assert before == [];
      }
      StandingAlike(r0, before, r, last.before);
      StandingMore(r0, before, last.before, last.after, last.limit);
      DestroyedWhenOver(r0, all, last.after);
      forall i | 0 <= i < n
        ensures Fires(r0, before, i) == Fires(r0, all, i) && Over(r0, before, i + 1) == Over(r0, all, i + 1)
      {
        FiresSame(r0, before, all, i);
        FiresSame(r0, before, all, i + 1);
      }
    }
  }

  lemma DestroyedWhenOver(r0: TimerRec, limits: seq<nat>, r: TimerRec)
    requires Standing(r0, limits, r)
    ensures r.destroy <==> Over(r0, limits, |limits|)
  {
  }

  // ---------------------------------------------------------------- all timers of a loop

  /** In the loop: used up and freed, or still scheduled. */
  ghost predicate InLoop(r0: TimerRec, limits: seq<nat>, recs: Recs, t: HeapNode) {
    if Over(r0, limits, |limits|) then t !in recs else t in recs && Pending(r0, limits, recs[t])
  }

  /** One pass and the dispatch behind it, for one timer. */
  lemma InLoopMore(r0: TimerRec, limits: seq<nat>, recs: Recs, recs1: Recs, list: seq<HeapNode>, t: HeapNode,
          limit: nat)
    requires InLoop(r0, limits, recs, t) && recs1.Keys == recs.Keys && (t in recs ==> Turned(recs[t], recs1[t], limit))
    requires forall x :: x in recs1 && recs1[x].pending ==> x in list
    ensures InLoop(r0, limits + [limit], Dispatched(recs1, list), t)
    ensures t in recs && Due(recs[t], limit) <==> Fires(r0, limits + [limit], |limits|)
  {
    hide Over, Pending, Turned, DueIn;
    var more := limits + [limit];
    if t in recs {
      StandingMore(r0, limits, recs[t], recs1[t], limit);
      Ends(recs[t], recs1[t], limit);
      if !Over(r0, more, |more|) {
        DestroyedWhenOver(r0, more, recs1[t]);
        StandingAlike(r0, more, recs1[t], recs1[t].(pending := false));
      } else {
        DestroyedWhenOver(r0, limits, recs[t]);
      }
    } else {
      FiresSame(r0, limits, more, |limits|);
      StaysOver(r0, limits, limit);
    }
  }

  lemma StaysOver(r0: TimerRec, limits: seq<nat>, limit: nat)
    requires Over(r0, limits, |limits|)
    ensures Over(r0, limits + [limit], |limits| + 1)
  {
    hide DueIn;
    FiresSame(r0, limits, limits + [limit], |limits|);
  }

  /** A timer that a pass destroys is pending. */
  lemma Ends(r: TimerRec, r': TimerRec, limit: nat)
    requires Turned(r, r', limit)
    ensures r'.destroy && !r.destroy ==> r'.pending
  {
  }

  /** Every timer that was scheduled. */
  ghost predicate AllInLoop(recs0: Recs, limits: seq<nat>, recs: Recs) {
    forall t :: t in recs0 && !recs0[t].destroy ==> InLoop(recs0[t], limits, recs, t)
  }

  /** What has fired in the passes so far is what should have. */
  ghost predicate History(recs0: Recs, limits: seq<nat>, fired: seq<seq<HeapNode>>) {
    |fired| <= |limits| && forall h :: 0 <= h < |fired| ==> FiredIn(recs0, limits, h, fired[h])
  }

  ghost predicate FiredIn(recs0: Recs, limits: seq<nat>, i: nat, fired: seq<HeapNode>) {
    forall t :: t in recs0 && !recs0[t].destroy ==> (t in fired <==> Fires(recs0[t], limits, i))
  }

  lemma AllFirst(recs: Recs)
    requires forall t :: t in recs ==> recs[t].repeat <= INFINITE
    ensures AllInLoop(recs, [], recs)
  {
    forall t | t in recs && !recs[t].destroy
      ensures InLoop(recs[t], [], recs, t)
    {
      StandingFirst(recs[t]);
    }
  }

  lemma AllMore(recs0: Recs, limits: seq<nat>, i: nat, recs: Recs, recs1: Recs, list: seq<HeapNode>,
          fired: seq<HeapNode>)
    requires i < |limits| && AllInLoop(recs0, limits[..i], recs) && recs1.Keys == recs.Keys
    requires forall t :: t in recs ==> Turned(recs[t], recs1[t], limits[i])
    requires forall t :: t in fired <==> t in recs && Due(recs[t], limits[i])
    requires forall t :: t in recs1 && recs1[t].pending ==> t in list
    ensures AllInLoop(recs0, limits[..i + 1], Dispatched(recs1, list)) && FiredIn(recs0, limits, i, fired)
  {
    hide Fires, InLoop, Turned, Dispatched, Due, Over;
    var before, more := limits[..i], limits[..i + 1];
    assert more == before + [limits[i]];
    forall t | t in recs0 && !recs0[t].destroy
      ensures InLoop(recs0[t], more, Dispatched(recs1, list), t) && (t in fired <==> Fires(recs0[t], limits, i))
    {
      InLoopMore(recs0[t], before, recs, recs1, list, t, limits[i]);
      FiresSame(recs0[t], more, limits, i);
    }
  }

  /** One pass and the dispatch behind it. */
  method Round(loop: Loop, limit: nat)
    returns (ghost fired: seq<HeapNode>, ghost recs: Recs, ghost list: seq<HeapNode>)
    requires loop.Valid() && loop.pendings == []
    modifies loop, loop.timers, loop.all
    ensures loop.Valid() && loop.pendings == [] && loop.timers == old(loop.timers) && loop.all <= old(loop.all)
    ensures recs.Keys == old(loop.View()).Keys && loop.View() == Dispatched(recs, list)
    ensures forall t :: t in recs ==> Turned(old(loop.View())[t], recs[t], limit)
    ensures forall t :: t in fired <==> t in recs && Due(old(loop.View())[t], limit)
    ensures forall t :: t in recs && recs[t].pending ==> t in list
  {
    hide Turned, Dispatched, After, Pushed, H.Heap.Valid, InTurn, Due;
    var n, ncbs;
    ghost var ran;
    n, fired := loop.ProcessTimers(limit);
    recs, list := loop.View(), loop.pendings;
    ncbs, ran := loop.ProcessPendings();
  }

  /** Passes of an event loop, each with the dispatch behind it: every timer that was scheduled fires in exactly
      the passes in which it should, is freed with its last firing, and is otherwise scheduled for the first
      point that no pass has reached. */
  method RunPasses(loop: Loop, limits: seq<nat>) returns (ghost fired: seq<seq<HeapNode>>)
    requires loop.Valid() && loop.pendings == [] && forall t :: t in loop.View() ==> loop.View()[t].repeat <= INFINITE
    modifies loop, loop.timers, loop.all
    ensures loop.Valid() && loop.pendings == []
    ensures |fired| == |limits| && History(old(loop.View()), limits, fired)
    ensures AllInLoop(old(loop.View()), limits, loop.View())
  {
    hide FiredIn, AllInLoop, Turned, Dispatched, Loop.Valid, Due;
    ghost var recs0 := loop.View();
    fired := [];
    var i := 0;
    AllFirst(recs0);
    assert limits[..0] == [];
    while i < |limits|
      invariant i <= |limits| && |fired| == i && loop.Valid() && loop.pendings == []
      invariant loop.timers == old(loop.timers) && loop.all <= old(loop.all)
      invariant History(recs0, limits, fired) && AllInLoop(recs0, limits[..i], loop.View())
    {
      ghost var recs := loop.View();
      ghost var f, recs1, list;
      f, recs1, list := Round(loop, limits[i]);
      AllMore(recs0, limits, i, recs, recs1, list, f);
      fired := fired + [f];
      i := i + 1;
    }
    assert limits[..i] == limits;
  }
}
