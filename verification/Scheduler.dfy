/** The non-SMP scheduler as atomic steps, with the best priority found by a plain search. */
module SchedulerSpec {
  import opened Bitmap
  import opened IpcList
  import opened Lists

  const LEVELS: nat := 32

  /** The part of `stat` under RT_THREAD_STAT_MASK. */
  datatype Stat = Init | Ready | Suspended | Running | Closed

  /** `yielded` is RT_THREAD_STAT_YIELD: the time slice has been reloaded since the thread last gave way. */
  datatype Thread = Thread(stat: Stat, yielded: bool, priority: nat, initTick: nat, remainingTick: nat)

  /** The priority lists, the running thread, all threads, and the depth of rt_enter_critical. */
  datatype Sched = Sched(ready: seq<seq<Tid>>, current: Tid, threads: seq<Thread>, lockNest: nat)

  predicate Shape(s: Sched) {
    && |s.ready| == LEVELS && s.current < |s.threads|
    && forall t :: 0 <= t < |s.threads| ==> s.threads[t].priority < LEVELS
  }

  /** Every listed thread is READY and in the list of its priority, once. */
  ghost predicate Listed(s: Sched)
    requires Shape(s)
  {
    forall p :: 0 <= p < LEVELS ==>
      Distinct(s.ready[p]) && forall t :: t in s.ready[p] ==> t < |s.threads| && s.threads[t].priority == p && s.threads[t].stat == Ready
  }

  ghost predicate Inv(s: Sched) {
    && Shape(s) && Listed(s)
    && (forall t: Tid :: t < |s.threads| && s.threads[t].stat == Ready ==> t in s.ready[s.threads[t].priority])
    && (forall t: Tid :: t < |s.threads| && s.threads[t].stat == Running ==> t == s.current)
    && s.threads[s.current].stat != Ready && s.threads[s.current].stat != Init
    && (forall t :: 0 <= t < |s.threads| ==> 0 < s.threads[t].remainingTick <= s.threads[t].initTick)
  }

  function SetStat(s: Sched, t: Tid, stat: Stat): Sched
    requires t < |s.threads|
  {
    s.(threads := s.threads[t := s.threads[t].(stat := stat)])
  }

  /** rt_schedule_insert_thread. */
  function Insert(s: Sched, t: Tid): Sched
    requires Shape(s) && t < |s.threads|
  {
    if t == s.current then SetStat(s, t, Running) else
    var p := s.threads[t].priority;
    SetStat(s, t, Ready).(ready := s.ready[p := s.ready[p] + [t]])
  }

  /** rt_schedule_remove_thread. */
  function Remove(s: Sched, t: Tid): Sched
    requires Shape(s) && t < |s.threads|
  {
    var p := s.threads[t].priority;
    s.(ready := s.ready[p := Without(s.ready[p], t)])
  }

  /** rt_thread_suspend: only the running thread or a ready one. */
  function Suspend(s: Sched, t: Tid): Sched
    requires Shape(s) && t < |s.threads|
  {
    if s.threads[t].stat != Ready && s.threads[t].stat != Running then s
    else SetStat(Remove(s, t), t, Suspended)
  }

  /** rt_thread_resume. */
  function Resume(s: Sched, t: Tid): Sched
    requires Shape(s) && t < |s.threads|
  {
    if s.threads[t].stat != Suspended then s else Insert(s, t)
  }

  /** rt_thread_control(RT_THREAD_CTRL_CHANGE_PRIORITY). */
  function ChangePriority(s: Sched, t: Tid, p: nat): Sched
    requires Shape(s) && t < |s.threads| && p < LEVELS
  {
    if s.threads[t].stat == Ready then
      var s := Remove(s, t);
      Insert(s.(threads := s.threads[t := s.threads[t].(priority := p)]), t)
    else s.(threads := s.threads[t := s.threads[t].(priority := p)])
  }

  /** The running thread goes on. */
  predicate Stays(s: Sched)
    requires Shape(s)
  {
    var c, p := s.threads[s.current], Best(s.ready);
    c.stat == Running && (c.priority < p || (c.priority == p && !c.yielded))
  }

  /** rt_schedule. */
  function Schedule(s: Sched): Sched
    requires Shape(s)
    requires Best(s.ready) < LEVELS ==> s.ready[Best(s.ready)][0] < |s.threads|
  {
    var p := Best(s.ready);
    if s.lockNest != 0 || p == LEVELS || Stays(s) then s else
    var from, to := s.current, s.ready[p][0];
    var c := s.threads[from];
    var s :=
      if c.stat != Running then s.(current := to)
      else Insert(s.(current := to, threads := s.threads[from := c.(yielded := false)]), from);
    SetStat(Remove(s, to), to, Running)
  }

  function EnterCritical(s: Sched): Sched {
    s.(lockNest := s.lockNest + 1)
  }

  /** rt_exit_critical: the last exit schedules. */
  function ExitCritical(s: Sched): Sched
    requires Inv(s)
  {
    if s.lockNest > 1 then s.(lockNest := s.lockNest - 1)
    else
      HeadListed(s);
      Schedule(s.(lockNest := 0))
  }

  /** rt_tick_increase up to the timer check. */
  function Tick(s: Sched): Sched
    requires Inv(s)
  {
    var c := s.threads[s.current];
    if c.remainingTick > 1 then s.(threads := s.threads[s.current := c.(remainingTick := c.remainingTick - 1)])
    else
      HeadListed(s);
      Schedule(s.(threads := s.threads[s.current := c.(remainingTick := c.initTick, yielded := true)]))
  }

  // ---- every operation keeps the invariant ----

  /** The first thread of the best list is ready and is not the running one. */
  lemma HeadListed(s: Sched)
    requires Inv(s)
    ensures Best(s.ready) < LEVELS ==>
      var p := Best(s.ready);
      var t := s.ready[p][0];
      t < |s.threads| && t in s.ready[p] && s.threads[t].priority == p && s.threads[t].stat == Ready && t != s.current
  {
    var p := Best(s.ready);
    if p < LEVELS {
      assert s.ready[p][0] in s.ready[p];
    }
  }

  lemma AppendDistinct(q: seq<Tid>, t: Tid)
    requires Distinct(q) && t !in q
    ensures Distinct(q + [t]) && forall x :: x in q + [t] <==> x in q || x == t
  {
  }

  /** A thread that is in no list and becomes ready joins the list of its priority. */
  lemma InsertKeeps(s: Sched, t: Tid)
    requires Inv(s) && t < |s.threads| && s.threads[t].stat != Ready
    ensures Inv(Insert(s, t))
  {
    var p := s.threads[t].priority;
    assert t !in s.ready[p];
    AppendDistinct(s.ready[p], t);
    hide Distinct;
  }

  /** A thread that leaves its list for good. */
  lemma RemoveKeeps(s: Sched, t: Tid, stat: Stat)
    requires Inv(s) && t < |s.threads| && s.threads[t].stat == Ready && stat != Ready && stat != Running
    ensures Inv(SetStat(Remove(s, t), t, stat))
  {
    var p := s.threads[t].priority;
    WithoutMembers(s.ready[p], t);
    hide Distinct, Without;
  }

  /** With nobody running, a thread that is in no list takes the processor. */
  lemma BecomesCurrent(s: Sched, t: Tid)
    requires Inv(s) && t < |s.threads| && s.threads[t].stat != Ready && s.threads[s.current].stat != Running
    ensures Inv(SetStat(s.(current := t), t, Running))
  {
  }

  lemma StopKeeps(s: Sched)
    requires Inv(s)
    ensures Inv(s.(threads := s.threads[s.current := s.threads[s.current].(stat := Suspended, yielded := false)]))
  {
  }

  lemma {:induction false} WithoutAppend(q: seq<Tid>, x: Tid, t: Tid)
    requires x in q
    ensures Without(q + [t], x) == Without(q, x) + [t]
  {
    assert (q + [t])[1..] == q[1..] + [t];
    if q[0] != x {
      WithoutAppend(q[1..], x, t);
      assert Without(q + [t], x) == [q[0]] + (Without(q[1..], x) + [t]);
    }
  }

  /** Taking the next thread out first and listing the old one last comes to the same. */
  lemma SwitchOrder(s: Sched, from: Tid, to: Tid)
    requires Inv(s) && from == s.current && to < |s.threads| && s.threads[to].stat == Ready && s.threads[from].stat == Running
    requires to in s.ready[s.threads[to].priority]
    ensures
      var out := SetStat(Remove(s, to), to, Suspended);
      var stopped := out.(threads := out.threads[from := out.threads[from].(stat := Suspended, yielded := false)]);
      var in_ := Insert(s.(current := to, threads := s.threads[from := s.threads[from].(yielded := false)]), from);
      Insert(SetStat(stopped.(current := to), to, Running), from) == SetStat(Remove(in_, to), to, Running)
  {
    var p, q := s.threads[to].priority, s.threads[from].priority;
    if p == q {
      WithoutAppend(s.ready[p], to, from);
    }
    var out := SetStat(Remove(s, to), to, Suspended);
    var stopped := out.(threads := out.threads[from := out.threads[from].(stat := Suspended, yielded := false)]);
    var in_ := Insert(s.(current := to, threads := s.threads[from := s.threads[from].(yielded := false)]), from);
    var a := Insert(SetStat(stopped.(current := to), to, Running), from);
    var b := SetStat(Remove(in_, to), to, Running);
    hide Without;
    assert a.threads == b.threads;
    assert a.ready == b.ready;
  }

  lemma ScheduleKeeps(s: Sched)
    requires Inv(s)
    requires Best(s.ready) < LEVELS ==> s.ready[Best(s.ready)][0] < |s.threads|
    ensures Inv(Schedule(s))
  {
    HeadListed(s);
    var p := Best(s.ready);
    if !(s.lockNest != 0 || p == LEVELS || Stays(s)) {
      var from, to := s.current, s.ready[p][0];
      var out := SetStat(Remove(s, to), to, Suspended);
      RemoveKeeps(s, to, Suspended);
      if s.threads[from].stat == Running {
        var stopped := out.(threads := out.threads[from := out.threads[from].(stat := Suspended, yielded := false)]);
        StopKeeps(out);
        BecomesCurrent(stopped, to);
        InsertKeeps(SetStat(stopped.(current := to), to, Running), from);
        SwitchOrder(s, from, to);
      } else {
        BecomesCurrent(out, to);
        var done := SetStat(out.(current := to), to, Running);
        assert done.threads == Schedule(s).threads;
      }
    }
  }

  lemma ChangeKeeps(s: Sched, t: Tid, p: nat)
    requires Inv(s) && t < |s.threads| && p < LEVELS
    ensures Inv(ChangePriority(s, t, p))
  {
    if s.threads[t].stat == Ready {
      RemoveKeeps(s, t, Suspended);
      var out := SetStat(Remove(s, t), t, Suspended);
      PriorityKeeps(out, t, p);
      var moved := out.(threads := out.threads[t := out.threads[t].(priority := p)]);
      InsertKeeps(moved, t);
      hide Without;
      assert Insert(moved, t).threads == ChangePriority(s, t, p).threads;
    } else {
      PriorityKeeps(s, t, p);
    }
  }

  lemma PriorityKeeps(s: Sched, t: Tid, p: nat)
    requires Inv(s) && t < |s.threads| && p < LEVELS && s.threads[t].stat != Ready
    ensures Inv(s.(threads := s.threads[t := s.threads[t].(priority := p)]))
  {
  }

  /** Listing, priorities and statuses are not touched by ticks and locks. */
  lemma TicksKeep(s: Sched, remaining: nat, yielded: bool, lockNest: nat)
    requires Inv(s) && 0 < remaining <= s.threads[s.current].initTick
    ensures Inv(s.(threads := s.threads[s.current := s.threads[s.current].(remainingTick := remaining, yielded := yielded)], lockNest := lockNest))
  {
  }

  lemma SuspendKeeps(s: Sched, t: Tid)
    requires Inv(s) && t < |s.threads|
    ensures Inv(Suspend(s, t))
  {
    if s.threads[t].stat == Ready {
      RemoveKeeps(s, t, Suspended);
    } else if s.threads[t].stat == Running {
      var p := s.threads[t].priority;
      WithoutAbsent(s.ready[p], t);
      assert s.ready[p := s.ready[p]] == s.ready;
      hide Without;
    }
  }

  // ---- runs ----

  datatype Op =
    | DoStartup(t: Tid) | DoSuspend(t: Tid) | DoResume(t: Tid) | DoChange(t: Tid, p: nat)
    | DoSchedule | DoEnter | DoExit | DoTick

  /** rt_thread_startup: from the initial status through suspended to ready. */
  function Startup(s: Sched, t: Tid): Sched
    requires Shape(s) && t < |s.threads|
  {
    if s.threads[t].stat != Init then s else Resume(SetStat(s, t, Suspended), t)
  }

  predicate Allowed(s: Sched, op: Op) {
    match op
    case DoStartup(t) => t < |s.threads|
    case DoSuspend(t) => t < |s.threads|
    case DoResume(t) => t < |s.threads|
    case DoChange(t, p) => t < |s.threads| && p < LEVELS
    case _ => true
  }

  function Step(s: Sched, op: Op): Sched
    requires Inv(s)
  {
    if !Allowed(s, op) then s else
    match op
    case DoStartup(t) => Startup(s, t)
    case DoSuspend(t) => Suspend(s, t)
    case DoResume(t) => Resume(s, t)
    case DoChange(t, p) => ChangePriority(s, t, p)
    case DoSchedule => HeadListed(s); Schedule(s)
    case DoEnter => EnterCritical(s)
    case DoExit => ExitCritical(s)
    case DoTick => Tick(s)
  }

  lemma LockKeeps(s: Sched, lockNest: nat)
    requires Inv(s)
    ensures Inv(s.(lockNest := lockNest))
  {
  }

  lemma TickKeeps(s: Sched)
    requires Inv(s)
    ensures Inv(Tick(s))
  {
    var c := s.threads[s.current];
    if c.remainingTick > 1 {
      TicksKeep(s, c.remainingTick - 1, c.yielded, s.lockNest);
    } else {
      TicksKeep(s, c.initTick, true, s.lockNest);
      HeadListed(s);
      ScheduleKeeps(s.(threads := s.threads[s.current := c.(remainingTick := c.initTick, yielded := true)]));
    }
  }

  lemma StepInv(s: Sched, op: Op)
    requires Inv(s)
    ensures Inv(Step(s, op))
  {
    if Allowed(s, op) {
      match op
      case DoStartup(t) =>
        if s.threads[t].stat == Init {
          PriorityKeepsStat(s, t);
          InsertKeeps(SetStat(s, t, Suspended), t);
        }
      case DoSuspend(t) => SuspendKeeps(s, t);
      case DoResume(t) =>
        if s.threads[t].stat == Suspended {
          InsertKeeps(s, t);
        }
      case DoChange(t, p) => ChangeKeeps(s, t, p);
      case DoSchedule =>
        HeadListed(s);
        ScheduleKeeps(s);
      case DoEnter => LockKeeps(s, s.lockNest + 1);
      case DoExit =>
        LockKeeps(s, 0);
        if s.lockNest > 1 {
          LockKeeps(s, s.lockNest - 1);
        } else {
          HeadListed(s);
          ScheduleKeeps(s.(lockNest := 0));
        }
      case DoTick => TickKeeps(s);
    }
  }

  lemma PriorityKeepsStat(s: Sched, t: Tid)
    requires Inv(s) && t < |s.threads| && s.threads[t].stat == Init
    ensures Inv(SetStat(s, t, Suspended))
  {
  }

  /** The state after a run: every READY thread is in exactly the list of its priority, and the
      running thread in none. */
  function Run(s: Sched, ops: seq<Op>): (r: Sched)
    requires Inv(s)
    ensures Inv(r)
    decreases |ops|
  {
    if ops == [] then s else
    StepInv(s, ops[0]);
    Run(Step(s, ops[0]), ops[1..])
  }

  // ---- the best thread runs ----

  ghost predicate Outranked(s: Sched, t: Tid)
    requires Shape(s)
  {
    t < |s.threads| && s.threads[t].stat == Ready && s.threads[t].priority < s.threads[s.current].priority
  }

  /** A ready thread is no better than the best list. */
  lemma ReadyBelowBest(s: Sched, t: Tid)
    requires Inv(s) && t < |s.threads| && s.threads[t].stat == Ready
    ensures Best(s.ready) <= s.threads[t].priority
  {
    assert t in s.ready[s.threads[t].priority];
  }

  /** After an unlocked schedule with a thread ready, the current thread runs and no ready thread outranks it. */
  lemma BestRuns(s: Sched)
    requires Inv(s) && s.lockNest == 0 && Best(s.ready) < LEVELS
    ensures Inv(Step(s, DoSchedule))
    ensures var r := Step(s, DoSchedule); r.threads[r.current].stat == Running && forall t :: !Outranked(r, t)
  {
    HeadListed(s);
    StepInv(s, DoSchedule);
    var r := Schedule(s);
    hide Inv;
    forall t
      ensures !Outranked(r, t)
    {
      if Outranked(r, t) {
        Outranks(s, r, t);
        assert false;
      }
    }
  }

  lemma Outranks(s: Sched, r: Sched, t: Tid)
    requires Inv(s) && s.lockNest == 0 && Best(s.ready) < LEVELS && s.ready[Best(s.ready)][0] < |s.threads| && r == Schedule(s)
    ensures Inv(r) && !Outranked(r, t)
  {
    ScheduleKeeps(s);
    HeadListed(s);
    if t < |s.threads| && r.threads[t].stat == Ready {
      if s.threads[t].stat == Ready {
        ReadyBelowBest(s, t);
      }
      hide Inv, Without;
    }
  }

  /** The running thread gives way exactly to a better ready thread, or, once its time slice is
      used up, to an equal one.  In particular rt_thread_yield, which only schedules, does not
      give way to equals before that. */
  lemma GivesWay(s: Sched)
    requires Inv(s) && s.lockNest == 0 && s.threads[s.current].stat == Running
    ensures Step(s, DoSchedule).current != s.current <==>
      exists t: Tid :: Outranked(s, t) || (s.threads[s.current].yielded && t < |s.threads| && s.threads[t].stat == Ready
                                     && s.threads[t].priority == s.threads[s.current].priority)
  {
    HeadListed(s);
    var p := Best(s.ready);
    if p < LEVELS {
      var t := s.ready[p][0];
      if s.threads[t].priority < s.threads[s.current].priority {
        assert Outranked(s, t);
      }
    }
    forall t: Tid | t < |s.threads| && s.threads[t].stat == Ready
      ensures p <= s.threads[t].priority
    {
      ReadyBelowBest(s, t);
    }
  }

  /** Two threads of one priority, of which the first runs and has ticks left. */
  function TwoEquals(): Sched {
    var r := Thread(Running, false, 0, 10, 5);
    Sched(seq(LEVELS, p => if p == 0 then [1] else []), 0, [r, r.(stat := Ready)], 0)
  }

  /** rt_thread_yield keeps the processor although a thread of the same priority is ready. */
  lemma YieldExample()
    ensures Inv(TwoEquals()) && Step(TwoEquals(), DoSchedule).current == 0
  {
    var s := TwoEquals();
    assert s.ready[0] == [1] && 1 in s.ready[0];
    assert !exists t: Tid :: Outranked(s, t);
    GivesWay(s);
  }

  // ---- round robin ----

  /** The running thread shares the best priority with ready threads, and the scheduler is unlocked. */
  ghost predicate Sharing(s: Sched) {
    Inv(s) && s.lockNest == 0 && s.threads[s.current].stat == Running && Best(s.ready) == s.threads[s.current].priority
  }

  /** The running thread and then the threads that share its priority, in order. */
  function Ring(s: Sched): (r: seq<Tid>)
    requires Shape(s)
  {
    [s.current] + s.ready[s.threads[s.current].priority]
  }

  lemma InRing(s: Sched, k: nat)
    requires Inv(s) && k < |Ring(s)|
    ensures Ring(s)[k] < |s.threads| && (0 < k ==> Ring(s)[k] != s.current)
  {
    if k > 0 {
      assert Ring(s)[k] in s.ready[s.threads[s.current].priority];
    }
  }

  /** The ticks that the first `k` threads of the ring have left. */
  ghost function Due(s: Sched, k: nat): nat
    requires Inv(s) && k <= |Ring(s)|
  {
    if k == 0 then 0 else InRing(s, k - 1); Due(s, k - 1) + s.threads[Ring(s)[k-1]].remainingTick
  }

  /** The ticks of the full slices of the first `k` threads. */
  ghost function Slices(s: Sched, k: nat): nat
    requires Inv(s) && k <= |Ring(s)|
  {
    if k == 0 then 0 else InRing(s, k - 1); Slices(s, k - 1) + s.threads[Ring(s)[k-1]].initTick
  }

  /** The state after `n` ticks and nothing else. */
  function Ticks(s: Sched, n: nat): (r: Sched)
    requires Inv(s)
    ensures Inv(r)
    decreases n
  {
    if n == 0 then s else
    TickKeeps(s);
    Ticks(Tick(s), n - 1)
  }

  lemma {:induction false} TicksAdd(s: Sched, a: nat, b: nat)
    requires Inv(s)
    ensures Ticks(s, a + b) == Ticks(Ticks(s, a), b)
    decreases a
  {
    hide Inv, Tick;
    if a > 0 {
      TickKeeps(s);
      TicksAdd(Tick(s), a - 1, b);
    }
  }

  /** A tick that does not end the slice. */
  lemma SliceGoesOn(s: Sched)
    requires Sharing(s) && s.threads[s.current].remainingTick > 1
    ensures Sharing(Tick(s)) && Ring(Tick(s)) == Ring(s)
    ensures var c := s.threads[s.current];
      Tick(s).threads == s.threads[s.current := c.(remainingTick := c.remainingTick - 1)]
  {
    TickKeeps(s);
  }

  /** Of the slices, only that of `t` has changed, and it is a full one. */
  ghost predicate Reloaded(s: Sched, t: Tid, r: Sched) {
    && |r.threads| == |s.threads| && (forall x :: 0 <= x < |s.threads| ==> r.threads[x].initTick == s.threads[x].initTick)
    && (t < |s.threads| ==> r.threads[t].remainingTick == s.threads[t].initTick)
    && forall x :: 0 <= x < |s.threads| && x != t ==> r.threads[x].remainingTick == s.threads[x].remainingTick
  }

  /** A tick that ends the slice turns the ring by one, and the thread that gives way has a full slice again. */
  lemma SliceEnds(s: Sched)
    requires Sharing(s) && s.threads[s.current].remainingTick == 1
    ensures Sharing(Tick(s)) && Ring(Tick(s)) == Ring(s)[1..] + [s.current]
    ensures Reloaded(s, s.current, Tick(s))
  {
    TickKeeps(s);
    HeadListed(s);
    var p := s.threads[s.current].priority;
    var to := s.ready[p][0];
    var r := Tick(s);
    assert (s.ready[p] + [s.current])[0] == to;
    assert Without(s.ready[p] + [s.current], to) == (s.ready[p] + [s.current])[1..];
    assert r.ready[p] == s.ready[p][1..] + [s.current];
    BestUnique(r.ready, p);
    assert r.current == to && r.threads[to].priority == p;
  }

  /** The running thread uses up what is left of its slice. */
  lemma {:induction false} SliceUsedUp(s: Sched, n: nat)
    requires Sharing(s) && n == s.threads[s.current].remainingTick
    ensures var r := Ticks(s, n); Sharing(r) && Ring(r) == Ring(s)[1..] + [s.current] && Reloaded(s, s.current, r)
    decreases n
  {
    hide Sharing, Tick;
    SharingPositive(s);
    TickKeeps(s);
    if n == 1 {
      SliceEnds(s);
      assert Ticks(s, 1) == Ticks(Tick(s), 0);
    } else {
      SliceGoesOn(s);
      SliceUsedUp(Tick(s), n - 1);
    }
  }

  lemma SharingPositive(s: Sched)
    requires Sharing(s)
    ensures Inv(s) && s.threads[s.current].remainingTick > 0
  {
  }

  /** What is due ahead of a thread goes on with what is due after the first slice. */
  lemma {:induction false} DueTurns(s: Sched, r: Sched, k: nat)
    requires Inv(s) && Inv(r) && 0 < k <= |Ring(s)| && Ring(r) == Ring(s)[1..] + [s.current] && Reloaded(s, s.current, r)
    ensures Due(s, k) == s.threads[s.current].remainingTick + Due(r, k - 1)
    decreases k
  {
    hide Listed;
    InRing(s, k - 1);
    if k > 1 {
      DueTurns(s, r, k - 1);
      assert Ring(r)[k-2] == Ring(s)[k-1];
    } else {
      assert Ring(s)[0] == s.current;
    }
  }

  /** Round robin: with the ready threads unchanged, the thread at position `k` of the ring runs once
      the ticks left to the `k` threads ahead of it have passed, no more than their full slices. */
  lemma {:induction false} RunsInTurn(s: Sched, k: nat)
    requires Sharing(s) && k < |Ring(s)|
    ensures Inv(s) && Due(s, k) <= Slices(s, k)
    ensures Ticks(s, Due(s, k)).current == Ring(s)[k]
    decreases k
  {
    if k > 0 {
      var n := s.threads[s.current].remainingTick;
      SliceUsedUp(s, n);
      var r := Ticks(s, n);
      DueTurns(s, r, k);
      RunsInTurn(r, k - 1);
      assert Ring(r)[k-1] == Ring(s)[k];
      TicksAdd(s, n, Due(r, k - 1));
    }
    DueWithin(s, k);
  }

  lemma {:induction false} DueWithin(s: Sched, k: nat)
    requires Inv(s) && k <= |Ring(s)|
    ensures Due(s, k) <= Slices(s, k)
  {
    if k > 0 {
      DueWithin(s, k - 1);
      InRing(s, k - 1);
    }
  }
}

/** scheduler.c and rt_tick_increase: the priority table with its bitmap. */
module Scheduler {
  import opened Bitmap
  import opened IpcList
  import opened Lists
  import opened SchedulerSpec
  import T = ReadyTable

  class RtScheduler {
    const table: T.RtReadyTable      // rt_thread_priority_table
    const threads: array<Thread>
    var readyGroup: bv32
    var currentThread: Tid
    var lockNest: nat

    ghost function State(): Sched
      reads this, table, threads
    {
      Sched(table.lists, currentThread, threads[..], lockNest)
    }

    /** The bitmap shows which lists are not empty. */
    ghost predicate Index()
      reads this`readyGroup, table, table.next, table.prev
    {
      table.Valid() && table.count == threads.Length && Agrees(readyGroup, table.lists)
    }

    ghost predicate Valid()
      reads this, table, table.next, table.prev, threads
    {
      Index() && Inv(State())
    }

    /** rt_system_scheduler_init, and rt_system_scheduler_start when `first` is the only thread started. */
    constructor (threads: array<Thread>, first: Tid)
      requires first < threads.Length && threads[first].stat == Running
      requires forall t :: 0 <= t < threads.Length ==> threads[t].priority < LEVELS && 0 < threads[t].remainingTick <= threads[t].initTick
      requires forall t :: 0 <= t < threads.Length && t != first ==> threads[t].stat == Init
      ensures Valid() && this.threads == threads && fresh(table) && fresh(table.next) && fresh(table.prev)
      ensures State() == Sched(seq(LEVELS, i => []), first, threads[..], 0)
    {
      this.threads, currentThread, lockNest, readyGroup := threads, first, 0, 0;
      table := new T.RtReadyTable(threads.Length);
      new;
      forall p: nat | p < 32
        ensures !Holds(0, p)
      {
        ZeroHolds(p);
      }
      hide Holds;
    }

    method InsertThread(thread: Tid)
      requires Index() && Shape(State()) && thread < threads.Length
      requires thread != currentThread ==> T.Unlisted(table.lists, thread)
      modifies this`readyGroup, table, table.next, table.prev, threads
      ensures Index() && State() == Insert(old(State()), thread)
    {
      hide Agrees, T.Rings;
      if thread == currentThread {
        threads[thread] := threads[thread].(stat := Running);
      } else {
        threads[thread] := threads[thread].(stat := Ready);
        var p := threads[thread].priority;
        InsertAgrees(readyGroup, table.lists, p, table.lists[p] + [thread]);
        table.Append(p, thread);
        readyGroup := Mark(readyGroup, p);
      }
    }

    method RemoveThread(thread: Tid)
      requires Index() && Shape(State()) && thread < threads.Length && T.OnlyIn(table.lists, thread, threads[thread].priority)
      modifies this`readyGroup, table, table.next, table.prev
      ensures Index() && State() == Remove(old(State()), thread)
    {
      hide Agrees, T.Rings;
      var p := threads[thread].priority;
      RemoveAgrees(readyGroup, table.lists, p, Without(table.lists[p], thread));
      table.Remove(thread, p);
      var empty := table.IsEmpty(p);
      if empty {
        readyGroup := Unmark(readyGroup, p);
      }
    }

    method SuspendThread(thread: Tid)
      requires Valid() && thread < threads.Length
      modifies this`readyGroup, table, table.next, table.prev, threads
      ensures Valid() && State() == SchedulerSpec.Suspend(old(State()), thread)
    {
      hide Inv, Without, Agrees, Shape;
      SchedulerSpec.SuspendKeeps(State(), thread);
      ShapeOf(State());
      if threads[thread].stat == Ready || threads[thread].stat == Running {
        InOwnList(State(), thread);
        RemoveThread(thread);
        threads[thread] := threads[thread].(stat := Suspended);
      }
    }

    method ResumeThread(thread: Tid)
      requires Valid() && thread < threads.Length
      modifies this`readyGroup, table, table.next, table.prev, threads
      ensures Valid() && State() == Resume(old(State()), thread)
    {
      hide Inv, Agrees, Shape;
      StepInv(State(), DoResume(thread));
      ShapeOf(State());
      if threads[thread].stat == Suspended {
        InNoList(State(), thread);
        InsertThread(thread);
      }
    }

    method ChangePriority(thread: Tid, priority: nat)
      requires Valid() && thread < threads.Length && priority < LEVELS
      modifies this`readyGroup, table, table.next, table.prev, threads
      ensures Valid() && State() == SchedulerSpec.ChangePriority(old(State()), thread, priority)
    {
      hide Inv, Agrees, Without;
      ChangeKeeps(State(), thread, priority);
      ShapeOf(State());
      if threads[thread].stat == Ready {
        InOwnList(State(), thread);
        RemovedInNoList(State(), thread);
        RemoveThread(thread);
        threads[thread] := threads[thread].(priority := priority);
        InsertThread(thread);
      } else {
        threads[thread] := threads[thread].(priority := priority);
      }
    }

    /** rt_schedule once it has decided: `to` takes the processor, the running thread is listed if it is ready. */
    method SwitchTo(to: Tid, needInsert: bool)
      requires Index() && Shape(State()) && to < threads.Length && to != currentThread
      requires T.OnlyIn(table.lists, to, threads[to].priority) && (needInsert ==> T.Unlisted(table.lists, currentThread))
      modifies this`readyGroup, this`currentThread, table, table.next, table.prev, threads
      ensures Index() && State() == Switched(old(State()), to, needInsert)
    {
      hide Agrees, T.Rings, T.OnlyIn, T.Unlisted, Insert, Remove;
      var from := currentThread;
      currentThread := to;
      if needInsert {
        InsertShape(State(), from);
        StillInOwnList(State(), from, to);
        InsertThread(from);
      }
      RemoveThread(to);
      threads[to] := threads[to].(stat := Running);
    }

    /** rt_schedule. */
    method Schedule()
      requires Valid()
      modifies this`readyGroup, this`currentThread, table, table.next, table.prev, threads
      ensures Valid() && State() == Step(old(State()), DoSchedule)
    {
      hide Inv, Agrees, Without, Insert, Remove, Best, Ffs, T.Rings, T.OnlyIn, T.Unlisted;
      ghost var s := State();
      StepInv(s, DoSchedule);
      ShapeOf(s);
      HeadListed(s);
      HighestRight(readyGroup, table.lists);
      if lockNest == 0 && readyGroup != 0 {
        var highest := Ffs(readyGroup) - 1;
        var to := table.First(highest);
        var needInsert := false;
        var from := currentThread;
        var c := threads[from];
        InOwnList(s, to);
        InOwnList(s, from);
        if c.stat == Running {
          InNoList(s, from);
          if c.priority < highest || (c.priority == highest && !c.yielded) {
            to := from;
          } else {
            threads[from] := c.(yielded := false);
            needInsert := true;
          }
        }
        if to != from {
          SwitchTo(to, needInsert);
        } else {
          RunningUnlisted(s);
          RemoveThread(from);
          threads[from] := threads[from].(stat := Running);
        }
      }
    }

    method EnterCritical()
      requires Valid()
      modifies this`lockNest
      ensures Valid() && State() == SchedulerSpec.EnterCritical(old(State()))
    {
      LockKeeps(State(), lockNest + 1);
      lockNest := lockNest + 1;
    }

    method ExitCritical()
      requires Valid()
      modifies this, table, table.next, table.prev, threads
      ensures Valid() && State() == SchedulerSpec.ExitCritical(old(State()))
    {
      hide Inv, Agrees, Shape;
      ghost var s := State();
      StepInv(s, DoExit);
      LockKeeps(s, 0);
      if lockNest > 1 {
        lockNest := lockNest - 1;
      } else {
        lockNest := 0;
        Schedule();
      }
    }

    /** rt_tick_increase: the running thread pays a tick, and at the end of its slice gives way. */
    method TickIncrease()
      requires Valid()
      modifies this, table, table.next, table.prev, threads
      ensures Valid() && State() == Tick(old(State()))
    {
      hide Inv, Agrees;
      ghost var s := State();
      ShapeOf(s);
      TickKeeps(s);
      SlicePositive(s);
      var c := threads[currentThread];
      var thread := currentThread;
      threads[thread] := threads[thread].(remainingTick := c.remainingTick - 1);
      if threads[thread].remainingTick == 0 {
        TicksKeep(s, c.initTick, true, s.lockNest);
        threads[thread] := threads[thread].(remainingTick := c.initTick);
        threads[thread] := threads[thread].(yielded := true);
        assert threads[..] == s.threads[thread := c.(remainingTick := c.initTick, yielded := true)];
        Schedule();
      }
    }
  }

  lemma ShapeOf(s: Sched)
    requires Inv(s)
    ensures Shape(s)
  {
  }

  /** The state after the processor changed hands. */
  ghost function Switched(s: Sched, to: Tid, needInsert: bool): Sched
    requires Shape(s) && to < |s.threads|
  {
    var s1 := s.(current := to);
    SetStat(Remove(if needInsert then Insert(s1, s.current) else s1, to), to, Running)
  }

  /** A thread is in no list but that of its priority. */
  lemma InOwnList(s: Sched, t: Tid)
    requires Inv(s) && t < |s.threads|
    ensures T.OnlyIn(s.ready, t, s.threads[t].priority)
  {
  }

  lemma InNoList(s: Sched, t: Tid)
    requires Inv(s) && t < |s.threads| && s.threads[t].stat != Ready
    ensures T.Unlisted(s.ready, t)
  {
  }

  lemma RemovedInNoList(s: Sched, t: Tid)
    requires Inv(s) && t < |s.threads|
    ensures Shape(s) && T.Unlisted(Remove(s, t).ready, t)
  {
    var p := s.threads[t].priority;
    WithoutMembers(s.ready[p], t);
  }

  lemma StillInOwnList(s: Sched, from: Tid, to: Tid)
    requires Shape(s) && from < |s.threads| && to < |s.threads| && from != to
    requires T.OnlyIn(s.ready, to, s.threads[to].priority)
    ensures to < |Insert(s, from).threads| && T.OnlyIn(Insert(s, from).ready, to, Insert(s, from).threads[to].priority)
  {
  }

  lemma InsertShape(s: Sched, t: Tid)
    requires Shape(s) && t < |s.threads|
    ensures Shape(Insert(s, t)) && |Insert(s, t).threads| == |s.threads|
  {
  }

  lemma SlicePositive(s: Sched)
    requires Inv(s)
    ensures 0 < s.threads[s.current].remainingTick <= s.threads[s.current].initTick
  {
  }

  /** Taking the running thread out of its priority list changes nothing. */
  lemma RunningUnlisted(s: Sched)
    requires Inv(s) && s.threads[s.current].stat == Running
    ensures Remove(s, s.current) == s && SetStat(s, s.current, Running) == s
  {
    var p := s.threads[s.current].priority;
    WithoutAbsent(s.ready[p], s.current);
    assert s.ready[p := s.ready[p]] == s.ready;
  }
}
