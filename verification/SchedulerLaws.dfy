/** What the operations of the scheduler do to the threads, and how equals share the processor over time. */
module SchedulerLaws {
  import opened Bitmap
  import opened IpcList
  import opened Lists
  import opened SchedulerSpec

  // ---- round robin without end ----

  lemma {:induction false} DueMeets(s: Sched, k: nat)
    requires Inv(s) && k <= |Ring(s)|
    requires forall i :: 0 <= i < k ==> Ring(s)[i] < |s.threads| && s.threads[Ring(s)[i]].remainingTick == s.threads[Ring(s)[i]].initTick
    ensures Due(s, k) == Slices(s, k)
  {
    hide Inv, Ring;
    if k > 0 {
      DueMeets(s, k - 1);
    }
  }

  /** The slices themselves are the same. */
  ghost predicate SameSlices(s: Sched, r: Sched) {
    |r.threads| == |s.threads| && forall x :: 0 <= x < |s.threads| ==> r.threads[x].initTick == s.threads[x].initTick
  }

  /** The threads in `q` have full slices, and the others what they had. */
  ghost predicate FullAgain(s: Sched, q: seq<Tid>, r: Sched) {
    && SameSlices(s, r)
    && (forall t :: t in q && t < |s.threads| ==> r.threads[t].remainingTick == s.threads[t].initTick)
    && (forall t: Tid :: t < |s.threads| && t !in q ==> r.threads[t].remainingTick == s.threads[t].remainingTick)
  }

  lemma RingDistinct(s: Sched)
    requires Inv(s)
    ensures Distinct(Ring(s)) && forall t :: t in Ring(s) ==> t < |s.threads|
  {
    var q := s.ready[s.threads[s.current].priority];
    assert forall t :: t in Ring(s) <==> t == s.current || t in q;
  }

  /** Once the first `k` threads of the ring have used up what they had left, they stand at its end with full slices. */
  lemma {:induction false} TurnsBy(s: Sched, k: nat)
    requires Sharing(s) && k <= |Ring(s)|
    ensures Inv(s)
    ensures var r := Ticks(s, Due(s, k)); Sharing(r) && Ring(r) == Ring(s)[k..] + Ring(s)[..k] && FullAgain(s, Ring(s)[..k], r)
    decreases k
  {
    hide Inv, Sharing, Ring, Ticks, Due, FullAgain, Reloaded;
    SharingPositive(s);
    if k == 0 {
      NothingYet(s);
    } else {
      RingHead(s);
      var n := s.threads[s.current].remainingTick;
      SliceUsedUp(s, n);
      var r := Ticks(s, n);
      SharingPositive(r);
      DueTurns(s, r, k);
      TurnsBy(r, k - 1);
      TicksAdd(s, n, Due(r, k - 1));
      RingShift(Ring(s), Ring(r), s.current, k);
      FullShift(s, r, Ticks(s, Due(s, k)), k);
    }
  }

  lemma NothingYet(s: Sched)
    requires Inv(s)
    ensures Due(s, 0) == 0 && Ticks(s, 0) == s && Ring(s)[0..] + Ring(s)[..0] == Ring(s) && FullAgain(s, Ring(s)[..0], s)
  {
    hide Inv;
  }

  lemma RingHead(s: Sched)
    requires Inv(s)
    ensures |Ring(s)| > 0 && Ring(s)[0] == s.current < |s.threads|
  {
  }

  lemma RingShift(a: seq<Tid>, b: seq<Tid>, t: Tid, k: nat)
    requires 0 < k <= |a| && a[0] == t && b == a[1..] + [t]
    ensures b[k-1..] + b[..k-1] == a[k..] + a[..k] && b[..k-1] == a[1..k] && a[..k] == [t] + a[1..k]
  {
    assert b[k-1..] == a[k..] + [t];
  }

  lemma FullShift(s: Sched, r: Sched, q: Sched, k: nat)
    requires Inv(s) && 0 < k <= |Ring(s)| && Reloaded(s, s.current, r) && FullAgain(r, Ring(s)[1..k], q)
    ensures FullAgain(s, Ring(s)[..k], q)
  {
    RingDistinct(s);
    RingHead(s);
    var a := Ring(s);
    assert a[..k] == [s.current] + a[1..k];
    assert s.current !in a[1..k];
    assert forall t :: t in a[1..k] ==> t in a;
    hide Inv, Ring;
  }

  /** Every thread of the ring has its full slice. */
  ghost predicate AllFull(s: Sched)
    requires Shape(s)
  {
    forall t :: t in Ring(s) && t < |s.threads| ==> s.threads[t].remainingTick == s.threads[t].initTick
  }

  lemma {:induction false} SlicesSame(s: Sched, r: Sched, k: nat)
    requires Inv(s) && Inv(r) && Ring(r) == Ring(s) && SameSlices(s, r) && k <= |Ring(s)|
    ensures Slices(r, k) == Slices(s, k)
  {
    hide Ring, Inv;
    if k > 0 {
      InRing(s, k - 1);
      InRing(r, k - 1);
      SlicesSame(s, r, k - 1);
    }
  }

  /** After a full turn the ring is as before, and every thread in it has its full slice. */
  lemma FullTurn(s: Sched)
    requires Sharing(s)
    ensures Inv(s)
    ensures var r := Ticks(s, Due(s, |Ring(s)|)); Sharing(r) && Ring(r) == Ring(s) && AllFull(r) && SameSlices(s, r)
  {
    hide Inv, Sharing, Ticks, Due, Ring, Slices;
    SharingPositive(s);
    TurnsBy(s, |Ring(s)|);
    SharingPositive(Ticks(s, Due(s, |Ring(s)|)));
    RingDistinct(s);
    assert Ring(s)[|Ring(s)|..] + Ring(s)[..|Ring(s)|] == Ring(s);
    assert Ring(s)[..|Ring(s)|] == Ring(s);
  }

  /** With full slices, what is due is the sum of the slices. */
  lemma FullDue(s: Sched, k: nat)
    requires Sharing(s) && AllFull(s) && k <= |Ring(s)|
    ensures Inv(s) && Due(s, k) == Slices(s, k)
  {
    SharingPositive(s);
    RingDistinct(s);
    hide Inv, Ring;
    forall i | 0 <= i < k
      ensures Ring(s)[i] < |s.threads| && s.threads[Ring(s)[i]].remainingTick == s.threads[Ring(s)[i]].initTick
    {
      assert Ring(s)[i] in Ring(s);
    }
    DueMeets(s, k);
  }

  /** From full slices on, every round takes exactly the sum of the slices and ends as it began. */
  lemma {:induction false} Rounds(s: Sched, m: nat)
    requires Sharing(s) && AllFull(s)
    ensures Inv(s)
    ensures var r := Ticks(s, m * Slices(s, |Ring(s)|)); Sharing(r) && Ring(r) == Ring(s) && AllFull(r) && SameSlices(s, r)
    decreases m
  {
    hide Inv, Sharing, AllFull, Ring, Ticks, Slices, Due, SameSlices;
    SharingPositive(s);
    var round := Slices(s, |Ring(s)|);
    if m > 0 {
      FullDue(s, |Ring(s)|);
      FullTurn(s);
      var r := Ticks(s, round);
      SharingPositive(r);
      SlicesSame(s, r, |Ring(s)|);
      Rounds(r, m - 1);
      TicksAdd(s, round, (m - 1) * round);
      OneMore(m, round);
      SlicesThen(s, r, Ticks(s, m * round));
    } else {
      NothingYet(s);
      NothingChanged(s);
    }
  }

  lemma NothingChanged(s: Sched)
    ensures SameSlices(s, s)
  {
  }

  lemma SlicesThen(s: Sched, r: Sched, q: Sched)
    requires SameSlices(s, r) && SameSlices(r, q)
    ensures SameSlices(s, q)
  {
  }

  lemma OneMore(m: nat, round: nat)
    requires m > 0
    ensures m * round == round + (m - 1) * round
  {
  }

  /** A thread keeps the processor until its slice ends. */
  lemma {:induction false} KeepsSlice(s: Sched, j: nat)
    requires Sharing(s) && j < s.threads[s.current].remainingTick
    ensures Inv(s) && Ticks(s, j).current == s.current
    decreases j
  {
    SharingPositive(s);
    if j > 0 {
      SliceGoesOn(s);
      KeepsSlice(Tick(s), j - 1);
    }
    hide Inv;
  }

  /** Round robin over any number of rounds: as long as nobody comes or goes, each thread of the ring gets, in every
      round after the first, the processor for exactly its slice, after the slices of the threads in front of it. */
  lemma RoundRobin(s: Sched, m: nat, k: nat, j: nat)
    requires Sharing(s) && k < |Ring(s)|
    requires Ring(s)[k] < |s.threads| ==> j < s.threads[Ring(s)[k]].initTick
    ensures Inv(s)
    ensures Ticks(s, Due(s, |Ring(s)|) + m * Slices(s, |Ring(s)|) + Slices(s, k) + j).current == Ring(s)[k]
  {
    hide Inv, Sharing, AllFull, Ring, Ticks, Slices, Due, SameSlices;
    SharingPositive(s);
    InRing(s, k);
    var n := |Ring(s)|;
    FullTurn(s);
    var r := Ticks(s, Due(s, n));
    SharingPositive(r);
    SlicesSame(s, r, n);
    SlicesSame(s, r, k);
    Rounds(r, m);
    var q := Ticks(r, m * Slices(s, n));
    SharingPositive(q);
    SlicesSame(r, q, k);
    SlicesAt(s, r, q, Ring(s)[k]);
    InTurn(q, k, j);
    TicksAdd(s, Due(s, n), m * Slices(s, n));
    TicksAdd(s, Due(s, n) + m * Slices(s, n), Slices(s, k) + j);
  }

  lemma SlicesAt(s: Sched, r: Sched, q: Sched, t: Tid)
    requires SameSlices(s, r) && SameSlices(r, q) && t < |s.threads|
    ensures t < |q.threads| && q.threads[t].initTick == s.threads[t].initTick
  {
  }

  lemma InTurn(s: Sched, k: nat, j: nat)
    requires Sharing(s) && AllFull(s) && k < |Ring(s)|
    requires Ring(s)[k] < |s.threads| ==> j < s.threads[Ring(s)[k]].initTick
    ensures Inv(s) && Ticks(s, Slices(s, k) + j).current == Ring(s)[k]
  {
    hide Inv, Sharing, Ring, Ticks, Slices, Due, Reloaded;
    SharingPositive(s);
    RingDistinct(s);
    FullDue(s, k);
    TurnsBy(s, k);
    var r, t := Ticks(s, Slices(s, k)), Ring(s)[k];
    SharingPositive(r);
    RingHead(r);
    assert r.current == t;
    assert t in Ring(s) && t !in Ring(s)[..k];
    KeepsSlice(r, j);
    TicksAdd(s, Slices(s, k), j);
  }

  // ---- what a tick does ----

  /** No field of a thread other than `t` has changed. */
  ghost predicate OnlyThread(s: Sched, t: Tid, r: Sched) {
    |r.threads| == |s.threads| && forall x :: 0 <= x < |s.threads| && x != t ==> r.threads[x] == s.threads[x]
  }

  ghost predicate SameTicks(s: Sched, r: Sched) {
    |r.threads| == |s.threads| && forall x :: 0 <= x < |s.threads| ==>
      r.threads[x].remainingTick == s.threads[x].remainingTick && r.threads[x].initTick == s.threads[x].initTick
  }

  lemma ScheduleTicks(s: Sched)
    requires Inv(s)
    requires Best(s.ready) < LEVELS ==> s.ready[Best(s.ready)][0] < |s.threads|
    ensures SameTicks(s, Schedule(s))
  {
    hide Listed, Without, Best, Stays;
    var r := Schedule(s);
    forall x | 0 <= x < |s.threads|
      ensures r.threads[x].remainingTick == s.threads[x].remainingTick && r.threads[x].initTick == s.threads[x].initTick
    {
    }
  }

  /** Whoever else is ready, a tick costs the running thread one of its ticks, or at the end of its slice gives it a
      full one; nobody else's change. */
  lemma TickSlice(s: Sched)
    requires Inv(s)
    ensures var c, r := s.threads[s.current], Tick(s);
      && s.current < |r.threads| == |s.threads|
      && r.threads[s.current].remainingTick == (if c.remainingTick > 1 then c.remainingTick - 1 else c.initTick)
      && r.threads[s.current].initTick == c.initTick
      && forall x :: 0 <= x < |s.threads| && x != s.current ==>
           r.threads[x].remainingTick == s.threads[x].remainingTick && r.threads[x].initTick == s.threads[x].initTick
  {
    var c := s.threads[s.current];
    if c.remainingTick <= 1 {
      HeadListed(s);
      ReloadKeeps(s);
      ScheduleTicks(s.(threads := s.threads[s.current := c.(remainingTick := c.initTick, yielded := true)]));
    }
    hide Inv, Schedule;
  }

  lemma ReloadKeeps(s: Sched)
    requires Inv(s)
    ensures var c := s.threads[s.current]; Inv(s.(threads := s.threads[s.current := c.(remainingTick := c.initTick, yielded := true)]))
  {
    TicksKeep(s, s.threads[s.current].initTick, true, s.lockNest);
  }

  // ---- rt_enter_critical ----

  function Exits(ops: seq<Op>): nat {
    if ops == [] then 0 else (if ops[0].DoExit? then 1 else 0) + Exits(ops[1..])
  }

  function Enters(ops: seq<Op>): nat {
    if ops == [] then 0 else (if ops[0].DoEnter? then 1 else 0) + Enters(ops[1..])
  }

  /** One operation on a locked scheduler, if it is not the last exit. */
  lemma LockedStep(s: Sched, op: Op)
    requires Inv(s) && s.lockNest > (if op.DoExit? then 1 else 0)
    ensures Step(s, op).current == s.current
    ensures Step(s, op).lockNest == s.lockNest + (if op.DoEnter? then 1 else 0) - (if op.DoExit? then 1 else 0)
  {
    HeadListed(s);
    hide Inv, Without, Best;
  }

  /** As long as the scheduler is locked, whatever threads become ready or suspended and however many ticks pass, the
      current thread keeps the processor; rt_enter_critical nests. */
  lemma {:induction false} LockHolds(s: Sched, ops: seq<Op>)
    requires Inv(s) && Exits(ops) < s.lockNest
    ensures Run(s, ops).current == s.current && Run(s, ops).lockNest == s.lockNest + Enters(ops) - Exits(ops)
    decreases |ops|
  {
    hide Inv, Step;
    if ops != [] {
      StepInv(s, ops[0]);
      LockedStep(s, ops[0]);
      LockHolds(Step(s, ops[0]), ops[1..]);
    }
  }

  /** The exit that ends the lock schedules: if a thread is ready, one of the best runs afterwards; an exit without a
      lock does so too. */
  lemma ExitSchedules(s: Sched)
    requires Inv(s) && s.lockNest <= 1 && Best(s.ready) < LEVELS
    ensures var r := Step(s, DoExit);
      Inv(r) && r.lockNest == 0 && r.threads[r.current].stat == Running && forall t :: !Outranked(r, t)
  {
    var s1 := s.(lockNest := 0);
    LockKeeps(s, 0);
    BestRuns(s1);
    StepInv(s, DoExit);
    HeadListed(s1);
    ScheduleUnlocked(s1);
    hide Inv, Schedule;
  }

  lemma ScheduleUnlocked(s: Sched)
    requires Inv(s)
    requires Best(s.ready) < LEVELS ==> s.ready[Best(s.ready)][0] < |s.threads|
    ensures Schedule(s).lockNest == s.lockNest
  {
    hide Inv, Without;
  }

  // ---- what the other operations do ----

  /** No list but that of priority `p` has changed. */
  ghost predicate OnlyList(s: Sched, p: nat, r: Sched) {
    |s.ready| == |r.ready| == LEVELS && forall i :: 0 <= i < LEVELS && i != p ==> r.ready[i] == s.ready[i]
  }

  /** The processor and the lock stay as they are. */
  ghost predicate SameHolder(s: Sched, r: Sched) {
    r.current == s.current && r.lockNest == s.lockNest
  }

  /** Suspending a ready or running thread takes it off its list, and changes nothing else; any other stays as it is. */
  lemma SuspendOutcome(s: Sched, t: Tid)
    requires Inv(s) && t < |s.threads|
    ensures var c, r := s.threads[t], SchedulerSpec.Suspend(s, t);
      && SameHolder(s, r) && OnlyThread(s, t, r) && OnlyList(s, c.priority, r)
      && (c.stat != Ready && c.stat != Running ==> r == s)
      && (c.stat == Ready || c.stat == Running ==>
            r.threads[t] == c.(stat := Suspended) && Leaves(s.ready[c.priority], t, r.ready[c.priority]))
  {
    WithoutLeaves(s.ready[s.threads[t].priority], t);
    hide Without, Leaves;
  }

  /** The thread is ready and last of its list; the current one, which is in no list, runs on. */
  ghost predicate Revived(s: Sched, t: Tid, r: Sched)
    requires Shape(s) && t < |s.threads|
  {
    var c := s.threads[t];
    && SameHolder(s, r) && OnlyThread(s, t, r) && OnlyList(s, c.priority, r)
    && r.threads[t] == c.(stat := if t == s.current then Running else Ready)
    && r.ready[c.priority] == s.ready[c.priority] + (if t == s.current then [] else [t])
  }

  /** A suspended thread is resumed and an initial one started, and any other stays as it is. */
  lemma ResumeOutcome(s: Sched, t: Tid)
    requires Inv(s) && t < |s.threads|
    ensures if s.threads[t].stat == Suspended then Revived(s, t, Resume(s, t)) else Resume(s, t) == s
    ensures if s.threads[t].stat == Init then Revived(s, t, Startup(s, t)) && t != s.current else Startup(s, t) == s
  {
  }

  /** A change of priority changes nothing else of the thread; a ready one moves from its list to the end of the other. */
  lemma ChangeOutcome(s: Sched, t: Tid, p: nat)
    requires Inv(s) && t < |s.threads| && p < LEVELS
    ensures var c, r := s.threads[t], ChangePriority(s, t, p);
      && SameHolder(s, r) && OnlyThread(s, t, r) && r.threads[t] == c.(priority := p)
      && (c.stat != Ready ==> r.ready == s.ready)
      && (c.stat == Ready ==> Moves(s.ready, t, c.priority, p, r.ready))
  {
    WithoutLeaves(s.ready[s.threads[t].priority], t);
    hide Without, Leaves;
  }

  ghost predicate Moves(ready: seq<seq<Tid>>, t: Tid, from: nat, to: nat, r: seq<seq<Tid>>) {
    && |ready| == |r| == LEVELS && from < LEVELS && to < LEVELS
    && (forall i :: 0 <= i < LEVELS && i != from && i != to ==> r[i] == ready[i])
    && (if from == to then exists q :: Leaves(ready[from], t, q) && r[from] == q + [t]
        else Leaves(ready[from], t, r[from]) && r[to] == ready[to] + [t])
  }

  /** If rt_schedule changes threads, the first of the best list runs, and a thread that had to give way is ready and
      last of its list, to be seen as not having used up a slice. */
  lemma SwitchOutcome(s: Sched)
    requires Inv(s) && Step(s, DoSchedule).current != s.current
    ensures var r := Step(s, DoSchedule);
      && Best(s.ready) < LEVELS && s.ready[Best(s.ready)] != [] && r.current == s.ready[Best(s.ready)][0]
      && Switches(s, r)
  {
    HeadListed(s);
    hide Inv;
    var p := Best(s.ready);
    var to := s.ready[p][0];
    assert s.ready[p][0] == to && Without(s.ready[p], to) == s.ready[p][1..];
    assert (s.ready[p] + [s.current])[0] == to && (s.ready[p] + [s.current])[1..] == s.ready[p][1..] + [s.current];
    assert Without(s.ready[p] + [s.current], to) == s.ready[p][1..] + [s.current];
    assert s.ready[p] == [to] + s.ready[p][1..];
  }

  ghost predicate Switches(s: Sched, r: Sched) {
    && |r.threads| == |s.threads| && r.lockNest == s.lockNest && |r.ready| == |s.ready| == LEVELS
    && s.current < |s.threads| && r.current < |s.threads| && r.current != s.current
    && var from, to, back := s.threads[s.current], s.threads[r.current], s.threads[s.current].stat == Running;
    && r.threads[r.current] == to.(stat := Running)
    && r.threads[s.current] == (if back then from.(stat := Ready, yielded := false) else from)
    && (forall x :: 0 <= x < |s.threads| && x != s.current && x != r.current ==> r.threads[x] == s.threads[x])
    && forall p :: 0 <= p < LEVELS ==>
         (if p == to.priority then [r.current] else []) + r.ready[p] == s.ready[p] + (if back && p == from.priority then [s.current] else [])
  }
}
