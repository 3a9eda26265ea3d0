/** rt_mutex_take and rt_mutex_release with priority inheritance, as atomic steps.

    The users of the mutex hold no other mutex, so nothing else moves their priorities.  `base` gives
    the priorities they have without inheritance; a lower number is a better priority. */
module MutexSpec {
  import opened IpcList
  import opened Lists
  import opened RtDef

  const NO_PRIORITY: nat := 0xFF

  const HOLD_WRAP: nat := 0x100   // `hold` is an 8-bit counter

  datatype Mutex = Mutex(flag: Flag, value: nat, owner: Option<Tid>, original: nat, hold: nat, waiters: seq<Tid>, prio: seq<nat>)

  datatype Outcome = Ok | TimedOut | NotOwner | Asleep

  /** The priorities as a table look-up. */
  function PrioOf(prio: seq<nat>): Priorities {
    (t: Tid) => if t < |prio| then prio[t] else NO_PRIORITY
  }

  /** The mutex is free and nobody waits, or it has an owner that does not wait for it. */
  ghost predicate Consistent(m: Mutex) {
    && m.value == (if m.owner.None? then 1 else 0)
    && (m.owner.None? ==> m.hold == 0 && m.waiters == [])
    && (m.owner.Some? ==> 1 <= m.hold < HOLD_WRAP && m.owner.value < |m.prio| && m.owner.value !in m.waiters)
    && Distinct(m.waiters) && forall t :: t in m.waiters ==> t < |m.prio|
  }

  /** Only the owner's priority differs from its own, and never for the worse. */
  ghost predicate OwnPriorities(m: Mutex, base: seq<nat>) {
    && |m.prio| == |base|
    && (forall t: Tid :: t < |base| && m.owner != Some(t) ==> m.prio[t] == base[t])
    && (m.owner.Some? && m.owner.value < |base| ==> m.original == base[m.owner.value] && m.prio[m.owner.value] <= m.original)
  }

  /** No waiter outranks the owner. */
  ghost predicate OwnerFirst(m: Mutex) {
    m.owner.Some? && m.owner.value < |m.prio| ==> forall t :: t in m.waiters && t < |m.prio| ==> m.prio[m.owner.value] <= m.prio[t]
  }

  ghost predicate Inv(m: Mutex, base: seq<nat>) {
    && Consistent(m) && OwnPriorities(m, base)
    && (m.flag.PRIO? ==> Sorted(m.waiters, PrioOf(m.prio)) && OwnerFirst(m))
  }

  function Init(flag: Flag, prio: seq<nat>): Mutex {
    Mutex(flag, 1, None, NO_PRIORITY, 0, [], prio)
  }

  function Take(m: Mutex, t: Tid, wait: bool): (r: (Mutex, Outcome))
    requires t < |m.prio| && (m.owner.Some? ==> m.owner.value < |m.prio|)
    requires m.value == 0 ==> m.owner.Some?
  {
    if m.owner == Some(t) then (m.(hold := (m.hold + 1) % HOLD_WRAP), Ok)
    else if m.value > 0 then
      (m.(value := m.value - 1, owner := Some(t), original := m.prio[t], hold := (m.hold + 1) % HOLD_WRAP), Ok)
    else if !wait then (m, TimedOut)
    else
      var o := m.owner.value;
      var prio := if m.prio[t] < m.prio[o] then m.prio[o := m.prio[t]] else m.prio;
      (m.(prio := prio, waiters := Suspend(m.waiters, t, m.flag, PrioOf(prio))), Asleep)
  }

  function Release(m: Mutex, t: Tid): (r: (Mutex, Outcome))
    requires t < |m.prio| && forall w :: w in m.waiters ==> w < |m.prio|
  {
    if m.owner != Some(t) then (m, NotOwner) else
    var m := m.(hold := (m.hold + HOLD_WRAP - 1) % HOLD_WRAP);
    if m.hold != 0 then (m, Ok) else
    var m := m.(prio := m.prio[t := m.original]);
    if m.waiters == [] then (m.(value := m.value + 1, owner := None, original := NO_PRIORITY), Ok)
    else
      var next := m.waiters[0];
      assert next in m.waiters;
      (m.(owner := Some(next), original := m.prio[next], hold := 1, waiters := m.waiters[1..]), Ok)
  }

  /** A waiter gives up; the owner keeps the priority it was lent. */
  function Timeout(m: Mutex, t: Tid): Mutex {
    m.(waiters := Without(m.waiters, t))
  }

  datatype Event = EvTake(t: Tid, wait: bool) | EvRelease(t: Tid) | EvTimeout(t: Tid)

  /** Waiters run nothing, and nobody nests deeper than the counter counts. */
  predicate Enabled(m: Mutex, e: Event) {
    match e
    case EvTake(t, _) => t < |m.prio| && t !in m.waiters && (m.owner == Some(t) ==> m.hold < HOLD_WRAP - 1)
    case EvRelease(t) => t < |m.prio| && t !in m.waiters
    case EvTimeout(t) => t in m.waiters
  }

  function Step(m: Mutex, e: Event): Mutex
    requires Consistent(m)
  {
    if !Enabled(m, e) then m else
    match e
    case EvTake(t, wait) => Take(m, t, wait).0
    case EvRelease(t) => Release(m, t).0
    case EvTimeout(t) => Timeout(m, t)
  }

  // ---- every step keeps the invariant ----

  /** A list is sorted by the priorities of its own members. */
  lemma SortedSame(q: seq<Tid>, prio: seq<nat>, prio': seq<nat>)
    requires Sorted(q, PrioOf(prio)) && |prio'| == |prio|
    requires forall t :: t in q && t < |prio| ==> prio'[t] == prio[t]
    ensures Sorted(q, PrioOf(prio'))
  {
    forall i, j | 0 <= i < j < |q|
      ensures PrioOf(prio')(q[i]) <= PrioOf(prio')(q[j])
    {
      assert q[i] in q && q[j] in q;
      assert PrioOf(prio)(q[i]) <= PrioOf(prio)(q[j]);
    }
  }

  /** A newcomer lends its priority to the owner and joins the waiters. */
  lemma QueueUpKeeps(m: Mutex, base: seq<nat>, t: Tid)
    requires Inv(m, base) && t < |base| && t !in m.waiters && m.owner.Some? && m.owner.value != t
    ensures Inv(Take(m, t, true).0, base)
  {
    hide Suspend, Sorted, PrioOf, Distinct;
    var m' := Take(m, t, true).0;
    SuspendKeeps(m.waiters, t, m.flag, PrioOf(m'.prio));
    if m.flag.PRIO? {
      SortedSame(m.waiters, m.prio, m'.prio);
      SuspendSorted(m.waiters, t, PrioOf(m'.prio));
    }
  }

  lemma TakeKeeps(m: Mutex, base: seq<nat>, t: Tid, wait: bool)
    requires Inv(m, base) && Enabled(m, EvTake(t, wait))
    ensures Inv(Take(m, t, wait).0, base)
  {
    if m.owner.Some? && m.owner.value != t && wait {
      QueueUpKeeps(m, base, t);
    }
  }

  /** The head of a sorted list outranks or equals the others. */
  lemma HeadBest(q: seq<Tid>, prio: seq<nat>)
    requires Distinct(q) && q != [] && Sorted(q, PrioOf(prio)) && forall t :: t in q ==> t < |prio|
    ensures Distinct(q[1..]) && Sorted(q[1..], PrioOf(prio)) && q[0] !in q[1..] && q[0] < |prio|
    ensures forall t :: t in q[1..] ==> t in q && prio[q[0]] <= prio[t]
  {
    assert q[0] in q;
    forall t | t in q[1..]
      ensures t in q && prio[q[0]] <= prio[t]
    {
      var i :| 0 < i < |q| && q[i] == t;
      assert PrioOf(prio)(q[0]) <= PrioOf(prio)(q[i]);
    }
  }

  lemma ReleaseKeeps(m: Mutex, base: seq<nat>, t: Tid)
    requires Inv(m, base) && Enabled(m, EvRelease(t))
    ensures Inv(Release(m, t).0, base)
  {
    if m.owner == Some(t) && m.hold == 1 && m.waiters != [] {
      HandOffKeeps(m, base, t);
    }
  }

  lemma HandOffKeeps(m: Mutex, base: seq<nat>, t: Tid)
    requires Inv(m, base) && t < |base| && m.owner == Some(t) && m.hold == 1 && m.waiters != []
    ensures Inv(Release(m, t).0, base)
  {
    hide Sorted, PrioOf, Distinct;
    var m' := Release(m, t).0;
    assert m.waiters[0] in m.waiters && forall x :: x in m.waiters[1..] ==> x in m.waiters;
    TailDistinct(m.waiters);
    if m.flag.PRIO? {
      SortedSame(m.waiters, m.prio, m'.prio);
      HeadBest(m.waiters, m'.prio);
    }
  }

  lemma TimeoutKeeps(m: Mutex, base: seq<nat>, t: Tid)
    requires Inv(m, base)
    ensures Inv(Timeout(m, t), base)
  {
    WithoutMembers(m.waiters, t);
    if m.flag.PRIO? {
      WithoutSorted(m.waiters, t, PrioOf(m.prio));
    }
  }

  lemma StepInv(m: Mutex, base: seq<nat>, e: Event)
    requires Inv(m, base)
    ensures Inv(Step(m, e), base)
  {
    if Enabled(m, e) {
      match e
      case EvTake(t, wait) => TakeKeeps(m, base, t, wait);
      case EvRelease(t) => ReleaseKeeps(m, base, t);
      case EvTimeout(t) => TimeoutKeeps(m, base, t);
    }
  }

  function Run(m: Mutex, es: seq<Event>, ghost base: seq<nat>): (r: Mutex)
    requires Inv(m, base)
    ensures Inv(r, base) && r.flag == m.flag
    decreases |es|
  {
    if es == [] then m else
    StepInv(m, base, es[0]);
    Run(Step(m, es[0]), es[1..], base)
  }

  /** Whatever has happened to a mutex: every thread but the owner has its own priority, the owner has
      at least its own, and with the priority flag the waiters are sorted and none outranks the owner. */
  lemma RunInherits(flag: Flag, base: seq<nat>, es: seq<Event>)
    ensures Inv(Init(flag, base), base)
    ensures var m := Run(Init(flag, base), es, base);
      && (m.owner.None? ==> m.prio == base && m.waiters == [])
      && (m.owner.Some? ==> m.owner.value < |base| == |m.prio| && m.prio[m.owner.value] <= base[m.owner.value])
      && (forall t: Tid :: t < |base| == |m.prio| && m.owner != Some(t) ==> m.prio[t] == base[t])
      && (flag.PRIO? ==> Sorted(m.waiters, PrioOf(m.prio)) && OwnerFirst(m))
  {
  }

  // ---- inheritance lends no more than it is asked for ----

  /** The owner's priority is its own or that of a thread that still waits. */
  ghost predicate Tight(m: Mutex) {
    m.owner.Some? && m.owner.value < |m.prio| ==>
      m.prio[m.owner.value] == m.original || exists t :: t in m.waiters && t < |m.prio| && m.prio[t] == m.prio[m.owner.value]
  }

  /** The thread that gives up is the only one whose priority the owner still has. */
  ghost predicate LeavesLoan(m: Mutex, e: Event) {
    && e.EvTimeout? && m.owner.Some? && m.owner.value < |m.prio|
    && m.prio[m.owner.value] != m.original
    && forall u :: u in m.waiters && u < |m.prio| && u != e.t ==> m.prio[u] != m.prio[m.owner.value]
  }

  /** A step leaves the owner with a priority that nobody lends any more if and only if it is the timeout
      of the last thread that lends it. */
  lemma StepTight(m: Mutex, base: seq<nat>, e: Event)
    requires Inv(m, base) && Tight(m)
    ensures Tight(Step(m, e)) <==> !LeavesLoan(m, e)
  {
    if Enabled(m, e) && e.EvTake? && m.owner.Some? && m.owner.value != e.t && e.wait {
      QueueUpTight(m, base, e.t);
    } else if e.EvTimeout? {
      WithoutMembers(m.waiters, e.t);
    }
  }

  /** Thread 0 takes the mutex, the better thread 2 waits for it and gives up. */
  function Loan(): seq<Event> {
    [EvTake(0, true), EvTake(2, true), EvTimeout(2)]
  }

  /** The mutex after `k` of these steps. */
  function LoanState(k: nat): Mutex
    requires k <= 3
  {
    if k == 0 then Init(PRIO, THREE)
    else if k == 1 then Mutex(PRIO, 0, Some(0), 5, 1, [], THREE)
    else if k == 2 then Mutex(PRIO, 0, Some(0), 5, 1, [2], [3, 9, 3])
    else Mutex(PRIO, 0, Some(0), 5, 1, [], [3, 9, 3])
  }

  lemma {:induction false} LoanInv(k: nat)
    requires k <= 3
    ensures Inv(LoanState(k), THREE)
  {
    if k > 0 {
      LoanInv(k - 1);
      LoanStep(k - 1);
      StepInv(LoanState(k - 1), THREE, Loan()[k-1]);
    }
  }

  lemma LoanStep(k: nat)
    requires k < 3 && Inv(LoanState(k), THREE)
    ensures Step(LoanState(k), Loan()[k]) == LoanState(k + 1)
  {
    hide Inv, Sorted, OwnerFirst, Suspend;
    if k == 1 {
      var prio := [3, 9, 3];
      assert THREE[0 := 3] == prio;
      SuspendFirst(2, PRIO, PrioOf(prio));
    }
  }

  lemma SuspendFirst(t: Tid, flag: Flag, prio: Priorities)
    ensures Suspend([], t, flag, prio) == [t]
  {
  }

  lemma {:induction false} LoanRun(k: nat)
    requires k <= 3
    ensures Inv(LoanState(k), THREE) && Run(LoanState(k), Loan()[k..], THREE) == LoanState(3)
    decreases 3 - k
  {
    hide Step, Inv, LoanState;
    LoanInv(k);
    if k < 3 {
      LoanStep(k);
      LoanRun(k + 1);
      assert Loan()[k..][1..] == Loan()[k+1..];
    }
  }

  /** A run after which the owner has a priority that is neither its own nor that of a waiter. */
  lemma StaleLoan()
    ensures Inv(Init(PRIO, THREE), THREE) && !Tight(Run(Init(PRIO, THREE), Loan(), THREE))
  {
    LoanRun(0);
    assert Loan()[0..] == Loan();
    assert LoanState(0) == Init(PRIO, THREE);
  }

  lemma QueueUpTight(m: Mutex, base: seq<nat>, t: Tid)
    requires Inv(m, base) && Tight(m) && t < |base| && t !in m.waiters && m.owner.Some? && m.owner.value != t
    ensures Tight(Take(m, t, true).0)
  {
    hide Suspend, Sorted, PrioOf;
    var m' := Take(m, t, true).0;
    SuspendKeeps(m.waiters, t, m.flag, PrioOf(m'.prio));
    assert t in m'.waiters;
    if !(m.prio[t] < m.prio[m.owner.value]) && m.prio[m.owner.value] != m.original {
      var u :| u in m.waiters && u < |m.prio| && m.prio[u] == m.prio[m.owner.value];
      assert u in m'.waiters && m'.prio[u] == m'.prio[m.owner.value];
    }
  }

  // ---- taking and releasing ----

  /** A take that gets the mutex, nested or not, is undone by the matching release. */
  lemma ReleaseUndoesTake(m: Mutex, base: seq<nat>, t: Tid, wait: bool)
    requires Inv(m, base) && Enabled(m, EvTake(t, wait)) && Take(m, t, wait).1.Ok? && (m.owner.None? ==> m.original == NO_PRIORITY)
    ensures Release(Take(m, t, wait).0, t) == (m, Ok)
  {
    if m.owner.None? {
      assert m.prio[t := m.prio[t]] == m.prio;
    }
  }

  /** The last release gives the owner back the priority it took the mutex with. */
  lemma LastReleaseRestores(m: Mutex, base: seq<nat>, t: Tid)
    requires Inv(m, base) && m.owner == Some(t) && m.hold == 1 && t < |m.prio|
    ensures Release(m, t).0.prio == base
  {
    var m' := Release(m, t).0;
    assert m'.prio == m.prio[t := m.original];
    forall i | 0 <= i < |base|
      ensures m'.prio[i] == base[i]
    {
    }
  }

  /** The mutex goes to the first waiter, which under the priority flag is one of the best. */
  lemma HandOffToBest(m: Mutex, base: seq<nat>, t: Tid)
    requires Inv(m, base) && m.owner == Some(t) && m.hold == 1 && t < |m.prio| && m.waiters != [] && m.flag.PRIO?
    ensures var r := Release(m, t).0;
      r.owner == Some(m.waiters[0]) && m.waiters[0] < |base| && forall w :: w in m.waiters ==> w < |base| && base[m.waiters[0]] <= base[w]
  {
    assert m.waiters[0] in m.waiters;
    LastReleaseRestores(m, base, t);
    HeadBest(m.waiters, m.prio);
    forall w | w in m.waiters
      ensures w < |base| && base[m.waiters[0]] <= base[w]
    {
      assert m.waiters == [m.waiters[0]] + m.waiters[1..];
    }
  }

  /** Under the FIFO flag the hand-off lends nothing to the new owner: it keeps the owner first
      exactly when the thread that waited longest outranks or equals all the others. */
  lemma FifoHandOff(m: Mutex, base: seq<nat>, t: Tid)
    requires Inv(m, base) && m.owner == Some(t) && m.hold == 1 && t < |m.prio| && m.waiters != [] && m.flag.FIFO?
    ensures m.waiters[0] in m.waiters
    ensures OwnerFirst(Release(m, t).0) <==> forall w :: w in m.waiters && w < |base| ==> base[m.waiters[0]] <= base[w]
  {
    assert m.waiters[0] in m.waiters;
    LastReleaseRestores(m, base, t);
    assert m.waiters == [m.waiters[0]] + m.waiters[1..];
  }

  /** Thread 0 takes the mutex, the worse thread 1 and then the better thread 2 wait, thread 0 releases. */
  function Inversion(): seq<Event> {
    [EvTake(0, true), EvTake(1, true), EvTake(2, true), EvRelease(0)]
  }

  const THREE: seq<nat> := [5, 9, 3]

  /** The mutex after `k` of these steps. */
  function InversionState(k: nat): Mutex
    requires k <= 4
  {
    if k == 0 then Init(FIFO, THREE)
    else if k == 1 then Mutex(FIFO, 0, Some(0), 5, 1, [], THREE)
    else if k == 2 then Mutex(FIFO, 0, Some(0), 5, 1, [1], THREE)
    else if k == 3 then Mutex(FIFO, 0, Some(0), 5, 1, [1, 2], [3, 9, 3])
    else Mutex(FIFO, 0, Some(1), 9, 1, [2], THREE)
  }

  lemma InversionStep(k: nat)
    requires k < 4
    ensures Inv(InversionState(k), THREE) && Step(InversionState(k), Inversion()[k]) == InversionState(k + 1)
  {
    hide Sorted, OwnerFirst;
    var m := InversionState(k);
    if k == 3 {
      assert m.prio[0 := 5] == THREE && m.waiters[1..] == [2];
    }
  }

  lemma {:induction false} InversionRun(k: nat)
    requires k <= 4
    ensures Inv(InversionState(k), THREE) && Run(InversionState(k), Inversion()[k..], THREE) == InversionState(4)
    decreases 4 - k
  {
    hide Step, Inv, InversionState;
    if k < 4 {
      InversionStep(k);
      InversionRun(k + 1);
      assert Inversion()[k..][1..] == Inversion()[k+1..];
    } else {
      InversionStep(3);
      StepInv(InversionState(3), THREE, Inversion()[3]);
    }
  }

  /** A FIFO mutex that ends up with an owner outranked by a waiter. */
  lemma FifoInversion()
    ensures Inv(Init(FIFO, THREE), THREE) && !OwnerFirst(Run(Init(FIFO, THREE), Inversion(), THREE))
  {
    InversionRun(0);
    assert Inversion()[0..] == Inversion();
    assert InversionState(0) == Init(FIFO, THREE);
    var m := InversionState(4);
    assert m.owner == Some(1) && m.prio[1] == 9 && m.waiters == [2] && m.prio[2] == 3 && 2 in m.waiters;
  }

  /** The 8-bit hold counter: a nested take keeps the mutex consistent if and only if it is not the 256th hold. */
  lemma NestingWraps(m: Mutex, base: seq<nat>, t: Tid, wait: bool)
    requires Inv(m, base) && m.owner == Some(t) && t < |m.prio|
    ensures Inv(Take(m, t, wait).0, base) <==> m.hold < HOLD_WRAP - 1
  {
    if m.hold < HOLD_WRAP - 1 {
      TakeKeeps(m, base, t, wait);
    }
  }

  /** Thread 0 holds the mutex `k` times. */
  function Held(k: nat): Mutex {
    Mutex(FIFO, 0, Some(0), 5, k, [], [5])
  }

  function Takes(n: nat): seq<Event> {
    seq(n, _ => EvTake(0, false))
  }

  lemma {:induction false} NestedTakes(k: nat, n: nat)
    requires 1 <= k && k + n < HOLD_WRAP
    ensures Inv(Held(k), [5]) && Run(Held(k), Takes(n), [5]) == Held(k + n)
    decreases n
  {
    if n > 0 {
      assert Takes(n)[0] == EvTake(0, false) && Takes(n)[1..] == Takes(n - 1);
      assert Step(Held(k), EvTake(0, false)) == Held(k + 1);
      NestedTakes(k + 1, n - 1);
    }
  }

  /** After 255 takes by one thread, the next leaves a mutex that has an owner and is held zero times. */
  lemma NestingExample()
    ensures Inv(Init(FIFO, [5]), [5]) && Run(Init(FIFO, [5]), Takes(255), [5]) == Held(255)
    ensures Take(Held(255), 0, false).0 == Held(0) && !Inv(Held(0), [5])
  {
    var m := Init(FIFO, [5]);
    assert Takes(255)[0] == EvTake(0, false) && Takes(255)[1..] == Takes(254);
    assert Step(m, EvTake(0, false)) == Held(1);
    NestedTakes(1, 254);
  }

  // ---- what a call reports ----

  function Better(a: nat, b: nat): nat { if a < b then a else b }

  /** A take reports success if and only if its thread owns the mutex afterwards; it goes to sleep if and only if another
      thread owns it and it waits, and then lends its priority to the owner, and nothing else to anybody. */
  lemma TakeOutcome(m: Mutex, base: seq<nat>, t: Tid, wait: bool)
    requires Inv(m, base) && Enabled(m, EvTake(t, wait))
    ensures var (m', r) := Take(m, t, wait);
      && (r.Ok? <==> m'.owner == Some(t)) && (r.Ok? <==> m.owner == None || m.owner == Some(t)) && !r.NotOwner?
      && (r.Ok? ==> m'.hold == m.hold + 1 && m'.prio == m.prio && m'.waiters == m.waiters)
      && (r.TimedOut? <==> m.owner.Some? && m.owner.value != t && !wait) && (r.TimedOut? ==> m' == m)
      && (r.Asleep? <==> t in m'.waiters) && (r.Asleep? ==> Lends(m, t, m'))
  {
    if m.owner.Some? && m.owner.value != t && wait {
      var prio := Take(m, t, wait).0.prio;
      SuspendJoins(m.waiters, t, Config(m.flag, PrioOf(prio)));
      SuspendKeeps(m.waiters, t, m.flag, PrioOf(prio));
    }
    hide Suspend, Joins, PrioOf, Sorted;
  }

  /** The thread joins the waiters, and the owner has the better of the two priorities. */
  ghost predicate Lends(m: Mutex, t: Tid, m': Mutex) {
    && m.owner.Some? && m.owner.value < |m.prio| && t < |m.prio|
    && m'.prio == m.prio[m.owner.value := Better(m.prio[t], m.prio[m.owner.value])]
    && Joins(m.waiters, t, Config(m.flag, PrioOf(m'.prio)), m'.waiters)
    && m'.owner == m.owner && m'.hold == m.hold && m'.original == m.original
  }

  /** A release reports success if and only if its thread owns the mutex, and else changes nothing.  The thread keeps the
      mutex until the last of its holds is given back, and then the first waiter has it, if there is one. */
  lemma ReleaseOutcome(m: Mutex, base: seq<nat>, t: Tid)
    requires Inv(m, base) && Enabled(m, EvRelease(t))
    ensures var (m', r) := Release(m, t);
      && (r.Ok? <==> m.owner == Some(t)) && (!r.Ok? ==> r.NotOwner? && m' == m)
      && (r.Ok? ==> (m'.owner == Some(t) <==> m.hold > 1))
      && (r.Ok? && m.hold > 1 ==> m' == m.(hold := m.hold - 1))
      && (r.Ok? && m.hold == 1 ==> PassedOn(m, m'))
  {
    assert m.waiters != [] ==> m.waiters == [m.waiters[0]] + m.waiters[1..] && m.waiters[0] in m.waiters;
  }

  ghost predicate PassedOn(m: Mutex, m': Mutex) {
    if m.waiters == [] then m'.owner == None && m'.waiters == []
    else m'.owner == Some(m.waiters[0]) && m'.hold == 1 && m.waiters == [m.waiters[0]] + m'.waiters
  }

  /** A waiter that gives up leaves the list and nothing else. */
  lemma TimeoutOutcome(m: Mutex, base: seq<nat>, t: Tid)
    requires Inv(m, base)
    ensures Leaves(m.waiters, t, Timeout(m, t).waiters) && Timeout(m, t).(waiters := m.waiters) == m
  {
    WithoutLeaves(m.waiters, t);
  }
}

/** ipc.c: the mutex object.  The priorities of the threads live outside of it. */
module Mutex {
  import opened IpcList
  import opened Lists
  import opened MutexSpec
  import opened RtDef
  import opened WaitList

  class RtMutex {
    const flag: Flag
    const currentPriority: array<nat>   // of every thread
    const suspendThread: RtIpcList
    var value: nat
    var owner: Option<Tid>
    var originalPriority: nat
    var hold: nat

    ghost function State(): MutexSpec.Mutex
      reads this, currentPriority, suspendThread
    {
      MutexSpec.Mutex(flag, value, owner, originalPriority, hold, suspendThread.queue, currentPriority[..])
    }

    ghost predicate Valid()
      reads suspendThread, suspendThread.next, suspendThread.prev
    {
      suspendThread.Valid() && currentPriority != suspendThread.next && currentPriority != suspendThread.prev
    }

    /** rt_mutex_init: `next` and `prev` hold the links of all nodes, `head` is the node of the mutex. */
    constructor (flag: Flag, currentPriority: array<nat>, next: array<nat>, prev: array<nat>, head: nat)
      requires next != prev && next.Length == prev.Length && head < next.Length && currentPriority != next && currentPriority != prev
      modifies next, prev
      ensures Valid() && this.flag == flag && this.currentPriority == currentPriority
      ensures State() == Init(flag, currentPriority[..])
      ensures fresh(suspendThread) && suspendThread.next == next && suspendThread.prev == prev && suspendThread.head == head
    {
      var list := new RtIpcList(next, prev, head);
      this.flag, this.currentPriority, suspendThread := flag, currentPriority, list;
      value, owner, originalPriority, hold := 1, None, NO_PRIORITY, 0;
    }

    /** rt_mutex_take up to the point where it returns or goes to sleep. */
    method TakeStep(thread: Tid, time: int) returns (r: Outcome)
      requires Valid() && Consistent(State()) && thread < currentPriority.Length && suspendThread.Idle(thread)
      modifies this, currentPriority, suspendThread, suspendThread.next, suspendThread.prev
      ensures Valid() && (State(), r) == Take(old(State()), thread, time != 0)
    {
      hide Suspend, Distinct;
      r := Ok;
      if owner == Some(thread) {
        hold := (hold + 1) % HOLD_WRAP;
      } else if value > 0 {
        value := value - 1;
        owner := Some(thread);
        originalPriority := currentPriority[thread];
        hold := (hold + 1) % HOLD_WRAP;
      } else if time == 0 {
        r := TimedOut;
      } else {
        if currentPriority[thread] < currentPriority[owner.value] {
          currentPriority[owner.value] := currentPriority[thread];
        }
        suspendThread.RtIpcListSuspend(thread, flag, PrioOf(currentPriority[..]));
        r := Asleep;
      }
    }

    /** rt_mutex_release: an owned mutex goes straight to the first waiter. */
    method ReleaseStep(thread: Tid) returns (r: Outcome)
      requires Valid() && Consistent(State()) && thread < currentPriority.Length
      modifies this, currentPriority, suspendThread, suspendThread.next, suspendThread.prev
      ensures Valid() && (State(), r) == Release(old(State()), thread)
    {
      hide Distinct;
      r := NotOwner;
      if owner == Some(thread) {
        r := Ok;
        ghost var prio, q := currentPriority[..], suspendThread.queue;
        hold := (hold + HOLD_WRAP - 1) % HOLD_WRAP;
        if hold == 0 {
          if originalPriority != currentPriority[thread] {
            currentPriority[thread] := originalPriority;
          }
          assert currentPriority[..] == prio[thread := originalPriority];
          var empty := suspendThread.IsEmpty();
          if !empty {
            assert q[0] in q;
            var next := suspendThread.RtIpcListResume();
            assert next == q[0] && suspendThread.queue == q[1..];
            owner := Some(next);
            originalPriority := currentPriority[next];
            hold := hold + 1;
          } else {
            value := value + 1;
            owner := None;
            originalPriority := NO_PRIORITY;
          }
        }
      }
    }

    /** rt_thread_timeout on a thread that waits here. */
    method TimeoutStep(thread: Tid)
      requires Valid() && thread in suspendThread.queue
      modifies suspendThread, suspendThread.next, suspendThread.prev
      ensures Valid() && State() == Timeout(old(State()), thread)
    {
      suspendThread.Leave(thread);
    }
  }
}
