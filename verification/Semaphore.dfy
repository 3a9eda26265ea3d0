/** rt_sem_take, rt_sem_release and rt_sem_control(RESET) as atomic steps.

    A release hands its unit straight to the first sleeper; only without sleepers does it count. */
module SemaphoreSpec {
  import opened IpcList
  import opened Lists

  const VALUE_WRAP: nat := 0x1_0000   // `value` is a 16-bit counter

  datatype Sem = Sem(value: nat, waiters: seq<Tid>)

  datatype Outcome = Taken | Refused | Asleep

  /** Nobody sleeps while there is a unit to take. */
  ghost predicate Inv(s: Sem) {
    s.value < VALUE_WRAP && Distinct(s.waiters) && (s.waiters != [] ==> s.value == 0)
  }

  function Take(s: Sem, t: Tid, wait: bool, c: Config): (r: (Sem, Outcome)) {
    if s.value > 0 then (s.(value := s.value - 1), Taken)
    else if !wait then (s, Refused)
    else (s.(waiters := Suspend(s.waiters, t, c.flag, c.prio)), Asleep)
  }

  function Release(s: Sem): Sem {
    if s.waiters != [] then s.(waiters := s.waiters[1..]) else s.(value := (s.value + 1) % VALUE_WRAP)
  }

  function Timeout(s: Sem, t: Tid): Sem {
    s.(waiters := Without(s.waiters, t))
  }

  /** RT_IPC_CMD_RESET: the sleepers leave with an error, the value is set anew. */
  function Reset(s: Sem, value: nat): Sem {
    Sem(value % VALUE_WRAP, [])
  }

  datatype Event = EvTake(t: Tid, wait: bool) | EvRelease | EvTimeout(t: Tid) | EvReset(value: nat)

  /** Sleeping threads run nothing. */
  predicate Enabled(s: Sem, e: Event) {
    e.EvTake? ==> e.t !in s.waiters
  }

  function Step(s: Sem, e: Event, c: Config): Sem {
    if !Enabled(s, e) then s else
    match e
    case EvTake(t, wait) => Take(s, t, wait, c).0
    case EvRelease => Release(s)
    case EvTimeout(t) => Timeout(s, t)
    case EvReset(value) => Reset(s, value)
  }

  lemma StepInv(s: Sem, e: Event, c: Config)
    requires Inv(s)
    ensures Inv(Step(s, e, c))
  {
    match e
    case EvTake(t, wait) =>
      if Enabled(s, e) && s.value == 0 && wait {
        SuspendKeeps(s.waiters, t, c.flag, c.prio);
      }
    case EvRelease =>
    case EvTimeout(t) => WithoutMembers(s.waiters, t);
    case EvReset(value) =>
  }

  /** The units that a step hands to a thread: by a take at once, or by a release to a sleeper. */
  function Granted(s: Sem, e: Event): nat {
    if Enabled(s, e) && ((e.EvTake? && s.value > 0) || (e.EvRelease? && s.waiters != [])) then 1 else 0
  }

  function Given(e: Event): nat {
    if e.EvRelease? then 1 else 0
  }

  /** A step loses no unit, except that a release of the full counter with no sleeper loses them all. */
  lemma StepBalance(s: Sem, e: Event, c: Config)
    requires Inv(s) && !e.EvReset?
    ensures Step(s, e, c).value + Granted(s, e) == s.value + Given(e) <==> !(e.EvRelease? && s.waiters == [] && s.value == VALUE_WRAP - 1)
  {
  }

  /** A release of a full counter. */
  lemma FullCounterExample(c: Config)
    ensures Inv(Sem(VALUE_WRAP - 1, [])) && Step(Sem(VALUE_WRAP - 1, []), EvRelease, c) == Sem(0, [])
  {
  }

  function AllGranted(s: Sem, es: seq<Event>, c: Config): nat
    decreases |es|
  {
    if es == [] then 0 else Granted(s, es[0]) + AllGranted(Step(s, es[0], c), es[1..], c)
  }

  function AllGiven(es: seq<Event>): nat {
    if es == [] then 0 else Given(es[0]) + AllGiven(es[1..])
  }

  function Run(s: Sem, es: seq<Event>, c: Config): (r: Sem)
    requires Inv(s)
    ensures Inv(r)
    decreases |es|
  {
    if es == [] then s else
    StepInv(s, es[0], c);
    Run(Step(s, es[0], c), es[1..], c)
  }

  /** Over any run without a reset in which the counter has room for all releases, the units handed
      out and those left are the initial ones and those released. */
  lemma {:induction false} RunBalance(s: Sem, es: seq<Event>, c: Config)
    requires Inv(s) && s.value + AllGiven(es) < VALUE_WRAP && forall e :: e in es ==> !e.EvReset?
    ensures Run(s, es, c).value + AllGranted(s, es, c) == s.value + AllGiven(es)
    decreases |es|
  {
    hide Inv, Step, Granted;
    if es != [] {
      assert es[0] in es && forall e :: e in es[1..] ==> e in es;
      StepInv(s, es[0], c);
      StepBalance(s, es[0], c);
      RunBalance(Step(s, es[0], c), es[1..], c);
    }
  }

  // ---- what a call reports ----

  /** A take gets a unit if and only if there is one, goes to sleep if and only if there is none and it waits, and
      changes nothing else. */
  lemma TakeOutcome(s: Sem, t: Tid, wait: bool, c: Config)
    requires Inv(s) && Enabled(s, EvTake(t, wait))
    ensures var (s', r) := Take(s, t, wait, c);
      && (r.Taken? <==> s.value > 0) && s'.value == s.value - (if r.Taken? then 1 else 0)
      && (r.Asleep? <==> s.value == 0 && wait) && (r.Asleep? <==> t in s'.waiters)
      && if r.Asleep? then Joins(s.waiters, t, c, s'.waiters) else s'.waiters == s.waiters
  {
    SuspendJoins(s.waiters, t, c);
    SuspendKeeps(s.waiters, t, c.flag, c.prio);
    hide Suspend, Joins;
  }

  /** A release hands its unit to the first sleeper and else counts it; a timeout takes one thread off the list; a
      reset takes all and sets the value. */
  lemma OtherOutcome(s: Sem, t: Tid, value: nat)
    requires Inv(s)
    ensures s.waiters != [] ==> s.waiters == [s.waiters[0]] + Release(s).waiters && Release(s).value == 0
    ensures s.waiters == [] && s.value < VALUE_WRAP - 1 ==> Release(s) == Sem(s.value + 1, [])
    ensures Timeout(s, t).value == s.value && Leaves(s.waiters, t, Timeout(s, t).waiters)
    ensures value < VALUE_WRAP ==> Reset(s, value) == Sem(value, [])
  {
    WithoutLeaves(s.waiters, t);
    assert s.waiters != [] ==> s.waiters == [s.waiters[0]] + s.waiters[1..];
  }

  lemma StepOrder(s: Sem, e: Event, c: Config)
    requires Inv(s) && InOrder(s.waiters, c)
    ensures InOrder(Step(s, e, c).waiters, c)
  {
    OrderKept(s.waiters, if e.EvTake? || e.EvTimeout? then e.t else 0, c);
  }

  /** In every run of a semaphore with the priority flag, a release resumes one of the best sleepers. */
  lemma {:induction false} RunOrder(s: Sem, es: seq<Event>, c: Config)
    requires Inv(s) && InOrder(s.waiters, c)
    ensures var r := Run(s, es, c);
      InOrder(r.waiters, c) && (c.flag.PRIO? && r.waiters != [] ==> forall t :: t in r.waiters ==> c.prio(r.waiters[0]) <= c.prio(t))
    decreases |es|
  {
    if es == [] {
      if c.flag.PRIO? && s.waiters != [] { FirstIsBest(s.waiters, c); }
    } else {
      hide Inv, Step, InOrder;
      StepInv(s, es[0], c);
      StepOrder(s, es[0], c);
      RunOrder(Step(s, es[0], c), es[1..], c);
    }
  }
}

/** ipc.c: the semaphore object. */
module Semaphore {
  import opened IpcList
  import opened Lists
  import opened SemaphoreSpec
  import opened WaitList

  class RtSemaphore {
    const config: Config
    const suspendThread: RtIpcList
    var value: nat

    ghost function State(): Sem
      reads this, suspendThread
    {
      Sem(value, suspendThread.queue)
    }

    ghost predicate Valid()
      reads suspendThread, suspendThread.next, suspendThread.prev
    {
      suspendThread.Valid()
    }

    /** rt_sem_init: `next` and `prev` hold the links of all nodes, `head` is the node of the semaphore. */
    constructor (value: nat, flag: Flag, prio: Priorities, next: array<nat>, prev: array<nat>, head: nat)
      requires value < VALUE_WRAP && next != prev && next.Length == prev.Length && head < next.Length
      modifies next, prev
      ensures Valid() && State() == Sem(value, []) && Inv(State()) && config == Config(flag, prio)
      ensures fresh(suspendThread) && suspendThread.next == next && suspendThread.prev == prev && suspendThread.head == head
    {
      var list := new RtIpcList(next, prev, head);
      this.value, suspendThread, config := value, list, Config(flag, prio);
    }

    method TakeStep(thread: Tid, time: int) returns (r: Outcome)
      requires Valid() && suspendThread.Idle(thread)
      modifies this, suspendThread, suspendThread.next, suspendThread.prev
      ensures Valid() && (State(), r) == Take(old(State()), thread, time != 0, config)
    {
      if value > 0 {
        value := value - 1;
        r := Taken;
      } else if time == 0 {
        r := Refused;
      } else {
        suspendThread.RtIpcListSuspend(thread, config.flag, config.prio);
        r := Asleep;
      }
    }

    method ReleaseStep()
      requires Valid()
      modifies this, suspendThread, suspendThread.next, suspendThread.prev
      ensures Valid() && State() == Release(old(State()))
    {
      var empty := suspendThread.IsEmpty();
      if !empty {
        ghost var q := suspendThread.queue;
        var thread := suspendThread.RtIpcListResume();
        assert suspendThread.queue == q[1..];
      } else {
        value := (value + 1) % VALUE_WRAP;
      }
    }

    /** rt_thread_timeout on a thread that waits here. */
    method TimeoutStep(thread: Tid)
      requires Valid() && thread in suspendThread.queue
      modifies suspendThread, suspendThread.next, suspendThread.prev
      ensures Valid() && State() == Timeout(old(State()), thread)
    {
      suspendThread.Leave(thread);
    }

    method ResetStep(newValue: nat)
      requires Valid()
      modifies this, suspendThread, suspendThread.next, suspendThread.prev
      ensures Valid() && State() == Reset(old(State()), newValue)
    {
      ghost var resumed := suspendThread.RtIpcListResumeAll();
      value := newValue % VALUE_WRAP;
    }
  }
}
