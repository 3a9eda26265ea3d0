/** One side of a blocking object: the threads that sleep on it, and the threads that were resumed
    without an error but have not run again yet.

    A resumed thread does not own what it was woken for.  It looks at the object again when it
    runs, and any other thread may have been there first. */
module Waiters {
  import opened IpcList
  import opened Lists

  datatype Side = Side(asleep: seq<Tid>, woken: set<Tid>)

  const NOBODY: Side := Side([], {})

  predicate Waits(s: Side, t: Tid) {
    t in s.asleep || t in s.woken
  }

  /** Nobody is listed twice, and while a thread sleeps, each of the `available` items it could
      take has a resumed thread coming for it. */
  ghost predicate Sound(s: Side, available: int) {
    && Distinct(s.asleep)
    && (forall t :: t in s.asleep ==> t !in s.woken)
    && (s.asleep != [] ==> available <= |s.woken|)
  }

  /** No thread waits on both sides. */
  ghost predicate Separate(a: Side, b: Side) {
    forall t :: !(Waits(a, t) && Waits(b, t))
  }

  /** Resumes the first sleeper, if there is one. */
  function Wake(s: Side): Side {
    if s.asleep == [] then s else Side(s.asleep[1..], s.woken + {s.asleep[0]})
  }

  /** Thread `t` runs. */
  function Ran(s: Side, t: Tid): Side {
    s.(woken := s.woken - {t})
  }

  function Sleep(s: Side, t: Tid, flag: Flag, prio: Priorities): Side {
    s.(asleep := Suspend(s.asleep, t, flag, prio))
  }

  /** rt_thread_timeout: the thread leaves the list with an error and will not look at the object again. */
  function TimedOut(s: Side, t: Tid): Side {
    s.(asleep := Without(s.asleep, t))
  }

  /** rt_ipc_list_resume_all: every sleeper leaves with an error. */
  function Flushed(s: Side): Side {
    s.(asleep := [])
  }

  /** One more item, one more thread coming. */
  lemma WakeKeeps(s: Side, available: int)
    requires Sound(s, available)
    ensures Sound(Wake(s), available + 1)
    ensures forall t :: Waits(Wake(s), t) <==> Waits(s, t)
  {
    if s.asleep != [] {
      var t, q := s.asleep[0], s.asleep[1..];
      assert s.asleep == [t] + q;
      assert |s.woken + {t}| == |s.woken| + 1;
    }
  }

  /** The thread that runs takes an item, unless there is none. */
  lemma RanKeeps(s: Side, t: Tid, available: int)
    requires Sound(s, available)
    ensures Sound(Ran(s, t), if available > 0 then available - 1 else 0)
    ensures forall x :: Waits(Ran(s, t), x) ==> Waits(s, x)
    ensures t !in s.asleep ==> !Waits(Ran(s, t), t)
  {
    if t !in s.woken {
      assert s.woken - {t} == s.woken;
    }
  }

  lemma SleepKeeps(s: Side, t: Tid, flag: Flag, prio: Priorities)
    requires Sound(s, 0) && !Waits(s, t)
    ensures Sound(Sleep(s, t, flag, prio), 0)
    ensures forall x :: Waits(Sleep(s, t, flag, prio), x) <==> Waits(s, x) || x == t
  {
    SuspendKeeps(s.asleep, t, flag, prio);
  }

  lemma TimedOutKeeps(s: Side, t: Tid, available: int)
    requires Sound(s, available)
    ensures Sound(TimedOut(s, t), available)
    ensures forall x :: Waits(TimedOut(s, t), x) ==> Waits(s, x)
  {
    WithoutMembers(s.asleep, t);
  }

  lemma FlushedKeeps(s: Side, available: int)
    requires Sound(s, available)
    ensures forall n :: Sound(Flushed(s), n)
    ensures forall t :: Waits(Flushed(s), t) ==> Waits(s, t)
  {
  }

  /** Exactly the first sleeper was resumed, if there was one. */
  ghost predicate Resumed(s: Side, s': Side) {
    if s.asleep == [] then s' == s else s.asleep == [s.asleep[0]] + s'.asleep && s'.woken == s.woken + {s.asleep[0]}
  }

  lemma WakesFirst(s: Side)
    ensures Resumed(s, Wake(s))
  {
    assert s.asleep != [] ==> s.asleep == [s.asleep[0]] + s.asleep[1..];
  }

  /** The thread that goes to sleep joins the others by the rule of the flag. */
  lemma SleepJoins(s: Side, t: Tid, c: Config, available: int)
    requires Sound(s, available) && t !in s.asleep
    ensures var s' := Sleep(Ran(s, t), t, c.flag, c.prio);
      Joins(s.asleep, t, c, s'.asleep) && t in s'.asleep && s'.woken == s.woken - {t}
  {
    SuspendJoins(s.asleep, t, c);
    SuspendKeeps(s.asleep, t, c.flag, c.prio);
    hide Suspend, Joins;
  }

  /** Under the priority flag the sleepers stand in order, and the thread that is resumed next is one of the best. */
  ghost predicate BestFirst(s: Side, c: Config) {
    InOrder(s.asleep, c) && (c.flag.PRIO? && s.asleep != [] ==> forall t :: t in s.asleep ==> c.prio(s.asleep[0]) <= c.prio(t))
  }

  lemma BestFirstIs(s: Side, c: Config)
    ensures BestFirst(s, c) <==> InOrder(s.asleep, c)
  {
    if c.flag.PRIO? && InOrder(s.asleep, c) && s.asleep != [] {
      FirstIsBest(s.asleep, c);
    }
  }

  lemma SideOrder(s: Side, t: Tid, c: Config)
    requires Distinct(s.asleep) && BestFirst(s, c)
    ensures BestFirst(Wake(s), c) && BestFirst(Ran(s, t), c) && BestFirst(TimedOut(s, t), c) && BestFirst(Flushed(s), c)
    ensures BestFirst(Sleep(s, t, c.flag, c.prio), c) && BestFirst(Sleep(Ran(s, t), t, c.flag, c.prio), c)
  {
    OrderKept(s.asleep, t, c);
    hide InOrder, BestFirst, Suspend, Without;
    BestFirstIs(s, c);
    BestFirstIs(Wake(s), c);
    BestFirstIs(Ran(s, t), c);
    BestFirstIs(TimedOut(s, t), c);
    BestFirstIs(Flushed(s), c) by { hide *; NoneInOrder(c); }
    BestFirstIs(Sleep(s, t, c.flag, c.prio), c);
    BestFirstIs(Sleep(Ran(s, t), t, c.flag, c.prio), c);
    NoneInOrder(c);
  }

  lemma NoneInOrder(c: Config)
    ensures InOrder([], c)
  {
  }
}
