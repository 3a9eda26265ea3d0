/** rt_mb_send_wait, rt_mb_recv and rt_mb_control(RESET) as atomic steps.

    Every stretch of code that runs with interrupts disabled is one step.  A
    call that finds the mailbox full (or empty) puts its thread to sleep at the
    end of a step; a thread that is resumed runs the same step again later, and
    any number of other steps may come in between. */
module MailboxSpec {
  import opened IpcList
  import opened Lists
  import opened Waiters

  type Mail = bv32

  datatype Outcome = Sent | Received(value: Mail) | Refused | Asleep

  datatype Box = Box(size: nat, queue: seq<Mail>, receivers: Side, senders: Side)

  /** While a receiver sleeps, every waiting mail has a resumed receiver coming for it;
      while a sender sleeps, every free slot has a resumed sender coming for it. */
  ghost predicate Inv(b: Box) {
    && |b.queue| <= b.size
    && Sound(b.receivers, |b.queue|) && Sound(b.senders, b.size - |b.queue|)
    && Separate(b.receivers, b.senders)
  }

  function Init(size: nat): Box {
    Box(size, [], NOBODY, NOBODY)
  }

  /** The step of a sending thread, at its call or when it runs again after a resume. */
  function Send(b: Box, t: Tid, value: Mail, wait: bool, c: Config): (r: (Box, Outcome)) {
    var b := b.(senders := Ran(b.senders, t));
    if |b.queue| == b.size then
      if !wait then (b, Refused)
      else (b.(senders := Sleep(b.senders, t, c.flag, c.prio)), Asleep)
    else (b.(queue := b.queue + [value], receivers := Wake(b.receivers)), Sent)
  }

  /** The step of a receiving thread. */
  function Recv(b: Box, t: Tid, wait: bool, c: Config): (r: (Box, Outcome)) {
    var b := b.(receivers := Ran(b.receivers, t));
    if b.queue == [] then
      if !wait then (b, Refused)
      else (b.(receivers := Sleep(b.receivers, t, c.flag, c.prio)), Asleep)
    else (b.(queue := b.queue[1..], senders := Wake(b.senders)), Received(b.queue[0]))
  }

  function Timeout(b: Box, t: Tid): Box {
    b.(receivers := TimedOut(b.receivers, t), senders := TimedOut(b.senders, t))
  }

  /** RT_IPC_CMD_RESET: every sleeper leaves with an error, and the ring is emptied. */
  function Reset(b: Box): Box {
    b.(queue := [], receivers := Flushed(b.receivers), senders := Flushed(b.senders))
  }

  datatype Event = EvSend(t: Tid, value: Mail, wait: bool) | EvRecv(t: Tid, wait: bool) | EvTimeout(t: Tid) | EvReset

  /** A sleeping thread runs nothing; a resumed one continues the call it is in. */
  predicate Enabled(b: Box, e: Event) {
    match e
    case EvSend(t, _, _) => t !in b.senders.asleep && !Waits(b.receivers, t)
    case EvRecv(t, _) => t !in b.receivers.asleep && !Waits(b.senders, t)
    case EvTimeout(t) => t in b.receivers.asleep || t in b.senders.asleep
    case EvReset => true
  }

  function Step(b: Box, e: Event, c: Config): Box {
    if !Enabled(b, e) then b else
    match e
    case EvSend(t, v, wait) => Send(b, t, v, wait, c).0
    case EvRecv(t, wait) => Recv(b, t, wait, c).0
    case EvTimeout(t) => Timeout(b, t)
    case EvReset => Reset(b)
  }

  function Run(b: Box, es: seq<Event>, c: Config): Box
    decreases |es|
  {
    if es == [] then b else Run(Step(b, es[0], c), es[1..], c)
  }

  // ---- no lost wakeup ----

  lemma SendInv(b: Box, t: Tid, v: Mail, wait: bool, c: Config)
    requires Inv(b) && Enabled(b, EvSend(t, v, wait))
    ensures Inv(Send(b, t, v, wait, c).0)
  {
    hide Sound, Waits, Wake, Sleep;
    NotWaiting(b.senders, t);
    RanKeeps(b.senders, t, b.size - |b.queue|);
    if |b.queue| == b.size {
      SleepKeeps(Ran(b.senders, t), t, c.flag, c.prio);
    } else {
      WakeKeeps(b.receivers, |b.queue|);
    }
  }

  lemma NotWaiting(s: Side, t: Tid)
    requires t !in s.asleep
    ensures !Waits(Ran(s, t), t)
  {
  }

  lemma RecvInv(b: Box, t: Tid, wait: bool, c: Config)
    requires Inv(b) && Enabled(b, EvRecv(t, wait))
    ensures Inv(Recv(b, t, wait, c).0)
  {
    hide Sound, Waits, Wake, Sleep;
    NotWaiting(b.receivers, t);
    RanKeeps(b.receivers, t, |b.queue|);
    if b.queue == [] {
      SleepKeeps(Ran(b.receivers, t), t, c.flag, c.prio);
    } else {
      WakeKeeps(b.senders, b.size - |b.queue|);
    }
  }

  lemma StepInv(b: Box, e: Event, c: Config)
    requires Inv(b)
    ensures Inv(Step(b, e, c))
  {
    if Enabled(b, e) {
      match e
      case EvSend(t, v, wait) => SendInv(b, t, v, wait, c);
      case EvRecv(t, wait) => RecvInv(b, t, wait, c);
      case EvTimeout(t) =>
        TimedOutKeeps(b.receivers, t, |b.queue|);
        TimedOutKeeps(b.senders, t, b.size - |b.queue|);
      case EvReset =>
        FlushedKeeps(b.receivers, |b.queue|);
        FlushedKeeps(b.senders, b.size - |b.queue|);
    }
  }

  /** No interleaving of sends, receives, timeouts and resets loses a wakeup. */
  lemma {:induction false} RunInv(b: Box, es: seq<Event>, c: Config)
    requires Inv(b)
    ensures Inv(Run(b, es, c))
    decreases |es|
  {
    if es != [] {
      StepInv(b, es[0], c);
      RunInv(Step(b, es[0], c), es[1..], c);
    }
  }

  /** Once every resumed thread has run, nobody sleeps on a condition that holds. */
  lemma NobodyStranded(size: nat, es: seq<Event>, c: Config)
    ensures var b := Run(Init(size), es, c);
      && (b.receivers.woken == {} && b.receivers.asleep != [] ==> b.queue == [])
      && (b.senders.woken == {} && b.senders.asleep != [] ==> |b.queue| == b.size)
  {
    RunInv(Init(size), es, c);
  }

  // ---- first in, first out ----

  /** The mail that event `e` puts into the box. */
  function SentBy(b: Box, e: Event): seq<Mail> {
    if Enabled(b, e) && e.EvSend? && |b.queue| < b.size then [e.value] else []
  }

  /** The mail that event `e` hands to its caller. */
  function GotBy(b: Box, e: Event, c: Config): seq<Mail> {
    if Enabled(b, e) && e.EvRecv? && Recv(b, e.t, e.wait, c).1.Received? then [Recv(b, e.t, e.wait, c).1.value] else []
  }

  function AllSent(b: Box, es: seq<Event>, c: Config): seq<Mail>
    decreases |es|
  {
    if es == [] then [] else SentBy(b, es[0]) + AllSent(Step(b, es[0], c), es[1..], c)
  }

  function AllGot(b: Box, es: seq<Event>, c: Config): seq<Mail>
    decreases |es|
  {
    if es == [] then [] else GotBy(b, es[0], c) + AllGot(Step(b, es[0], c), es[1..], c)
  }

  lemma QueueFits(b: Box)
    requires Inv(b)
    ensures |b.queue| <= b.size
  {
  }

  lemma StepFifo(b: Box, e: Event, c: Config)
    requires |b.queue| <= b.size && !e.EvReset?
    ensures b.queue + SentBy(b, e) == GotBy(b, e, c) + Step(b, e, c).queue
  {
  }

  /** Without a reset, the mails received and those still queued are the mails sent, in order and once each. */
  lemma {:induction false} RunFifo(b: Box, es: seq<Event>, c: Config)
    requires Inv(b) && forall e :: e in es ==> !e.EvReset?
    ensures b.queue + AllSent(b, es, c) == AllGot(b, es, c) + Run(b, es, c).queue
    decreases |es|
  {
    hide Inv, Step, SentBy, GotBy;
    if es != [] {
      var e := es[0];
      var b' := Step(b, e, c);
      assert e in es && forall e :: e in es[1..] ==> e in es;
      StepInv(b, e, c);
      RunFifo(b', es[1..], c);
      StepFifo(b, e, c) by { QueueFits(b); }
      var later := AllSent(b', es[1..], c);
      calc {
        b.queue + (SentBy(b, e) + later);
        (b.queue + SentBy(b, e)) + later;
        (GotBy(b, e, c) + b'.queue) + later;
        GotBy(b, e, c) + (b'.queue + later);
      }
      assert GotBy(b, e, c) + (AllGot(b', es[1..], c) + Run(b', es[1..], c).queue)
          == (GotBy(b, e, c) + AllGot(b', es[1..], c)) + Run(b', es[1..], c).queue;
    } else {
      assert b.queue + [] == [] + b.queue;
    }
  }

  // ---- what a call reports ----

  /** A send succeeds if and only if there is room, goes to sleep if and only if there is none and it waits, and
      resumes the first receiver if and only if it succeeds. */
  lemma SendOutcome(b: Box, t: Tid, v: Mail, wait: bool, c: Config)
    requires Inv(b) && Enabled(b, EvSend(t, v, wait))
    ensures var (b', r) := Send(b, t, v, wait, c);
      && (r.Sent? <==> |b.queue| < b.size) && b'.queue == b.queue + (if r.Sent? then [v] else [])
      && (r.Asleep? <==> |b.queue| == b.size && wait) && (r.Asleep? <==> t in b'.senders.asleep) && !r.Received?
      && (if r.Asleep? then Joins(b.senders.asleep, t, c, b'.senders.asleep) else b'.senders.asleep == b.senders.asleep)
      && b'.senders.woken == b.senders.woken - {t}
      && if r.Sent? then Resumed(b.receivers, b'.receivers) else b'.receivers == b.receivers
  {
    hide Sleep, Joins, Wake, Resumed, Sound, Waits;
    SleepJoins(b.senders, t, c, b.size - |b.queue|);
    WakesFirst(b.receivers);
  }

  /** A receive gets the oldest mail if and only if there is one, goes to sleep if and only if there is none and it
      waits, and resumes the first sender if and only if it succeeds. */
  lemma RecvOutcome(b: Box, t: Tid, wait: bool, c: Config)
    requires Inv(b) && Enabled(b, EvRecv(t, wait))
    ensures var (b', r) := Recv(b, t, wait, c);
      && (r.Received? <==> b.queue != []) && b.queue == (if r.Received? then [r.value] else []) + b'.queue
      && (r.Asleep? <==> b.queue == [] && wait) && (r.Asleep? <==> t in b'.receivers.asleep) && !r.Sent?
      && (if r.Asleep? then Joins(b.receivers.asleep, t, c, b'.receivers.asleep) else b'.receivers.asleep == b.receivers.asleep)
      && b'.receivers.woken == b.receivers.woken - {t}
      && if r.Received? then Resumed(b.senders, b'.senders) else b'.senders == b.senders
  {
    hide Sleep, Joins, Wake, Resumed, Sound, Waits;
    SleepJoins(b.receivers, t, c, |b.queue|);
    WakesFirst(b.senders);
  }

  /** A timeout takes one thread off the lists, a reset takes all and drops the mails; resumed threads stay resumed. */
  lemma OtherOutcome(b: Box, t: Tid)
    requires Inv(b)
    ensures var b' := Timeout(b, t);
      && Leaves(b.receivers.asleep, t, b'.receivers.asleep) && Leaves(b.senders.asleep, t, b'.senders.asleep)
      && b'.queue == b.queue && b'.receivers.woken == b.receivers.woken && b'.senders.woken == b.senders.woken
    ensures Reset(b) == Box(b.size, [], Side([], b.receivers.woken), Side([], b.senders.woken))
  {
    WithoutLeaves(b.receivers.asleep, t);
    WithoutLeaves(b.senders.asleep, t);
    hide Leaves, Without;
  }

  /** Both lists are in the order of the flag. */
  ghost predicate BothInOrder(b: Box, c: Config) {
    BestFirst(b.receivers, c) && BestFirst(b.senders, c)
  }

  lemma StepOrder(b: Box, e: Event, c: Config)
    requires Inv(b) && BothInOrder(b, c)
    ensures BothInOrder(Step(b, e, c), c)
  {
    var t := if e.EvReset? then 0 else e.t;
    SideOrder(b.receivers, t, c);
    SideOrder(b.senders, t, c);
    hide BestFirst, Wake, Ran, Sleep, TimedOut, Flushed;
  }

  /** In every interleaving of a mailbox with the priority flag, the thread that is resumed is one of the best that sleep. */
  lemma {:induction false} RunOrder(b: Box, es: seq<Event>, c: Config)
    requires Inv(b) && BothInOrder(b, c)
    ensures BothInOrder(Run(b, es, c), c)
    decreases |es|
  {
    hide Inv, Step, BothInOrder;
    if es != [] {
      StepInv(b, es[0], c);
      StepOrder(b, es[0], c);
      RunOrder(Step(b, es[0], c), es[1..], c);
    }
  }
}

/** ipc.c: the mailbox object, whose mails live in a ring buffer. */
module Mailbox {
  import opened IpcList
  import opened Lists
  import opened MailboxSpec
  import opened Waiters
  import opened WaitList

  /** The `n` slots from `first` on, around the end of the pool. */
  ghost function Window(pool: seq<Mail>, first: nat, n: nat): (r: seq<Mail>)
    requires n <= |pool| && first <= |pool|
    ensures |r| == n
  {
    if first + n <= |pool| then pool[first..first + n] else pool[first..] + pool[..first + n - |pool|]
  }

  /** The slot `k` places after `first`. */
  function Around(size: nat, first: nat, k: nat): (i: nat)
    requires first < size && k <= size
    ensures i < size
  {
    if first + k < size then first + k else first + k - size
  }

  lemma WindowPut(pool: seq<Mail>, first: nat, n: nat, value: Mail)
    requires first < |pool| && n < |pool|
    ensures Window(pool[Around(|pool|, first, n) := value], first, n + 1) == Window(pool, first, n) + [value]
  {
  }

  lemma WindowGet(pool: seq<Mail>, first: nat, n: nat)
    requires first < |pool| && 0 < n <= |pool|
    ensures Window(pool, first, n) == [pool[first]] + Window(pool, Around(|pool|, first, 1), n - 1)
  {
    if first + n <= |pool| {
      assert pool[first..first + n] == [pool[first]] + pool[first + 1..first + n];
      hide Window;
      WindowStraight(pool, first, n);
      if first + 1 < |pool| {
        WindowStraight(pool, first + 1, n - 1);
      } else {
        WindowStraight(pool, 0, 0);
      }
    } else {
      WindowSplits(pool, first, n);
    }
  }

  lemma WindowStraight(pool: seq<Mail>, first: nat, n: nat)
    requires first + n <= |pool|
    ensures Window(pool, first, n) == pool[first..first + n]
  {
  }

  /** A window that goes around the end. */
  lemma WindowSplits(pool: seq<Mail>, first: nat, n: nat)
    requires first < |pool| && n <= |pool| < first + n
    ensures Window(pool, first, n) == [pool[first]] + Window(pool, Around(|pool|, first, 1), n - 1)
  {
    var rest := pool[..first + n - |pool|];
    assert pool[first..] == [pool[first]] + pool[first + 1..];
    assert [pool[first]] + pool[first + 1..] + rest == [pool[first]] + (pool[first + 1..] + rest);
    if first + 1 == |pool| {
      assert pool[first + 1..] == [] && [] + rest == rest;
    }
  }

  class RtMailbox {
    const msgPool: array<Mail>
    const config: Config
    const lists: RtIpcLists             // suspend_thread and suspend_sender_thread
    var entry: nat
    var inOffset: nat
    var outOffset: nat
    ghost var recvWoken: set<Tid>
    ghost var sendWoken: set<Tid>

    /** The mails in the ring, oldest first. */
    ghost function Queue(): seq<Mail>
      requires Ring()
      reads this`entry, this`inOffset, this`outOffset, msgPool
    {
      Window(msgPool[..], outOffset, entry)
    }

    ghost predicate Ring()
      reads this`entry, this`inOffset, this`outOffset
    {
      var size := msgPool.Length;
      && entry <= size
      && (if size == 0 then inOffset == outOffset == 0
          else outOffset < size && inOffset == Around(size, outOffset, entry))
    }

    ghost function State(): Box
      requires Ring()
      reads this, msgPool, lists.receivers, lists.senders
    {
      Box(msgPool.Length, Queue(), Side(lists.receivers.queue, recvWoken), Side(lists.senders.queue, sendWoken))
    }

    ghost predicate Valid()
      reads this`entry, this`inOffset, this`outOffset
      reads lists.receivers, lists.senders, lists.receivers.next, lists.receivers.prev, lists.senders.next, lists.senders.prev
    {
      Ring() && lists.Valid() && (msgPool as object) != lists.receivers.next && (msgPool as object) != lists.receivers.prev
    }

    /** rt_mb_init; the size of a mailbox is a 16-bit field.  `next` and `prev` hold the links of all nodes,
        `head` and `senderHead` are the nodes of the mailbox. */
    constructor (size: nat, pool: array<Mail>, flag: Flag, prio: Priorities, next: array<nat>, prev: array<nat>, head: nat, senderHead: nat)
      requires pool.Length == size % 0x1_0000
      requires next != prev && next.Length == prev.Length && head < next.Length && senderHead < next.Length && head != senderHead
      requires (pool as object) != next && (pool as object) != prev
      modifies next, prev
      ensures Valid() && State() == Init(pool.Length)
      ensures msgPool == pool && config == Config(flag, prio) && fresh(lists.receivers) && fresh(lists.senders)
      ensures lists.receivers.next == next && lists.receivers.prev == prev && lists.receivers.head == head && lists.senders.head == senderHead
    {
      var both := new RtIpcLists(next, prev, head, senderHead);
      msgPool, config, lists := pool, Config(flag, prio), both;
      entry, inOffset, outOffset := 0, 0, 0;
      recvWoken, sendWoken := {}, {};
    }

    lemma QueueLength()
      requires Ring()
      ensures |Queue()| == entry <= msgPool.Length
    {
    }

    /** Stores a mail behind the youngest one. */
    method RingPut(value: Mail)
      requires Ring() && entry < msgPool.Length
      modifies this`entry, this`inOffset, msgPool
      ensures Ring() && Queue() == old(Queue()) + [value]
    {
      hide Window;
      WindowPut(msgPool[..], outOffset, entry, value);
      msgPool[inOffset] := value;
      inOffset := inOffset + 1;
      if inOffset >= msgPool.Length {
        inOffset := 0;
      }
      entry := entry + 1;
    }

    /** Takes the oldest mail out. */
    method RingGet() returns (value: Mail)
      requires Ring() && entry > 0
      modifies this`entry, this`outOffset
      ensures Ring() && [value] + Queue() == old(Queue())
    {
      hide Window;
      WindowGet(msgPool[..], outOffset, entry);
      value := msgPool[outOffset];
      outOffset := outOffset + 1;
      if outOffset >= msgPool.Length {
        outOffset := 0;
      }
      entry := entry - 1;
    }

    /** Resumes the first receiver, if one waits. */
    method WakeReceiver()
      requires lists.Valid()
      modifies this`recvWoken, lists.receivers, lists.receivers.next, lists.receivers.prev
      ensures lists.Valid() && Side(lists.receivers.queue, recvWoken) == Wake(old(Side(lists.receivers.queue, recvWoken)))
    {
      var empty := lists.receivers.IsEmpty();
      if !empty {
        ghost var q := lists.receivers.queue;
        var thread := lists.ResumeReceiver();
        assert thread == q[0] && lists.receivers.queue == q[1..];
        recvWoken := recvWoken + {thread};
      }
    }

    method WakeSender()
      requires lists.Valid()
      modifies this`sendWoken, lists.senders, lists.senders.next, lists.senders.prev
      ensures lists.Valid() && Side(lists.senders.queue, sendWoken) == Wake(old(Side(lists.senders.queue, sendWoken)))
    {
      var empty := lists.senders.IsEmpty();
      if !empty {
        ghost var q := lists.senders.queue;
        var thread := lists.ResumeSender();
        assert thread == q[0] && lists.senders.queue == q[1..];
        sendWoken := sendWoken + {thread};
      }
    }

    /** One step of rt_mb_send_wait. */
    method SendStep(thread: Tid, value: Mail, timeout: int) returns (r: Outcome)
      requires Valid() && lists.Idle(thread)
      modifies this, msgPool, lists.receivers, lists.senders, lists.receivers.next, lists.receivers.prev
      ensures Valid() && (State(), r) == Send(old(State()), thread, value, timeout != 0, config)
    {
      hide Suspend, Ring, Queue, Wake;
      QueueLength();
      sendWoken := sendWoken - {thread};
      if entry == msgPool.Length {
        r := Refused;
        if timeout != 0 {
          lists.SuspendSender(thread, config);
          r := Asleep;
        }
      } else {
        RingPut(value);
        WakeReceiver();
        r := Sent;
      }
    }

    /** One step of rt_mb_recv. */
    method RecvStep(thread: Tid, timeout: int) returns (r: Outcome)
      requires Valid() && lists.Idle(thread)
      modifies this, lists.receivers, lists.senders, lists.receivers.next, lists.receivers.prev
      ensures Valid() && (State(), r) == Recv(old(State()), thread, timeout != 0, config)
    {
      hide Suspend, Ring, Queue, Wake;
      QueueLength();
      recvWoken := recvWoken - {thread};
      if entry == 0 {
        r := Refused;
        if timeout != 0 {
          lists.SuspendReceiver(thread, config);
          r := Asleep;
        }
      } else {
        ghost var q := Queue();
        var value := RingGet();
        assert Queue() == q[1..] && value == q[0];
        WakeSender();
        r := Received(value);
      }
    }

    /** rt_mb_control with RT_IPC_CMD_RESET: the sleepers are resumed one by one. */
    method ResetStep()
      requires Valid()
      modifies this, lists.receivers, lists.senders, lists.receivers.next, lists.receivers.prev
      ensures Valid() && State() == Reset(old(State()))
    {
      lists.ResumeAll();
      entry, inOffset, outOffset := 0, 0, 0;
      assert Queue() == [];
    }

    /** rt_thread_timeout on a thread that sleeps here. */
    method TimeoutStep(thread: Tid)
      requires Valid() && (thread in lists.receivers.queue || thread in lists.senders.queue)
      modifies lists.receivers, lists.senders, lists.receivers.next, lists.receivers.prev
      ensures Valid() && State() == Timeout(old(State()), thread)
    {
      lists.Leave(thread);
    }
  }
}
