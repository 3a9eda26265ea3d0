/** rt_mq_send_wait, rt_mq_urgent, rt_mq_recv and rt_mq_control(RESET) as atomic steps.

    A send takes a free node in one step, fills it with interrupts enabled, and links it in another
    step; a receive unlinks a node, copies it out, and gives it back.  Nodes that are in neither list
    in between are in flight, held by one thread each. */
module MsgQueueSpec {
  import opened IpcList
  import opened Lists
  import opened Waiters

  type Byte = bv8

  type Message = seq<Byte>

  datatype Flight = Filling(node: nat, urgent: bool) | Draining(node: nat)

  datatype Outcome = Taken(node: nat) | Refused | Rejected | Asleep

  datatype Queue = Queue(
    max: nat, msgSize: nat, free: seq<nat>, queued: seq<nat>, content: seq<Message>, flight: map<Tid, Flight>,
    receivers: Side, senders: Side)

  predicate InFlight(q: Queue, x: nat) {
    exists t :: t in q.flight && q.flight[t].node == x
  }

  /** Every node is in exactly one place. */
  ghost predicate Partition(q: Queue) {
    && Distinct(q.free) && Distinct(q.queued)
    && (forall x :: x in q.free ==> x < q.max && x !in q.queued && !InFlight(q, x))
    && (forall x :: x in q.queued ==> x < q.max && !InFlight(q, x))
    && (forall t :: t in q.flight ==> q.flight[t].node < q.max)
    && (forall t, u :: t in q.flight && u in q.flight && t != u ==> q.flight[t].node != q.flight[u].node)
    && (forall x :: 0 <= x < q.max ==> x in q.free || x in q.queued || InFlight(q, x))
    && |q.free| + |q.queued| + |q.flight| == q.max
  }

  ghost predicate Sized(q: Queue) {
    |q.content| == q.max && forall x :: 0 <= x < q.max ==> |q.content[x]| == q.msgSize
  }

  /** While a receiver sleeps, every queued message has a resumed receiver coming for it; while a
      sender sleeps, every free node has a resumed sender coming for it. */
  ghost predicate NoLostWakeup(q: Queue) {
    Sound(q.receivers, |q.queued|) && Sound(q.senders, |q.free|) && Separate(q.receivers, q.senders)
  }

  ghost predicate Inv(q: Queue) {
    Partition(q) && Sized(q) && NoLostWakeup(q)
  }

  // ---- the steps ----

  /** rt_mq_init: the free list is built by pushing the nodes in address order. */
  function Init(max: nat, msgSize: nat, content: seq<Message>): Queue {
    Queue(max, msgSize, Pushed(seq(max, i => i), []), [], content, map[], NOBODY, NOBODY)
  }

  /** `xs` pushed in front of `onto`, first to last. */
  function Pushed(xs: seq<nat>, onto: seq<nat>): (r: seq<nat>)
    ensures |r| == |xs| + |onto|
    ensures forall x :: x in r <==> x in xs || x in onto
  {
    if xs == [] then onto else
    assert xs == [xs[0]] + xs[1..];
    Pushed(xs[1..], [xs[0]] + onto)
  }

  /** A free node for a message of `size` bytes, at the call or after a resume. */
  function TakeFree(q: Queue, t: Tid, size: nat, wait: bool, urgent: bool, c: Config): (r: (Queue, Outcome)) {
    if size > q.msgSize then (q, Rejected) else
    var q := if urgent then q else q.(senders := Ran(q.senders, t));
    if q.free == [] then
      if !wait || urgent then (q, Refused)
      else (q.(senders := Sleep(q.senders, t, c.flag, c.prio)), Asleep)
    else (q.(free := q.free[1..], flight := q.flight[t := Filling(q.free[0], urgent)]), Taken(q.free[0]))
  }

  function Overwrite(buffer: Message, under: Message): Message {
    if |buffer| <= |under| then buffer + under[|buffer|..] else buffer
  }

  /** rt_memcpy into the node in hand. */
  function CopyIn(q: Queue, t: Tid, buffer: Message): Queue
    requires t in q.flight && q.flight[t].node < |q.content|
  {
    var n := q.flight[t].node;
    q.(content := q.content[n := Overwrite(buffer, q.content[n])])
  }

  /** rt_memcpy out of the node in hand. */
  function CopyOut(q: Queue, t: Tid, size: nat): (r: Message)
    requires t in q.flight && q.flight[t].node < |q.content|
  {
    var m := q.content[q.flight[t].node];
    if size <= |m| then m[..size] else m
  }

  /** The node in hand joins the queue: an urgent message goes first. */
  function Link(q: Queue, t: Tid): Queue
    requires t in q.flight && q.flight[t].Filling?
  {
    var n := q.flight[t].node;
    q.(queued := if q.flight[t].urgent then [n] + q.queued else q.queued + [n], flight := q.flight - {t},
       receivers := Wake(q.receivers))
  }

  /** The first message leaves the queue. */
  function TakeFirst(q: Queue, t: Tid, wait: bool, c: Config): (r: (Queue, Outcome)) {
    var q := q.(receivers := Ran(q.receivers, t));
    if q.queued == [] then
      if !wait then (q, Refused)
      else (q.(receivers := Sleep(q.receivers, t, c.flag, c.prio)), Asleep)
    else (q.(queued := q.queued[1..], flight := q.flight[t := Draining(q.queued[0])]), Taken(q.queued[0]))
  }

  /** The emptied node goes back to the free list. */
  function Release(q: Queue, t: Tid): Queue
    requires t in q.flight
  {
    q.(free := [q.flight[t].node] + q.free, flight := q.flight - {t}, senders := Wake(q.senders))
  }

  function Timeout(q: Queue, t: Tid): Queue {
    q.(receivers := TimedOut(q.receivers, t), senders := TimedOut(q.senders, t))
  }

  /** RT_IPC_CMD_RESET: the sleepers leave with an error, the queued nodes become free. */
  function Reset(q: Queue): Queue {
    q.(free := Pushed(q.queued, q.free), queued := [], receivers := Flushed(q.receivers), senders := Flushed(q.senders))
  }

  datatype Event =
    | EvTake(t: Tid, size: nat, wait: bool, urgent: bool)
    | EvFill(t: Tid, buffer: Message)
    | EvLink(t: Tid)
    | EvReceive(t: Tid, wait: bool)
    | EvRelease(t: Tid)
    | EvTimeout(t: Tid)
    | EvReset

  /** A sleeping thread runs nothing, a resumed one continues its call, one with a node in hand goes on with it. */
  predicate Enabled(q: Queue, e: Event) {
    match e
    case EvTake(t, _, _, _) => t !in q.flight && t !in q.senders.asleep && !Waits(q.receivers, t)
    case EvFill(t, buffer) => t in q.flight && q.flight[t].Filling? && |buffer| <= q.msgSize
    case EvLink(t) => t in q.flight && q.flight[t].Filling?
    case EvReceive(t, _) => t !in q.flight && t !in q.receivers.asleep && !Waits(q.senders, t)
    case EvRelease(t) => t in q.flight && q.flight[t].Draining?
    case EvTimeout(t) => t in q.receivers.asleep || t in q.senders.asleep
    case EvReset => true
  }

  function Step(q: Queue, e: Event, c: Config): Queue
    requires Inv(q)
  {
    if !Enabled(q, e) then q else
    match e
    case EvTake(t, size, wait, urgent) => TakeFree(q, t, size, wait, urgent, c).0
    case EvFill(t, buffer) => CopyIn(q, t, buffer)
    case EvLink(t) => Link(q, t)
    case EvReceive(t, wait) => TakeFirst(q, t, wait, c).0
    case EvRelease(t) => Release(q, t)
    case EvTimeout(t) => Timeout(q, t)
    case EvReset => Reset(q)
  }

  // ---- conservation of nodes ----

  /** Thread `t` takes up the node `n`. */
  lemma Lifted(q: Queue, q': Queue, t: Tid, n: nat)
    requires t !in q.flight && !InFlight(q, n)
    requires t in q'.flight && q'.flight[t].node == n && q'.flight == q.flight[t := q'.flight[t]]
    ensures forall x :: InFlight(q', x) <==> InFlight(q, x) || x == n
    ensures |q'.flight| == |q.flight| + 1
  {
    forall x | InFlight(q, x)
      ensures InFlight(q', x)
    {
      var u :| u in q.flight && q.flight[u].node == x;
      assert q'.flight[u].node == x;
    }
    assert InFlight(q', n);
  }

  /** Thread `t` lays its node down. */
  lemma Laid(q: Queue, q': Queue, t: Tid)
    requires Partition(q) && t in q.flight && q'.flight == q.flight - {t}
    ensures forall x :: InFlight(q', x) <==> InFlight(q, x) && x != q.flight[t].node
    ensures |q'.flight| == |q.flight| - 1 && InFlight(q, q.flight[t].node)
  {
    forall x | InFlight(q, x) && x != q.flight[t].node
      ensures InFlight(q', x)
    {
      var u :| u in q.flight && q.flight[u].node == x;
      assert u in q'.flight && q'.flight[u].node == x;
    }
    assert q'.flight.Keys == q.flight.Keys - {t};
  }

  /** A free node goes to a thread. */
  lemma FreeToFlight(q: Queue, q': Queue, t: Tid)
    requires Partition(q) && q.free != [] && t !in q.flight
    requires t in q'.flight && q'.flight[t].node == q.free[0] && q'.flight == q.flight[t := q'.flight[t]]
    requires q'.free == q.free[1..] && q'.queued == q.queued && q'.max == q.max
    ensures Partition(q')
  {
    hide InFlight;
    assert q.free[0] in q.free;
    Lifted(q, q', t, q.free[0]);
    TailDistinct(q.free);
    FlightsApart(q, t);
  }

  lemma FlightsApart(q: Queue, t: Tid)
    ensures forall u :: u in q.flight ==> InFlight(q, q.flight[u].node)
  {
  }

  lemma TakeFreeKeeps(q: Queue, t: Tid, size: nat, wait: bool, urgent: bool, c: Config)
    requires Inv(q) && Enabled(q, EvTake(t, size, wait, urgent))
    ensures Inv(TakeFree(q, t, size, wait, urgent, c).0)
  {
    hide Partition, NoLostWakeup;
    var q' := TakeFree(q, t, size, wait, urgent, c).0;
    TakeFreeWakes(q, t, size, wait, urgent, c);
    if q.free != [] && size <= q.msgSize {
      FreeToFlight(q, q', t);
    } else {
      SamePlaces(q, q');
    }
  }

  lemma SamePlaces(q: Queue, q': Queue)
    requires Partition(q)
    requires q'.free == q.free && q'.queued == q.queued && q'.flight == q.flight && q'.max == q.max
    ensures Partition(q')
  {
    hide InFlight;
    SameFlight(q, q');
  }

  lemma SameFlight(q: Queue, q': Queue)
    requires q'.flight == q.flight
    ensures forall x :: InFlight(q', x) <==> InFlight(q, x)
  {
  }

  lemma TakeFreeWakes(q: Queue, t: Tid, size: nat, wait: bool, urgent: bool, c: Config)
    requires NoLostWakeup(q) && Enabled(q, EvTake(t, size, wait, urgent))
    ensures NoLostWakeup(TakeFree(q, t, size, wait, urgent, c).0)
  {
    hide Waits, Sleep;
    RanKeeps(q.senders, t, |q.free|);
    if q.free == [] {
      SleepKeeps(Ran(q.senders, t), t, c.flag, c.prio);
    }
  }

  /** The node in hand joins the queue at either end. */
  lemma FlightToQueue(q: Queue, q': Queue, t: Tid)
    requires Partition(q) && t in q.flight
    requires q'.queued == [q.flight[t].node] + q.queued || q'.queued == q.queued + [q.flight[t].node]
    requires q'.flight == q.flight - {t} && q'.free == q.free && q'.max == q.max
    ensures Partition(q')
  {
    hide InFlight;
    Laid(q, q', t);
    FlightsApart(q, t);
    FlightsApart(q', t);
    var n := q.flight[t].node;
    assert forall x :: x in q'.queued <==> x in q.queued || x == n;
  }

  /** A receiver takes the first queued node. */
  lemma QueueToFlight(q: Queue, q': Queue, t: Tid)
    requires Partition(q) && q.queued != [] && t !in q.flight
    requires t in q'.flight && q'.flight[t].node == q.queued[0] && q'.flight == q.flight[t := q'.flight[t]]
    requires q'.queued == q.queued[1..] && q'.free == q.free && q'.max == q.max
    ensures Partition(q')
  {
    hide InFlight;
    assert q.queued[0] in q.queued;
    Lifted(q, q', t, q.queued[0]);
    TailDistinct(q.queued);
    FlightsApart(q, t);
  }

  /** The node in hand becomes free. */
  lemma FlightToFree(q: Queue, q': Queue, t: Tid)
    requires Partition(q) && t in q.flight
    requires q'.free == [q.flight[t].node] + q.free
    requires q'.flight == q.flight - {t} && q'.queued == q.queued && q'.max == q.max
    ensures Partition(q')
  {
    hide InFlight;
    Laid(q, q', t);
    FlightsApart(q, t);
    FlightsApart(q', t);
    assert forall x :: x in q'.free <==> x in q.free || x == q.flight[t].node;
  }

  lemma {:induction false} PushedDistinct(xs: seq<nat>, onto: seq<nat>)
    requires Distinct(xs) && Distinct(onto) && forall x :: x in xs ==> x !in onto
    ensures Distinct(Pushed(xs, onto))
  {
    if xs != [] {
      TailDistinct(xs);
      assert xs[0] in xs;
      assert Distinct([xs[0]] + onto);
      PushedDistinct(xs[1..], [xs[0]] + onto);
    }
  }

  lemma ResetKeeps(q: Queue)
    requires Inv(q)
    ensures Inv(Reset(q))
  {
    hide Sound, Waits, InFlight;
    SameFlight(q, Reset(q));
    PushedDistinct(q.queued, q.free);
    FlushedKeeps(q.receivers, |q.queued|);
    FlushedKeeps(q.senders, |q.free|);
  }

  lemma TakeFirstKeeps(q: Queue, t: Tid, wait: bool, c: Config)
    requires Inv(q) && Enabled(q, EvReceive(t, wait))
    ensures Inv(TakeFirst(q, t, wait, c).0)
  {
    hide Partition, Waits, Sleep;
    RanKeeps(q.receivers, t, |q.queued|);
    var q' := TakeFirst(q, t, wait, c).0;
    if q.queued != [] {
      QueueToFlight(q, q', t);
    } else {
      SleepKeeps(Ran(q.receivers, t), t, c.flag, c.prio);
      SamePlaces(q, q');
    }
  }

  lemma LinkKeeps(q: Queue, t: Tid)
    requires Inv(q) && Enabled(q, EvLink(t))
    ensures Inv(Link(q, t))
  {
    hide Partition, Sound, Waits, Wake;
    FlightToQueue(q, Link(q, t), t);
    WakeKeeps(q.receivers, |q.queued|);
  }

  lemma ReleaseKeeps(q: Queue, t: Tid)
    requires Inv(q) && Enabled(q, EvRelease(t))
    ensures Inv(Release(q, t))
  {
    hide Partition, Sound, Waits, Wake;
    FlightToFree(q, Release(q, t), t);
    WakeKeeps(q.senders, |q.free|);
  }

  lemma CopyInKeeps(q: Queue, t: Tid, buffer: Message)
    requires Inv(q) && Enabled(q, EvFill(t, buffer))
    ensures Inv(CopyIn(q, t, buffer))
  {
    hide Sound, Waits;
    SamePlaces(q, CopyIn(q, t, buffer));
  }

  lemma TimeoutKeeps(q: Queue, t: Tid)
    requires Inv(q)
    ensures Inv(Timeout(q, t))
  {
    hide Partition, Sound, Waits, TimedOut;
    TimedOutKeeps(q.receivers, t, |q.queued|);
    TimedOutKeeps(q.senders, t, |q.free|);
    SamePlaces(q, Timeout(q, t));
  }

  lemma StepInv(q: Queue, e: Event, c: Config)
    requires Inv(q)
    ensures Inv(Step(q, e, c))
  {
    hide Partition, NoLostWakeup;
    if Enabled(q, e) {
      match e
      case EvTake(t, size, wait, urgent) => TakeFreeKeeps(q, t, size, wait, urgent, c);
      case EvFill(t, buffer) => CopyInKeeps(q, t, buffer);
      case EvLink(t) => LinkKeeps(q, t);
      case EvReceive(t, wait) => TakeFirstKeeps(q, t, wait, c);
      case EvRelease(t) => ReleaseKeeps(q, t);
      case EvTimeout(t) => TimeoutKeeps(q, t);
      case EvReset => ResetKeeps(q);
    }
  }

  lemma InitInv(max: nat, msgSize: nat, content: seq<Message>)
    requires |content| == max && forall x :: 0 <= x < max ==> |content[x]| == msgSize
    ensures Inv(Init(max, msgSize, content))
  {
    var all := seq(max, i => i);
    PushedDistinct(all, []);
    forall x | 0 <= x < max
      ensures x in all
    {
      assert all[x] == x;
    }
  }

  /** The state after the steps `es`. */
  function Run(q: Queue, es: seq<Event>, c: Config): (r: Queue)
    requires Inv(q)
    ensures Inv(r)
    decreases |es|
  {
    if es == [] then q else
    StepInv(q, es[0], c);
    Run(Step(q, es[0], c), es[1..], c)
  }

  /** In every interleaving every node is free, queued or in exactly one hand, and once the resumed
      threads have run, nobody sleeps on a condition that holds. */
  lemma RunConserves(q: Queue, es: seq<Event>, c: Config)
    requires Inv(q)
    ensures var r := Run(q, es, c);
      && Partition(r)
      && |r.free| + |r.queued| + |r.flight| == q.max
      && (r.receivers.woken == {} && r.receivers.asleep != [] ==> r.queued == [])
      && (r.senders.woken == {} && r.senders.asleep != [] ==> r.free == [])
  {
    RunMax(q, es, c);
  }

  lemma {:induction false} RunMax(q: Queue, es: seq<Event>, c: Config)
    requires Inv(q)
    ensures Run(q, es, c).max == q.max
    decreases |es|
  {
    hide Inv;
    if es != [] {
      StepInv(q, es[0], c);
      RunMax(Step(q, es[0], c), es[1..], c);
    }
  }

  // ---- a deque of messages ----

  /** The messages in the queue, first to last. */
  ghost function View(q: Queue): seq<Message>
    requires Inv(q)
  {
    seq(|q.queued|, i requires 0 <= i < |q.queued| => assert q.queued[i] in q.queued; q.content[q.queued[i]])
  }

  datatype DequeOp = PushBack(m: Message) | PushFront(m: Message) | PopFront | Clear | Keep

  function Apply(d: seq<Message>, op: DequeOp): seq<Message> {
    match op
    case PushBack(m) => d + [m]
    case PushFront(m) => [m] + d
    case PopFront => if d == [] then d else d[1..]
    case Clear => []
    case Keep => d
  }

  /** Whether the send that each thread makes is an urgent one: a matter of which function it calls. */
  function Noted(kinds: map<Tid, bool>, q: Queue, e: Event): map<Tid, bool> {
    if Enabled(q, e) && e.EvTake? then kinds[e.t := e.urgent] else kinds
  }

  predicate Urgent(kinds: map<Tid, bool>, t: Tid) {
    t in kinds && kinds[t]
  }

  /** The nodes in hand are marked as the calls ask for. */
  ghost predicate Marked(q: Queue, kinds: map<Tid, bool>) {
    forall t :: t in q.flight && q.flight[t].Filling? ==> q.flight[t].urgent == Urgent(kinds, t)
  }

  lemma StepMarked(q: Queue, kinds: map<Tid, bool>, e: Event, c: Config)
    requires Inv(q) && Marked(q, kinds)
    ensures Marked(Step(q, e, c), Noted(kinds, q, e))
  {
    hide Inv, Waits, Wake, Sleep, Ran, TimedOut, Flushed, Pushed, Overwrite;
  }

  /** What an event does to the deque: only linking, unlinking and the reset count. */
  function Effect(q: Queue, kinds: map<Tid, bool>, e: Event): DequeOp
    requires Inv(q)
  {
    if !Enabled(q, e) then Keep else
    match e
    case EvLink(t) =>
      var m := q.content[q.flight[t].node];
      if Urgent(kinds, t) then PushFront(m) else PushBack(m)
    case EvReceive(_, _) => PopFront
    case EvReset => Clear
    case _ => Keep
  }

  lemma QueuedApart(q: Queue)
    requires Inv(q)
    ensures forall i :: 0 <= i < |q.queued| ==> q.queued[i] < |q.content| && !InFlight(q, q.queued[i])
  {
    forall i | 0 <= i < |q.queued|
      ensures q.queued[i] < |q.content| && !InFlight(q, q.queued[i])
    {
      assert q.queued[i] in q.queued;
    }
  }

  /** The view is a matter of the queued nodes and what is in them. */
  lemma ViewSame(q: Queue, q': Queue)
    requires Inv(q) && Inv(q') && q'.queued == q.queued
    requires |q'.content| == |q.content| && forall x :: 0 <= x < |q.content| && !InFlight(q, x) ==> q'.content[x] == q.content[x]
    ensures View(q') == View(q)
  {
    QueuedApart(q);
    hide Inv, InFlight;
    forall i | 0 <= i < |q.queued|
      ensures View(q')[i] == View(q)[i]
    {
    }
  }

  lemma FlightNode(q: Queue, t: Tid)
    requires Inv(q) && t in q.flight
    ensures InFlight(q, q.flight[t].node) && q.flight[t].node < |q.content| && |q.content[q.flight[t].node]| == q.msgSize
  {
  }

  lemma FlightsDiffer(q: Queue, t: Tid, u: Tid)
    requires Inv(q) && t in q.flight && u in q.flight && t != u
    ensures q.flight[t].node != q.flight[u].node
  {
  }

  ghost predicate Refines(q: Queue, kinds: map<Tid, bool>, e: Event, c: Config) {
    Inv(q) && Inv(Step(q, e, c)) && View(Step(q, e, c)) == Apply(View(q), Effect(q, kinds, e))
  }

  lemma LinkView(q: Queue, kinds: map<Tid, bool>, e: Event, c: Config)
    requires Inv(q) && Marked(q, kinds) && Enabled(q, e) && e.EvLink? && Inv(Step(q, e, c))
    ensures Refines(q, kinds, e, c)
  {
    hide Inv, NoLostWakeup, Wake;
    FlightNode(q, e.t);
    QueuedApart(q);
    QueuedApart(Step(q, e, c));
    var q', n := Step(q, e, c), q.flight[e.t].node;
    if q.flight[e.t].urgent {
      assert q'.queued == [n] + q.queued;
      assert View(q') == [q.content[n]] + View(q);
    } else {
      assert q'.queued == q.queued + [n];
      assert View(q') == View(q) + [q.content[n]];
    }
  }

  lemma ReceiveView(q: Queue, kinds: map<Tid, bool>, e: Event, c: Config)
    requires Inv(q) && Enabled(q, e) && e.EvReceive? && Inv(Step(q, e, c))
    ensures Refines(q, kinds, e, c)
  {
    hide Partition, NoLostWakeup, Sleep, Ran;
    if q.queued != [] {
      assert View(Step(q, e, c)) == View(q)[1..];
    }
  }

  lemma FillView(q: Queue, kinds: map<Tid, bool>, e: Event, c: Config)
    requires Inv(q) && Enabled(q, e) && e.EvFill? && Inv(Step(q, e, c))
    ensures Refines(q, kinds, e, c)
  {
    hide Partition, NoLostWakeup, Overwrite;
    FlightNode(q, e.t);
    ViewSame(q, Step(q, e, c));
  }

  lemma ResetView(q: Queue, kinds: map<Tid, bool>, e: Event, c: Config)
    requires Inv(q) && Enabled(q, e) && e.EvReset? && Inv(Step(q, e, c))
    ensures Refines(q, kinds, e, c)
  {
    hide Inv;
  }

  /** The remaining events neither move a queued node nor write to one. */
  lemma OtherView(q: Queue, kinds: map<Tid, bool>, e: Event, c: Config)
    requires Inv(q) && Inv(Step(q, e, c))
    requires Enabled(q, e) ==> !e.EvFill? && !e.EvLink? && !e.EvReceive? && !e.EvReset?
    ensures Refines(q, kinds, e, c)
  {
    hide Inv, Waits;
    ViewSame(q, Step(q, e, c));
  }

  /** Linking appends the message of a plain send and prepends that of an urgent one, a receive takes the first, the
      reset empties the queue, and nothing else changes it. */
  lemma StepRefines(q: Queue, kinds: map<Tid, bool>, e: Event, c: Config)
    requires Inv(q) && Marked(q, kinds)
    ensures Refines(q, kinds, e, c) && Marked(Step(q, e, c), Noted(kinds, q, e))
  {
    StepInv(q, e, c);
    StepMarked(q, kinds, e, c);
    hide Inv, Step, Refines, Enabled, Marked, Noted;
    if Enabled(q, e) && e.EvFill? {
      FillView(q, kinds, e, c);
    } else if Enabled(q, e) && e.EvLink? {
      LinkView(q, kinds, e, c);
    } else if Enabled(q, e) && e.EvReceive? {
      ReceiveView(q, kinds, e, c);
    } else if Enabled(q, e) && e.EvReset? {
      ResetView(q, kinds, e, c);
    } else {
      OtherView(q, kinds, e, c);
    }
  }

  function Effects(q: Queue, kinds: map<Tid, bool>, es: seq<Event>, c: Config): seq<DequeOp>
    requires Inv(q)
    decreases |es|
  {
    if es == [] then [] else
    StepInv(q, es[0], c);
    [Effect(q, kinds, es[0])] + Effects(Step(q, es[0], c), Noted(kinds, q, es[0]), es[1..], c)
  }

  function ApplyAll(d: seq<Message>, ops: seq<DequeOp>): seq<Message>
    decreases |ops|
  {
    if ops == [] then d else ApplyAll(Apply(d, ops[0]), ops[1..])
  }

  /** However the copies outside the lock interleave, the queue is a deque of whole messages. */
  lemma {:induction false} RunRefines(q: Queue, kinds: map<Tid, bool>, es: seq<Event>, c: Config)
    requires Inv(q) && Marked(q, kinds)
    ensures View(Run(q, es, c)) == ApplyAll(View(q), Effects(q, kinds, es, c))
    decreases |es|
  {
    hide Inv, Apply, Effect, Step, Marked, Noted;
    if es != [] {
      var q', kinds' := Step(q, es[0], c), Noted(kinds, q, es[0]);
      StepRefines(q, kinds, es[0], c);
      RunRefines(q', kinds', es[1..], c);
      assert ([Effect(q, kinds, es[0])] + Effects(q', kinds', es[1..], c))[1..] == Effects(q', kinds', es[1..], c);
    }
  }

  /** A node in hand is its holder's alone: nobody else's step touches the message in it. */
  lemma HandKept(q: Queue, e: Event, c: Config, t: Tid)
    requires Inv(q) && t in q.flight && (Enabled(q, e) && (e.EvFill? || e.EvLink? || e.EvRelease?) ==> e.t != t)
    ensures Inv(Step(q, e, c))
    ensures var q' := Step(q, e, c);
      t in q'.flight && q'.flight[t] == q.flight[t] && q'.content[q.flight[t].node] == q.content[q.flight[t].node]
  {
    hide Inv, Waits, Wake, Sleep, Ran, TimedOut, Flushed, Pushed;
    StepInv(q, e, c);
    FlightNode(q, t);
    if Enabled(q, e) && e.EvFill? {
      FlightsDiffer(q, t, e.t);
    }
  }

  /** What a receiver copies out begins like the buffer a sender copied in. */
  lemma CopyRoundTrip(q: Queue, t: Tid, buffer: Message, size: nat)
    requires Inv(q) && Enabled(q, EvFill(t, buffer)) && size <= q.msgSize
    ensures var m := CopyOut(CopyIn(q, t, buffer), t, size);
      |m| == size && if size <= |buffer| then m == buffer[..size] else m[..|buffer|] == buffer
  {
  }

  /** The receiver holds the message that was first. */
  lemma ReceivesFirst(q: Queue, t: Tid, wait: bool, c: Config)
    requires Inv(q) && Enabled(q, EvReceive(t, wait)) && q.queued != []
    ensures var q' := Step(q, EvReceive(t, wait), c); t in q'.flight && Inv(q') && CopyOut(q', t, q.msgSize) == View(q)[0]
  {
    StepInv(q, EvReceive(t, wait), c);
    assert q.queued[0] in q.queued;
  }

  // ---- from the sender's buffer to the receiver's ----

  datatype Parcel = Parcel(buffer: Message, urgent: bool)

  /** The kind of send that each thread makes, the buffers that the senders have in hand, those in the queue, and those
      of the messages that the receivers have in hand; and of the plain sends so far, the buffers in the order in which
      they joined the queue, and in the order in which they left it. */
  datatype Traffic = Traffic(
    kinds: map<Tid, bool>, sent: map<Tid, Message>, queue: seq<Parcel>, received: map<Tid, Message>,
    joined: seq<Message>, left: seq<Message>)

  const NO_TRAFFIC: Traffic := Traffic(map[], map[], [], map[], [], [])

  /** The buffers of the plain sends. */
  function Plain(ps: seq<Parcel>): seq<Message> {
    if ps == [] then [] else if ps[0].urgent then Plain(ps[1..]) else [ps[0].buffer] + Plain(ps[1..])
  }

  /** A deque of buffers: a plain send appends its buffer, an urgent one prepends it, a receive takes the first. */
  function Pass(a: Traffic, q: Queue, e: Event): Traffic {
    if !Enabled(q, e) then a else
    match e
    case EvTake(_, _, _, _) => a.(kinds := Noted(a.kinds, q, e))
    case EvFill(t, buffer) => a.(sent := a.sent[t := buffer])
    case EvLink(t) =>
      var m := if t in a.sent then a.sent[t] else [];
      if Urgent(a.kinds, t) then a.(sent := a.sent - {t}, queue := [Parcel(m, true)] + a.queue)
      else a.(sent := a.sent - {t}, queue := a.queue + [Parcel(m, false)], joined := a.joined + [m])
    case EvReceive(t, _) =>
      if a.queue == [] then a else
      a.(queue := a.queue[1..], received := a.received[t := a.queue[0].buffer], left := a.left + Plain(a.queue[..1]))
    case EvRelease(t) => a.(received := a.received - {t})
    case EvReset => a.(queue := [], left := a.left + Plain(a.queue))
    case _ => a
  }

  /** The plain buffers leave in the order in which they joined, and the urgent ones stand in front of them. */
  ghost predicate Ordered(a: Traffic) {
    && a.joined == a.left + Plain(a.queue)
    && forall i, j :: 0 <= i < j < |a.queue| && a.queue[j].urgent ==> a.queue[i].urgent
  }

  lemma {:induction false} PlainSum(ps: seq<Parcel>, qs: seq<Parcel>)
    ensures Plain(ps + qs) == Plain(ps) + Plain(qs)
  {
    if ps == [] {
      assert ps + qs == qs;
    } else {
      PlainSum(ps[1..], qs);
      assert (ps + qs)[1..] == ps[1..] + qs;
    }
  }

  lemma PassOrdered(a: Traffic, q: Queue, e: Event)
    requires Ordered(a)
    ensures Ordered(Pass(a, q, e))
  {
    hide Enabled, Noted, Ordered, Plain, Urgent;
    var a' := Pass(a, q, e);
    if Enabled(q, e) && e.EvLink? {
      var m := if e.t in a.sent then a.sent[e.t] else [];
      if Urgent(a.kinds, e.t) {
        FrontOrdered(a, a', m);
      } else {
        EndOrdered(a, a', m);
      }
    } else if Enabled(q, e) && e.EvReceive? && a.queue != [] {
      FirstOrdered(a, a');
    } else if Enabled(q, e) && e.EvReset? {
      NoneOrdered(a, a');
    } else {
      SameOrdered(a, a');
    }
  }

  lemma SameOrdered(a: Traffic, a': Traffic)
    requires Ordered(a) && a'.queue == a.queue && a'.joined == a.joined && a'.left == a.left
    ensures Ordered(a')
  {
  }

  lemma NoneOrdered(a: Traffic, a': Traffic)
    requires Ordered(a) && a'.queue == [] && a'.joined == a.joined && a'.left == a.left + Plain(a.queue)
    ensures Ordered(a')
  {
  }

  lemma FrontOrdered(a: Traffic, a': Traffic, m: Message)
    requires Ordered(a) && a'.queue == [Parcel(m, true)] + a.queue && a'.joined == a.joined && a'.left == a.left
    ensures Ordered(a')
  {
    assert a'.queue[1..] == a.queue;
  }

  lemma EndOrdered(a: Traffic, a': Traffic, m: Message)
    requires Ordered(a) && a'.queue == a.queue + [Parcel(m, false)] && a'.joined == a.joined + [m] && a'.left == a.left
    ensures Ordered(a')
  {
    PlainSum(a.queue, [Parcel(m, false)]);
    assert Plain([Parcel(m, false)]) == [m] + Plain([Parcel(m, false)][1..]) == [m];
    hide Plain;
    assert a.left + Plain(a.queue) + [m] == a.left + (Plain(a.queue) + [m]);
  }

  lemma FirstOrdered(a: Traffic, a': Traffic)
    requires Ordered(a) && a.queue != [] && a'.queue == a.queue[1..] && a'.joined == a.joined && a'.left == a.left + Plain(a.queue[..1])
    ensures Ordered(a')
  {
    PlainSum(a.queue[..1], a.queue[1..]);
    hide Plain;
    assert a.queue == a.queue[..1] + a.queue[1..];
    assert a.left + (Plain(a.queue[..1]) + Plain(a.queue[1..])) == a.left + Plain(a.queue[..1]) + Plain(a.queue[1..]);
  }

  predicate Begins(m: Message, buffer: Message) {
    |buffer| <= |m| && m[..|buffer|] == buffer
  }

  ghost predicate AllBegin(ms: seq<Message>, ps: seq<Parcel>) {
    |ms| == |ps| && forall i :: 0 <= i < |ms| ==> Begins(ms[i], ps[i].buffer)
  }

  /** The node in the hand of `t` holds the buffer. */
  ghost predicate Holds(q: Queue, t: Tid, buffer: Message) {
    t in q.flight && q.flight[t].node < |q.content| && Begins(q.content[q.flight[t].node], buffer)
  }

  ghost predicate InHands(q: Queue, a: Traffic) {
    && (forall t :: t in a.sent ==> Holds(q, t, a.sent[t]) && q.flight[t].Filling?)
    && (forall t :: t in a.received ==> Holds(q, t, a.received[t]))
    && (forall t :: t in a.received <==> t in q.flight && q.flight[t].Draining?)
  }

  /** Every node that matters begins with the buffer that was sent in it. */
  ghost predicate Carries(q: Queue, a: Traffic) {
    Inv(q) && AllBegin(View(q), a.queue) && InHands(q, a) && Marked(q, a.kinds)
  }

  lemma EmptyTogether(q: Queue, a: Traffic)
    requires Carries(q, a)
    ensures a.queue == [] <==> q.queued == []
  {
  }

  lemma QueueCarries(q: Queue, a: Traffic, e: Event, c: Config)
    requires Carries(q, a)
    ensures Inv(Step(q, e, c)) && AllBegin(View(Step(q, e, c)), Pass(a, q, e).queue)
  {
    hide Inv, View, Step, Begins, Waits, Plain, Noted, Marked;
    StepRefines(q, a.kinds, e, c);
    EmptyTogether(q, a);
    if Enabled(q, e) && e.EvLink? {
      var m := if e.t in a.sent then a.sent[e.t] else [];
      FlightNode(q, e.t);
      assert Begins(q.content[q.flight[e.t].node], m) by { hide *; LinkedBegins(q, a, e.t); }
    }
  }

  lemma LinkedBegins(q: Queue, a: Traffic, t: Tid)
    requires InHands(q, a) && t in q.flight && q.flight[t].node < |q.content|
    ensures Begins(q.content[q.flight[t].node], if t in a.sent then a.sent[t] else [])
  {
  }

  /** What thread `t` holds when somebody else takes a step. */
  lemma OthersHold(q: Queue, e: Event, c: Config, t: Tid, buffer: Message)
    requires Inv(q) && Holds(q, t, buffer) && (Enabled(q, e) && (e.EvFill? || e.EvLink? || e.EvRelease?) ==> e.t != t)
    ensures Inv(Step(q, e, c)) && Holds(Step(q, e, c), t, buffer) && t in q.flight && t in Step(q, e, c).flight && Step(q, e, c).flight[t] == q.flight[t]
  {
    hide Inv, Step, Begins;
    HandKept(q, e, c, t);
    StepInv(q, e, c);
    FlightNode(Step(q, e, c), t);
  }

  lemma SentCarries(q: Queue, a: Traffic, e: Event, c: Config, t: Tid)
    requires Carries(q, a) && t in Pass(a, q, e).sent
    ensures Holds(Step(q, e, c), t, Pass(a, q, e).sent[t]) && t in Step(q, e, c).flight && Step(q, e, c).flight[t].Filling?
  {
    hide Inv, View, AllBegin, Waits;
    if Enabled(q, e) && e.EvFill? && e.t == t {
      hide Holds, Begins;
      FilledHolds(q, e, c);
    } else {
      hide Step, Holds, Begins;
      OthersHold(q, e, c, t, a.sent[t]);
    }
  }

  lemma FilledHolds(q: Queue, e: Event, c: Config)
    requires Inv(q) && e.EvFill? && Enabled(q, e)
    ensures Holds(Step(q, e, c), e.t, e.buffer) && e.t in Step(q, e, c).flight && Step(q, e, c).flight[e.t].Filling?
  {
    FlightNode(q, e.t);
    hide Partition, NoLostWakeup;
    assert |q.content[q.flight[e.t].node]| == q.msgSize;
  }

  lemma ReceivedCarries(q: Queue, a: Traffic, e: Event, c: Config, t: Tid)
    requires Carries(q, a) && t in Pass(a, q, e).received
    ensures Holds(Step(q, e, c), t, Pass(a, q, e).received[t]) && t in Step(q, e, c).flight && Step(q, e, c).flight[t].Draining?
  {
    hide Inv, View, Waits, AllBegin, Begins;
    if Enabled(q, e) && e.EvReceive? && e.t == t && a.queue != [] {
      hide Holds;
      EmptyTogether(q, a);
      ReceivedHolds(q, a, t, e.wait, c);
    } else {
      hide Step, Holds;
      OthersHold(q, e, c, t, a.received[t]);
    }
  }

  lemma ReceivedHolds(q: Queue, a: Traffic, t: Tid, wait: bool, c: Config)
    requires Carries(q, a) && Enabled(q, EvReceive(t, wait)) && q.queued != [] && a.queue != []
    ensures var q' := Step(q, EvReceive(t, wait), c); Holds(q', t, a.queue[0].buffer) && t in q'.flight && q'.flight[t].Draining?
  {
    hide Partition, NoLostWakeup, Waits, Ran, InHands, Begins;
    StepInv(q, EvReceive(t, wait), c);
    QueuedApart(q);
    assert Begins(View(q)[0], a.queue[0].buffer);
  }

  lemma DrainingIsReceived(q: Queue, a: Traffic, e: Event, c: Config, t: Tid)
    requires Carries(q, a) && t in Step(q, e, c).flight && Step(q, e, c).flight[t].Draining?
    ensures t in Pass(a, q, e).received
  {
    EmptyTogether(q, a);
    hide Inv, View, AllBegin, Holds, Wake, Sleep, Ran, TimedOut, Flushed, Pushed, Waits;
  }

  lemma KindsCarry(q: Queue, a: Traffic, e: Event, c: Config)
    requires Carries(q, a)
    ensures Marked(Step(q, e, c), Pass(a, q, e).kinds)
  {
    StepMarked(q, a.kinds, e, c);
    hide Inv, Step, Marked, View, Plain, AllBegin, InHands;
  }

  /** Every step passes the buffers on as the deque of buffers does. */
  lemma StepCarries(q: Queue, a: Traffic, e: Event, c: Config)
    requires Carries(q, a)
    ensures Inv(Step(q, e, c)) && Carries(Step(q, e, c), Pass(a, q, e))
  {
    hide Inv, View, AllBegin, Step, Pass, Holds, Marked;
    QueueCarries(q, a, e, c);
    KindsCarry(q, a, e, c);
    var q', a' := Step(q, e, c), Pass(a, q, e);
    forall t | t in a'.sent
      ensures Holds(q', t, a'.sent[t]) && t in q'.flight && q'.flight[t].Filling?
    {
      SentCarries(q, a, e, c, t);
    }
    forall t | t in a'.received
      ensures Holds(q', t, a'.received[t]) && t in q'.flight && q'.flight[t].Draining?
    {
      ReceivedCarries(q, a, e, c, t);
    }
    forall t | t in q'.flight && q'.flight[t].Draining?
      ensures t in a'.received
    {
      DrainingIsReceived(q, a, e, c, t);
    }
  }

  function PassAll(a: Traffic, q: Queue, es: seq<Event>, c: Config): Traffic
    requires Inv(q)
    decreases |es|
  {
    if es == [] then a else
    StepInv(q, es[0], c);
    PassAll(Pass(a, q, es[0]), Step(q, es[0], c), es[1..], c)
  }

  /** In every interleaving the nodes carry the buffers as the deque of buffers does: with plain sends at its end and
      urgent ones at its front, the plain buffers leave in the order in which they joined. */
  lemma {:induction false} RunCarries(q: Queue, a: Traffic, es: seq<Event>, c: Config)
    requires Carries(q, a) && Ordered(a)
    ensures Inv(q) && Carries(Run(q, es, c), PassAll(a, q, es, c)) && Ordered(PassAll(a, q, es, c))
    decreases |es|
  {
    hide Inv, Step, Pass, Carries, Ordered;
    CarriesInv(q, a);
    if es != [] {
      StepCarries(q, a, es[0], c);
      PassOrdered(a, q, es[0]);
      RunCarries(Step(q, es[0], c), Pass(a, q, es[0]), es[1..], c);
    }
  }

  lemma CarriesInv(q: Queue, a: Traffic)
    requires Carries(q, a)
    ensures Inv(q)
  {
  }

  lemma NothingCarried(q: Queue)
    requires Inv(q) && q.queued == [] && q.flight == map[]
    ensures Carries(q, NO_TRAFFIC) && Ordered(NO_TRAFFIC)
  {
    assert View(q) == [];
  }

  /** In every interleaving from an empty queue on, what a receiver copies out begins like the buffer that
      was sent in its place of the deque, and a receiver that holds a node holds such a message. */
  lemma Delivered(q: Queue, es: seq<Event>, c: Config, t: Tid, size: nat)
    requires Inv(q) && q.queued == [] && q.flight == map[]
    requires t in Run(q, es, c).flight && Run(q, es, c).flight[t].Draining? && size <= Run(q, es, c).msgSize
    ensures t in PassAll(NO_TRAFFIC, q, es, c).received && Run(q, es, c).flight[t].node < |Run(q, es, c).content|
    ensures var buffer, m := PassAll(NO_TRAFFIC, q, es, c).received[t], CopyOut(Run(q, es, c), t, size);
      |m| == size && if size <= |buffer| then m == buffer[..size] else m[..|buffer|] == buffer
    ensures Ordered(PassAll(NO_TRAFFIC, q, es, c))
  {
    hide Inv, View, Ordered, Run, PassAll;
    NothingCarried(q);
    RunCarries(q, NO_TRAFFIC, es, c);
    var r, a := Run(q, es, c), PassAll(NO_TRAFFIC, q, es, c);
    FlightNode(r, t);
    assert Holds(r, t, a.received[t]);
  }

  // ---- what a call reports ----

  /** A send gets a node if and only if the message fits and a node is free; it goes to sleep if and only if none is
      free, it is a plain one and it waits. */
  lemma TakeFreeOutcome(q: Queue, t: Tid, size: nat, wait: bool, urgent: bool, c: Config)
    requires Inv(q) && Enabled(q, EvTake(t, size, wait, urgent))
    ensures var (q', r) := TakeFree(q, t, size, wait, urgent, c);
      && (r.Rejected? <==> size > q.msgSize) && (r.Taken? <==> size <= q.msgSize && q.free != [])
      && q.free == (if r.Taken? then [r.node] else []) + q'.free
      && q'.flight == (if r.Taken? then q.flight[t := Filling(r.node, urgent)] else q.flight)
      && (r.Asleep? <==> size <= q.msgSize && q.free == [] && wait && !urgent) && (r.Asleep? <==> t in q'.senders.asleep)
      && (if r.Asleep? then Joins(q.senders.asleep, t, c, q'.senders.asleep) else q'.senders.asleep == q.senders.asleep)
      && q'.queued == q.queued && q'.receivers == q.receivers
  {
    hide Sleep, Joins, Sound, Partition, Sized, Waits;
    SleepJoins(q.senders, t, c, |q.free|);
  }

  /** A receive gets the first message if and only if there is one, and goes to sleep if and only if there is none and
      it waits. */
  lemma TakeFirstOutcome(q: Queue, t: Tid, wait: bool, c: Config)
    requires Inv(q) && Enabled(q, EvReceive(t, wait))
    ensures var (q', r) := TakeFirst(q, t, wait, c);
      && !r.Rejected? && (r.Taken? <==> q.queued != []) && q.queued == (if r.Taken? then [r.node] else []) + q'.queued
      && q'.flight == (if r.Taken? then q.flight[t := Draining(r.node)] else q.flight)
      && (r.Asleep? <==> q.queued == [] && wait) && (r.Asleep? <==> t in q'.receivers.asleep)
      && (if r.Asleep? then Joins(q.receivers.asleep, t, c, q'.receivers.asleep) else q'.receivers.asleep == q.receivers.asleep)
      && q'.free == q.free && q'.senders == q.senders
  {
    hide Sleep, Joins, Sound, Partition, Sized, Waits;
    SleepJoins(q.receivers, t, c, |q.queued|);
  }

  /** Linking resumes the first receiver, a released node the first sender; a timeout takes one thread off the lists,
      the reset all. */
  lemma OtherOutcome(q: Queue, t: Tid)
    requires Inv(q)
    ensures t in q.flight && q.flight[t].Filling? ==> Resumed(q.receivers, Link(q, t).receivers) && Link(q, t).senders == q.senders
    ensures t in q.flight ==> Resumed(q.senders, Release(q, t).senders) && Release(q, t).receivers == q.receivers
    ensures var q' := Timeout(q, t);
      && Leaves(q.receivers.asleep, t, q'.receivers.asleep) && Leaves(q.senders.asleep, t, q'.senders.asleep)
      && q'.receivers.woken == q.receivers.woken && q'.senders.woken == q.senders.woken
    ensures var q' := Reset(q);
      && q'.receivers == Side([], q.receivers.woken) && q'.senders == Side([], q.senders.woken) && q'.flight == q.flight
      && q'.queued == [] && multiset(q'.free) == multiset(q.free) + multiset(q.queued)
  {
    WakesFirst(q.receivers);
    WakesFirst(q.senders);
    WithoutLeaves(q.receivers.asleep, t);
    WithoutLeaves(q.senders.asleep, t);
    PushedMultiset(q.queued, q.free);
    hide Resumed, Leaves, Without, Wake, Pushed, Partition, Sized;
  }

  lemma {:induction false} PushedMultiset(xs: seq<nat>, onto: seq<nat>)
    ensures multiset(Pushed(xs, onto)) == multiset(onto) + multiset(xs)
  {
    if xs != [] {
      PushedMultiset(xs[1..], [xs[0]] + onto);
      assert xs == [xs[0]] + xs[1..];
    }
  }

  /** Both lists are in the order of the flag. */
  ghost predicate BothInOrder(q: Queue, c: Config) {
    BestFirst(q.receivers, c) && BestFirst(q.senders, c)
  }

  lemma StepOrder(q: Queue, e: Event, c: Config)
    requires Inv(q) && BothInOrder(q, c)
    ensures BothInOrder(Step(q, e, c), c)
  {
    hide BestFirst, Wake, Ran, Sleep, TimedOut, Flushed, Partition, Sized, Pushed, Overwrite, Waits;
    var t := if e.EvReset? then 0 else e.t;
    SideOrder(q.receivers, t, c);
    SideOrder(q.senders, t, c);
  }

  /** In every interleaving of a queue with the priority flag, the thread that is resumed is one of the best that sleep. */
  lemma {:induction false} RunOrder(q: Queue, es: seq<Event>, c: Config)
    requires Inv(q) && BothInOrder(q, c)
    ensures BothInOrder(Run(q, es, c), c)
    decreases |es|
  {
    hide Inv, Step, BothInOrder;
    if es != [] {
      StepInv(q, es[0], c);
      StepOrder(q, es[0], c);
      RunOrder(Step(q, es[0], c), es[1..], c);
    }
  }
}

/** ipc.c: the message queue object, with its two lists threaded through the nodes. */
module MsgQueue {
  import opened Chains
  import opened IpcList
  import opened Lists
  import opened MsgQueueSpec
  import opened RtDef
  import opened Waiters
  import opened WaitList

  /** The pointer to the last node of a list. */
  ghost function Last(nodes: seq<nat>): Word {
    if nodes == [] then End else Next(nodes[|nodes|-1])
  }

  ghost predicate TwoLists(next: seq<Word>, freeHead: Word, free: seq<nat>, head: Word, tail: Word, queued: seq<nat>) {
    && Chain(next, freeHead, free) && Chain(next, head, queued) && tail == Last(queued)
    && Distinct(free) && Distinct(queued) && (forall x :: x in queued ==> x !in free)
  }

  /** A send clears the link of its node while it is in hand. */
  ghost predicate Cleared(next: seq<Word>, flight: map<Tid, Flight>) {
    forall t :: t in flight && flight[t].Filling? && !flight[t].urgent && flight[t].node < |next| ==> next[flight[t].node] == End
  }

  const FIELD: nat := 0x1_0000   // msg_size, max_msgs and entry are 16-bit fields

  function Quotient(a: nat, b: nat): nat
    requires b > 0
  {
    a / b
  }

  /** The payload of a node. */
  function NodeSize(size: nat): (n: nat)
    ensures n < FIELD
  {
    Align(size) % FIELD
  }

  /** How many nodes, each with its link word, a pool is cut into. */
  function NodeCount(size: nat, poolSize: nat): nat {
    Quotient(poolSize, NodeSize(size) + 4) % FIELD
  }

  /** A node takes a message of the size asked for if and only if that is at most 65532. */
  lemma NodeSizeCovers(size: nat)
    requires size < WORD
    ensures NodeSize(size) >= size <==> size <= 0xFFFC
  {
  }

  lemma QuotientFits(a: nat, b: nat)
    requires b > 0
    ensures Quotient(a, b) * b <= a < Quotient(a, b) * b + b
  {
  }

  /** The nodes fit into the pool, and no further one does unless there are 65536 or more. */
  lemma NodesFit(size: nat, poolSize: nat)
    ensures NodeCount(size, poolSize) * (NodeSize(size) + 4) <= poolSize
    ensures poolSize < (NodeCount(size, poolSize) + 1) * (NodeSize(size) + 4) <==> Quotient(poolSize, NodeSize(size) + 4) < FIELD
  {
    var stride, n := NodeSize(size) + 4, Quotient(poolSize, NodeSize(size) + 4);
    QuotientFits(poolSize, stride);
    hide NodeSize, Quotient;
    FieldFits(n, stride, poolSize);
  }

  lemma FieldFits(n: nat, stride: nat, poolSize: nat)
    requires n * stride <= poolSize < n * stride + stride
    ensures n % FIELD * stride <= poolSize
    ensures poolSize < (n % FIELD + 1) * stride <==> n < FIELD
  {
    var m := n % FIELD;
    assert m <= n && (m < n <==> n >= FIELD);
    Monotone(m, n, stride);
    assert (m + 1) * stride == m * stride + stride;
    if m < n {
      Monotone(m + 1, n, stride);
    }
  }

  lemma Monotone(a: nat, b: nat, k: nat)
    requires a <= b
    ensures a * k <= b * k
  {
  }

  class RtMessageQueue {
    const next: array<Word>
    const data: array<Message>
    const msgSize: nat
    const config: Config
    const lists: RtIpcLists              // suspend_thread and suspend_sender_thread
    var msgQueueHead: Word
    var msgQueueTail: Word
    var msgQueueFree: Word
    var entry: nat
    ghost var free: seq<nat>
    ghost var queued: seq<nat>
    ghost var flight: map<Tid, Flight>
    ghost var recvWoken: set<Tid>
    ghost var sendWoken: set<Tid>

    ghost function State(): Queue
      reads this, data, lists.receivers, lists.senders
    {
      Queue(next.Length, msgSize, free, queued, data[..], flight,
            Side(lists.receivers.queue, recvWoken), Side(lists.senders.queue, sendWoken))
    }

    ghost predicate Links()
      reads this`msgQueueHead, this`msgQueueTail, this`msgQueueFree, this`free, this`queued, next
    {
      TwoLists(next[..], msgQueueFree, free, msgQueueHead, msgQueueTail, queued)
    }

    /** The lists of waiting threads share no array with the nodes. */
    ghost predicate Waiting()
      reads lists.receivers, lists.senders, lists.receivers.next, lists.receivers.prev, lists.senders.next, lists.senders.prev
    {
      && lists.Valid()
      && (next as object) != lists.receivers.next && (next as object) != lists.receivers.prev
      && (data as object) != lists.receivers.next && (data as object) != lists.receivers.prev
    }

    ghost predicate Valid()
      reads this, next, data
      reads lists.receivers, lists.senders, lists.receivers.next, lists.receivers.prev, lists.senders.next, lists.senders.prev
    {
      Inv(State()) && Links() && entry == |queued| && Cleared(next[..], flight) && Waiting()
    }

    /** The pointers show which lists are empty; the head is null exactly when the tail is. */
    lemma PointersTell()
      requires Links()
      ensures msgQueueFree == End <==> free == []
      ensures msgQueueHead == End <==> queued == []
      ensures msgQueueTail == End <==> queued == []
    {
    }

    // ---- the two lists ----

    /** A node in hand can be written without harm to the lists. */
    method ClearNext(msg: nat)
      requires Links() && msg < next.Length && msg !in free && msg !in queued
      modifies next
      ensures Links() && next[..] == old(next[..])[msg := End]
    {
      next[msg] := End;
      ChainFrame(old(next[..]), msgQueueFree, free, next[..]);
      ChainFrame(old(next[..]), msgQueueHead, queued, next[..]);
    }

    method PopFree() returns (msg: nat)
      requires Links() && free != []
      modifies this`msgQueueFree, this`free
      ensures Links() && [msg] + free == old(free) && msg < next.Length && msg !in queued && msg !in free
    {
      msg := msgQueueFree.number;
      msgQueueFree := next[msg];
      assert free[0] in free;
      TailDistinct(free);
      free := free[1..];
    }

    method PushFree(msg: nat)
      requires Links() && msg < next.Length && msg !in free && msg !in queued
      modifies this`msgQueueFree, this`free, next
      ensures Links() && free == [msg] + old(free)
      ensures forall x :: 0 <= x < next.Length && x != msg ==> next[x] == old(next[x])
    {
      next[msg] := msgQueueFree;
      ChainFrame(old(next[..]), msgQueueFree, free, next[..]);
      ChainFrame(old(next[..]), msgQueueHead, queued, next[..]);
      msgQueueFree := Next(msg);
      free := [msg] + free;
      assert free[1..] == old(free);
    }

    /** Links a cleared node behind the tail. */
    method Append(msg: nat)
      requires Links() && msg < next.Length && msg !in free && msg !in queued && next[msg] == End
      modifies this`msgQueueHead, this`msgQueueTail, this`queued, next
      ensures Links() && queued == old(queued) + [msg]
      ensures forall x :: 0 <= x < next.Length && x !in old(queued) ==> next[x] == old(next[x])
    {
      if msgQueueTail != End {
        assert queued[|queued|-1] in queued;
        InBounds(next[..], msgQueueHead, queued, End);
        next[msgQueueTail.number] := Next(msg);
        ChainAppend(old(next[..]), msgQueueHead, queued, msg, next[..]);
      } else {
        assert queued + [msg] == [msg];
        assert Segment(next[..], Next(msg), [msg], End);
      }
      ChainFrame(old(next[..]), msgQueueFree, free, next[..]);
      msgQueueTail := Next(msg);
      if msgQueueHead == End {
        msgQueueHead := Next(msg);
      }
      queued := queued + [msg];
    }

    method Prepend(msg: nat)
      requires Links() && msg < next.Length && msg !in free && msg !in queued
      modifies this`msgQueueHead, this`msgQueueTail, this`queued, next
      ensures Links() && queued == [msg] + old(queued)
      ensures forall x :: 0 <= x < next.Length && x != msg ==> next[x] == old(next[x])
    {
      next[msg] := msgQueueHead;
      ChainFrame(old(next[..]), msgQueueFree, free, next[..]);
      ChainFrame(old(next[..]), msgQueueHead, queued, next[..]);
      msgQueueHead := Next(msg);
      if msgQueueTail == End {
        msgQueueTail := Next(msg);
      }
      queued := [msg] + queued;
      assert queued[1..] == old(queued);
    }

    method PopHead() returns (msg: nat)
      requires Links() && queued != []
      modifies this`msgQueueHead, this`msgQueueTail, this`queued
      ensures Links() && [msg] + queued == old(queued) && msg < next.Length && msg !in free && msg !in queued
    {
      msg := msgQueueHead.number;
      assert queued[0] in queued;
      TailDistinct(queued);
      msgQueueHead := next[msg];
      if msgQueueTail == Next(msg) {
        msgQueueTail := End;
      }
      queued := queued[1..];
    }

    // ---- waking ----

    method WakeReceiver()
      requires lists.Valid()
      modifies this`recvWoken, lists.receivers, lists.receivers.next, lists.receivers.prev
      ensures lists.Valid() && Side(lists.receivers.queue, recvWoken) == Wake(old(Side(lists.receivers.queue, recvWoken)))
    {
      var empty := lists.receivers.IsEmpty();
      if !empty {
        ghost var q := lists.receivers.queue;
        var thread := lists.ResumeReceiver();
        assert thread == q[0] && lists.receivers.queue == q[1..];
        recvWoken := recvWoken + {thread};
      }
    }

    method WakeSender()
      requires lists.Valid()
      modifies this`sendWoken, lists.senders, lists.senders.next, lists.senders.prev
      ensures lists.Valid() && Side(lists.senders.queue, sendWoken) == Wake(old(Side(lists.senders.queue, sendWoken)))
    {
      var empty := lists.senders.IsEmpty();
      if !empty {
        ghost var q := lists.senders.queue;
        var thread := lists.ResumeSender();
        assert thread == q[0] && lists.senders.queue == q[1..];
        sendWoken := sendWoken + {thread};
      }
    }

    // ---- the steps ----

    /** rt_mq_init: `links` and `backLinks` hold the links of all nodes of waiting threads, `head` and
        `senderHead` are the nodes of the queue. */
    constructor (size: nat, poolSize: nat, pool: array<Message>, flag: Flag, prio: Priorities,
                 links: array<nat>, backLinks: array<nat>, head: nat, senderHead: nat)
      requires size < WORD && pool.Length == NodeCount(size, poolSize)
      requires forall i :: 0 <= i < pool.Length ==> |pool[i]| == NodeSize(size)
      requires links != backLinks && links.Length == backLinks.Length && head < links.Length && senderHead < links.Length && head != senderHead
      requires (pool as object) != links && (pool as object) != backLinks
      modifies links, backLinks
      ensures Valid() && State() == Init(pool.Length, NodeSize(size), pool[..])
      ensures data == pool && fresh(next) && config == Config(flag, prio) && fresh(lists.receivers) && fresh(lists.senders)
      ensures lists.receivers.next == links && lists.receivers.prev == backLinks
      ensures lists.receivers.head == head && lists.senders.head == senderHead
    {
      var both := new RtIpcLists(links, backLinks, head, senderHead);
      lists := both;
      next := new Word[pool.Length];
      data, msgSize, config := pool, NodeSize(size), Config(flag, prio);
      msgQueueHead, msgQueueTail, msgQueueFree, entry := End, End, End, 0;
      free, queued, flight, recvWoken, sendWoken := [], [], map[], {}, {};
      new;
      assert Links();
      hide Segment, Inv, Distinct, Links, NodeCount, NodeSize, Pushed;
      InitInv(pool.Length, NodeSize(size), pool[..]);
      PushAll();
    }

    /** The free list is built node by node, each pushed onto it. */
    method PushAll()
      requires Links() && free == [] && queued == []
      modifies next, this`msgQueueFree, this`free
      ensures Links() && free == Pushed(seq(next.Length, i => i), [])
    {
      hide Segment, Distinct;
      var temp := 0;
      ghost var all := seq(next.Length, i => i);
      assert all[0..] == all;
      while temp < next.Length
        invariant temp <= next.Length
        invariant Links() && (forall x :: x in free ==> x < temp)
        invariant Pushed(all[temp..], free) == Pushed(all, [])
      {
        assert all[temp..][0] == temp && all[temp..][1..] == all[temp+1..];
        PushFree(temp);
        temp := temp + 1;
      }
    }

    /** The part of rt_mq_send_wait that gets a node. */
    method SendTake(thread: Tid, size: nat, timeout: int) returns (r: Outcome)
      requires Valid() && lists.Idle(thread) && Enabled(State(), EvTake(thread, size, timeout != 0, false))
      modifies this, next, lists.receivers, lists.senders, lists.receivers.next, lists.receivers.prev
      ensures Valid() && (State(), r) == TakeFree(old(State()), thread, size, timeout != 0, false, config)
    {
      hide Links, Inv, Cleared, Suspend, Waits, InFlight;
      ghost var before, next0 := State(), next[..];
      TakeFreeKeeps(before, thread, size, timeout != 0, false, config);
      PointersTell();
      r := Rejected;
      if size <= msgSize {
        sendWoken := sendWoken - {thread};
        if msgQueueFree == End {
          r := Refused;
          if timeout != 0 {
            lists.SuspendSender(thread, config);
            r := Asleep;
          }
        } else {
          FreeFacts(before);
          var msg := PopFree();
          ClearNext(msg);
          flight := flight[thread := Filling(msg, false)];
          assert free == before.free[1..];
          ClearedLifted(before, next0, next[..], thread, flight[thread]);
          r := Taken(msg);
        }
      }
    }

    /** The part of rt_mq_urgent that gets a node; it never waits. */
    method UrgentTake(thread: Tid, size: nat) returns (r: Outcome)
      requires Valid() && Enabled(State(), EvTake(thread, size, false, true))
      modifies this
      ensures Valid() && (State(), r) == TakeFree(old(State()), thread, size, false, true, config)
    {
      hide Links, Inv, Cleared, Suspend, Waits, InFlight;
      ghost var before := State();
      TakeFreeKeeps(before, thread, size, false, true, config);
      PointersTell();
      r := Rejected;
      if size <= msgSize {
        if msgQueueFree == End {
          r := Refused;
        } else {
          FreeFacts(before);
          var msg := PopFree();
          flight := flight[thread := Filling(msg, true)];
          assert free == before.free[1..];
          ClearedLifted(before, next[..], next[..], thread, flight[thread]);
          r := Taken(msg);
        }
      }
    }

    /** The copy into the node in hand, with interrupts enabled. */
    method Fill(thread: Tid, msg: nat, buffer: Message)
      requires Valid() && Enabled(State(), EvFill(thread, buffer)) && flight[thread].node == msg
      modifies data
      ensures Valid() && State() == CopyIn(old(State()), thread, buffer)
    {
      hide Links, Inv, Cleared, Overwrite;
      ghost var before := State();
      CopyInKeeps(before, thread, buffer);
      FlightNode(before, thread);
      data[msg] := Overwrite(buffer, data[msg]);
    }

    /** The filled node goes to the end of the queue, or to its front. */
    method PlaceNode(thread: Tid, msg: nat, urgent: bool)
      requires Valid() && Enabled(State(), EvLink(thread)) && flight[thread] == Filling(msg, urgent)
      modifies this, next
      ensures Links() && entry == |queued| && Cleared(next[..], flight)
      ensures State() == Link(old(State()), thread).(receivers := old(State()).receivers)
    {
      hide Links, Inv, Cleared, InFlight, Wake;
      ghost var before, next0 := State(), next[..];
      HandFacts(before, next0, thread);
      if urgent {
        Prepend(msg);
      } else {
        Append(msg);
      }
      entry := entry + 1;
      flight := flight - {thread};
      ClearedKept(next0, before.flight, next[..], flight);
    }

    /** The part of rt_mq_send_wait and rt_mq_urgent that links the filled node and wakes a receiver. */
    method LinkStep(thread: Tid, msg: nat, urgent: bool)
      requires Valid() && Enabled(State(), EvLink(thread)) && flight[thread] == Filling(msg, urgent)
      modifies this, next, lists.receivers, lists.receivers.next, lists.receivers.prev
      ensures Valid() && State() == Link(old(State()), thread)
    {
      hide Links, Inv, Cleared, InFlight, Wake;
      LinkKeeps(State(), thread);
      PlaceNode(thread, msg, urgent);
      WakeReceiver();
    }

    /** The part of rt_mq_recv that gets a message. */
    method RecvTake(thread: Tid, timeout: int) returns (r: Outcome)
      requires Valid() && lists.Idle(thread) && Enabled(State(), EvReceive(thread, timeout != 0))
      modifies this, lists.receivers, lists.senders, lists.receivers.next, lists.receivers.prev
      ensures Valid() && (State(), r) == TakeFirst(old(State()), thread, timeout != 0, config)
    {
      hide Links, Inv, Cleared, Suspend, Waits, InFlight;
      ghost var before := State();
      TakeFirstKeeps(before, thread, timeout != 0, config);
      recvWoken := recvWoken - {thread};
      if entry == 0 {
        r := Refused;
        if timeout != 0 {
          lists.SuspendReceiver(thread, config);
          r := Asleep;
        }
      } else {
        QueuedFacts(before);
        var msg := PopHead();
        entry := entry - 1;
        flight := flight[thread := Draining(msg)];
        assert queued == before.queued[1..];
        ClearedLifted(before, next[..], next[..], thread, flight[thread]);
        r := Taken(msg);
      }
    }

    /** The copy out of the node in hand. */
    method Drain(thread: Tid, msg: nat, size: nat) returns (buffer: Message)
      requires Valid() && thread in flight && flight[thread].node == msg
      ensures Valid() && msg < data.Length && buffer == CopyOut(State(), thread, size)
    {
      hide Links, Cleared, Partition, NoLostWakeup;
      FlightNode(State(), thread);
      buffer := data[msg];
      if size <= msgSize {
        buffer := buffer[..size];
      }
    }

    /** The part of rt_mq_recv that gives the node back and wakes a sender. */
    method ReleaseStep(thread: Tid, msg: nat)
      requires Valid() && Enabled(State(), EvRelease(thread)) && flight[thread].node == msg
      modifies this, next, lists.senders, lists.senders.next, lists.senders.prev
      ensures Valid() && State() == Release(old(State()), thread)
    {
      hide Links, Inv, Cleared, InFlight, Wake;
      ghost var before, next0 := State(), next[..];
      ReleaseKeeps(before, thread);
      HandFacts(before, next0, thread);
      PushFree(msg);
      flight := flight - {thread};
      ClearedKept(next0, before.flight, next[..], flight);
      WakeSender();
      assert State() == Release(before, thread);
    }

    /** rt_thread_timeout on a thread that sleeps here. */
    method TimeoutStep(thread: Tid)
      requires Valid() && (thread in lists.receivers.queue || thread in lists.senders.queue)
      modifies lists.receivers, lists.senders, lists.receivers.next, lists.receivers.prev
      ensures Valid() && State() == Timeout(old(State()), thread)
    {
      hide Links, Inv, Cleared;
      TimeoutKeeps(State(), thread);
      lists.Leave(thread);
    }

    /** rt_mq_control with RT_IPC_CMD_RESET. */
    method ResetStep()
      requires Valid()
      modifies this, next, lists.receivers, lists.senders, lists.receivers.next, lists.receivers.prev
      ensures Valid() && State() == Reset(old(State()))
    {
      hide Inv, Cleared, InFlight, TwoLists;
      ghost var before, next0 := State(), next[..];
      ResetKeeps(before);
      OutOfHand(before);
      lists.ResumeAll();
      PointersTell();
      while msgQueueHead != End
        modifies this`msgQueueHead, this`msgQueueTail, this`msgQueueFree, this`free, this`queued, next
        invariant Links() && (msgQueueHead == End <==> queued == [])
        invariant Pushed(queued, free) == Pushed(before.queued, before.free)
        invariant forall x :: x in queued ==> x in before.queued
        invariant forall x :: 0 <= x < next.Length && x !in before.queued ==> next[x] == next0[x]
        decreases |queued|
      {
        ghost var q := queued;
        assert q[0] in q;
        var msg := PopHead();
        assert queued == q[1..] && msg == q[0];
        PushFree(msg);
        PointersTell();
      }
      entry := 0;
      ClearedKept(next0, flight, next[..], flight);
    }
  }

  lemma QueuedFacts(q: Queue)
    requires Inv(q) && q.queued != []
    ensures !InFlight(q, q.queued[0]) && q.queued[0] < q.max
  {
    assert q.queued[0] in q.queued;
  }

  /** A node in hand is in neither list and in no other hand. */
  lemma HandFacts(q: Queue, next: seq<Word>, t: Tid)
    requires Inv(q) && t in q.flight && Cleared(next, q.flight) && |next| == q.max
    ensures var n := q.flight[t].node;
      && n < q.max && n !in q.free && n !in q.queued
      && (q.flight[t].Filling? && !q.flight[t].urgent ==> next[n] == End)
      && (forall u :: u in q.flight && u != t ==> q.flight[u].node != n && q.flight[u].node !in q.queued)
  {
    FlightsApart(q, t);
  }

  lemma OutOfHand(q: Queue)
    requires Inv(q)
    ensures forall t :: t in q.flight ==> q.flight[t].node < q.max && q.flight[t].node !in q.queued
  {
    FlightsApart(q, 0);
  }

  lemma FreeFacts(q: Queue)
    requires Inv(q) && q.free != []
    ensures !InFlight(q, q.free[0]) && q.free[0] < q.max
  {
    assert q.free[0] in q.free;
  }

  /** A thread takes up a node that was in nobody's hand. */
  lemma ClearedLifted(q: Queue, next: seq<Word>, next': seq<Word>, t: Tid, f: Flight)
    requires Cleared(next, q.flight) && |next'| == |next| == q.max && f.node < |next| && !InFlight(q, f.node)
    requires next' == next || next' == next[f.node := End]
    requires f.Filling? && !f.urgent ==> next'[f.node] == End
    ensures Cleared(next', q.flight[t := f])
  {
    forall u | u in q.flight
      ensures q.flight[u].node != f.node
    {
    }
  }

  /** A thread lays its node down, or nobody moves; links change outside the hands only. */
  lemma ClearedKept(next: seq<Word>, flight: map<Tid, Flight>, next': seq<Word>, flight': map<Tid, Flight>)
    requires Cleared(next, flight) && |next'| == |next|
    requires forall t :: t in flight' ==> t in flight && flight'[t] == flight[t]
    requires forall t :: t in flight' && flight[t].node < |next| ==> next'[flight[t].node] == next[flight[t].node]
    ensures Cleared(next', flight')
  {
  }
}
