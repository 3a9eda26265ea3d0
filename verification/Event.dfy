/** rt_event_send, rt_event_recv and rt_event_control(RESET) as atomic steps.

    A set of up to 32 events; a thread waits for all or for any of the events it names, and may ask
    for the events it gets to be cleared. */
module EventSpec {
  import opened IpcList
  import opened Lists

  const FLAG_AND: bv8 := 0x01
  const FLAG_OR: bv8 := 0x02
  const FLAG_CLEAR: bv8 := 0x04

  /** event_set and event_info of a thread. */
  datatype Want = Want(bits: bv32, info: bv8)

  datatype Event = Event(bits: bv32, waiters: seq<Tid>, wants: seq<Want>)

  datatype Outcome = Got(bits: bv32) | Nothing | Refused | Asleep

  // ---- a word as a set of events ----

  function Union(a: bv32, b: bv32): bv32 { a | b }

  function Common(a: bv32, b: bv32): bv32 { a & b }

  function Minus(a: bv32, b: bv32): bv32 { a & !b }

  predicate Covers(a: bv32, b: bv32) { a & b == b }

  predicate Meets(a: bv32, b: bv32) { a & b != 0 }

  predicate Has(info: bv8, flag: bv8) { info & flag != 0 }

  predicate Satisfied(bits: bv32, w: Want) {
    if Has(w.info, FLAG_AND) then Covers(bits, w.bits) else Has(w.info, FLAG_OR) && Meets(bits, w.bits)
  }

  /** The events that a thread leaves behind which receives at once. */
  function After(bits: bv32, w: Want): bv32 {
    if Has(w.info, FLAG_CLEAR) then Minus(bits, w.bits) else bits
  }

  /** Every thread of `queue` has wait fields. */
  predicate InRange(queue: seq<Tid>, wants: seq<Want>) {
    forall t :: t in queue ==> t < |wants|
  }

  predicate Known(e: Event) {
    InRange(e.waiters, e.wants)
  }

  /** Every waiter of `queue` in turn receives as if it had just called, if it can. */
  function Serve(bits: bv32, queue: seq<Tid>, wants: seq<Want>): (r: Event)
    requires InRange(queue, wants)
    ensures |r.wants| == |wants| && Known(r)
    ensures forall t :: t in r.waiters ==> t in queue
    decreases |queue|
  {
    hide Satisfied, After, Common;
    if queue == [] then Event(bits, [], wants) else
    var t := queue[0];
    assert t in queue && forall x :: x in queue[1..] ==> x in queue;
    var w := wants[t];
    if Satisfied(bits, w) then Serve(After(bits, w), queue[1..], wants[t := w.(bits := Common(bits, w.bits))])
    else
      var r := Serve(bits, queue[1..], wants);
      Event(r.bits, [t] + r.waiters, r.wants)
  }

  function Send(e: Event, sent: bv32): (r: (Event, Outcome))
    requires Known(e)
  {
    if sent == 0 then (e, Refused) else (Serve(Union(e.bits, sent), e.waiters, e.wants), Nothing)
  }

  function Recv(e: Event, t: Tid, w: Want, wait: bool, c: Config): (r: (Event, Outcome))
    requires t < |e.wants|
  {
    if w.bits == 0 then (e, Refused)
    else if Satisfied(e.bits, w) then (e.(bits := After(e.bits, w)), Got(Common(e.bits, w.bits)))
    else if !wait then (e, Nothing)
    else (e.(waiters := Suspend(e.waiters, t, c.flag, c.prio), wants := e.wants[t := w]), Asleep)
  }

  function Timeout(e: Event, t: Tid): Event {
    e.(waiters := Without(e.waiters, t))
  }

  function Reset(e: Event): Event {
    e.(waiters := [], bits := 0)
  }

  /** No thread sleeps on a condition that holds. */
  ghost predicate NobodyStranded(e: Event) {
    forall t :: t in e.waiters && t < |e.wants| ==> !Satisfied(e.bits, e.wants[t])
  }

  /** Every waiter waits for some event. */
  ghost predicate Wanting(e: Event) {
    forall t :: t in e.waiters && t < |e.wants| ==> e.wants[t].bits != 0
  }

  ghost predicate Inv(e: Event) {
    Known(e) && Distinct(e.waiters) && NobodyStranded(e) && Wanting(e)
  }

  // ---- fewer events satisfy fewer threads ----

  lemma CoversMore(small: bv32, large: bv32, m: bv32)
    requires Covers(large, small) && Covers(small, m)
    ensures Covers(large, m)
  {
  }

  lemma MeetsMore(small: bv32, large: bv32, m: bv32)
    requires Covers(large, small) && Meets(small, m)
    ensures Meets(large, m)
  {
  }

  lemma FewerSatisfy(small: bv32, large: bv32, w: Want)
    requires Covers(large, small) && Satisfied(small, w)
    ensures Satisfied(large, w)
  {
    hide Covers, Meets, Has;
    if Has(w.info, FLAG_AND) {
      CoversMore(small, large, w.bits);
    } else {
      MeetsMore(small, large, w.bits);
    }
  }

  lemma MinusFewer(a: bv32, b: bv32)
    ensures Covers(a, Minus(a, b))
  {
  }

  lemma Reflexive(bits: bv32)
    ensures Covers(bits, bits)
  {
  }

  lemma AfterFewer(bits: bv32, w: Want)
    ensures Covers(bits, After(bits, w))
  {
    hide Covers, Minus, Has;
    MinusFewer(bits, w.bits);
    Reflexive(bits);
  }

  // ---- nobody is stranded ----

  /** Serving only takes events away, touches nobody but the waiters it serves, and satisfies nobody it leaves behind. */
  ghost predicate Served(bits: bv32, queue: seq<Tid>, wants: seq<Want>, r: Event)
    requires |r.wants| == |wants| && Known(r)
  {
    && Covers(bits, r.bits)
    && Distinct(r.waiters) && NobodyStranded(r)
    && (forall t: Tid :: t < |wants| && t !in queue ==> r.wants[t] == wants[t])
    && (forall t :: t in r.waiters ==> r.wants[t] == wants[t] && t in queue)
  }

  lemma {:induction false} ServeKeeps(bits: bv32, queue: seq<Tid>, wants: seq<Want>)
    requires InRange(queue, wants) && Distinct(queue)
    ensures Served(bits, queue, wants, Serve(bits, queue, wants))
    decreases |queue|
  {
    hide Satisfied, After, Covers, Common, Served;
    if queue == [] {
      ServedNone(bits, wants);
    } else {
      var t := queue[0];
      assert t in queue;
      TailDistinct(queue);
      var w := wants[t];
      if Satisfied(bits, w) {
        var wants' := wants[t := w.(bits := Common(bits, w.bits))];
        ServeKeeps(After(bits, w), queue[1..], wants');
        AfterFewer(bits, w);
        ServedFirst(bits, queue, wants, After(bits, w), wants', Serve(bits, queue, wants));
      } else {
        ServeKeeps(bits, queue[1..], wants);
        SkippedFirst(bits, queue, wants, Serve(bits, queue[1..], wants));
      }
    }
  }

  lemma ServedNone(bits: bv32, wants: seq<Want>)
    ensures Served(bits, [], wants, Event(bits, [], wants))
  {
    Reflexive(bits);
  }

  lemma ServedFirst(bits: bv32, queue: seq<Tid>, wants: seq<Want>, bits': bv32, wants': seq<Want>, r: Event)
    requires queue != [] && queue[0] < |wants| && Distinct(queue)
    requires |wants'| == |wants| && wants' == wants[queue[0] := wants'[queue[0]]] && Covers(bits, bits')
    requires |r.wants| == |wants| && Known(r) && Served(bits', queue[1..], wants', r)
    ensures Served(bits, queue, wants, r)
  {
    hide Covers, Distinct, NobodyStranded;
    TailDistinct(queue);
    CoversMore(bits', bits, r.bits);
  }

  lemma SkippedFirst(bits: bv32, queue: seq<Tid>, wants: seq<Want>, r: Event)
    requires queue != [] && queue[0] < |wants| && Distinct(queue) && !Satisfied(bits, wants[queue[0]])
    requires |r.wants| == |wants| && Known(r) && Served(bits, queue[1..], wants, r)
    ensures Served(bits, queue, wants, Event(r.bits, [queue[0]] + r.waiters, r.wants))
  {
    hide Covers, Satisfied;
    TailDistinct(queue);
    var w := wants[queue[0]];
    if Satisfied(r.bits, w) {
      FewerSatisfy(r.bits, bits, w);
      assert false;
    }
  }

  datatype Step = DoSend(sent: bv32) | DoRecv(t: Tid, w: Want, wait: bool) | DoTimeout(t: Tid) | DoReset

  predicate Enabled(e: Event, s: Step) {
    match s
    case DoRecv(t, w, _) => t < |e.wants| && t !in e.waiters
    case _ => true
  }

  function Do(e: Event, s: Step, c: Config): Event
    requires Known(e)
  {
    if !Enabled(e, s) then e else
    match s
    case DoSend(sent) => Send(e, sent).0
    case DoRecv(t, w, wait) => Recv(e, t, w, wait, c).0
    case DoTimeout(t) => Timeout(e, t)
    case DoReset => Reset(e)
  }

  lemma RecvKeeps(e: Event, t: Tid, w: Want, wait: bool, c: Config)
    requires Inv(e) && t < |e.wants| && t !in e.waiters
    ensures Inv(Recv(e, t, w, wait, c).0)
  {
    hide Satisfied, After, Suspend, Covers, Common;
    var r := Recv(e, t, w, wait, c).0;
    if w.bits != 0 && Satisfied(e.bits, w) {
      AfterFewer(e.bits, w);
      forall x | x in e.waiters
        ensures !Satisfied(r.bits, e.wants[x])
      {
        if Satisfied(r.bits, e.wants[x]) {
          FewerSatisfy(r.bits, e.bits, e.wants[x]);
          assert false;
        }
      }
    } else {
      SuspendKeeps(e.waiters, t, c.flag, c.prio);
    }
  }

  lemma StepInv(e: Event, s: Step, c: Config)
    requires Inv(e)
    ensures Inv(Do(e, s, c))
  {
    hide Satisfied, After, Suspend, Union, Common;
    if Enabled(e, s) {
      match s
      case DoSend(sent) => ServeKeeps(Union(e.bits, sent), e.waiters, e.wants);
      case DoRecv(t, w, wait) => RecvKeeps(e, t, w, wait, c);
      case DoTimeout(t) => WithoutMembers(e.waiters, t);
      case DoReset =>
    }
  }

  function Run(e: Event, steps: seq<Step>, c: Config): (r: Event)
    requires Inv(e)
    ensures Inv(r)
    decreases |steps|
  {
    if steps == [] then e else
    StepInv(e, steps[0], c);
    Run(Do(e, steps[0], c), steps[1..], c)
  }

  /** After any run no waiter's condition is met by the events that are set. */
  lemma RunStrandsNobody(wants: seq<Want>, steps: seq<Step>, c: Config)
    ensures Inv(Event(0, [], wants))
    ensures var e := Run(Event(0, [], wants), steps, c);
      forall t :: t in e.waiters ==> t < |e.wants| && !Satisfied(e.bits, e.wants[t])
  {
  }

  // ---- what is delivered ----

  /** The events that each served waiter receives, in the order of service. */
  function Deliveries(bits: bv32, queue: seq<Tid>, wants: seq<Want>): seq<(Want, bv32)>
    requires InRange(queue, wants)
    decreases |queue|
  {
    hide Satisfied, After, Common;
    if queue == [] then [] else
    var t := queue[0];
    assert t in queue && forall x :: x in queue[1..] ==> x in queue;
    var w := wants[t];
    var got := Common(bits, w.bits);
    if Satisfied(bits, w) then [(w, got)] + Deliveries(After(bits, w), queue[1..], wants[t := w.(bits := got)])
    else Deliveries(bits, queue[1..], wants)
  }

  /** Serving a queue is serving its front and then, with what is left, its rest. */
  lemma {:induction false} ServeSplit(bits: bv32, a: seq<Tid>, b: seq<Tid>, wants: seq<Want>)
    requires InRange(a, wants) && InRange(b, wants)
    ensures InRange(a + b, wants)
    ensures var r1 := Serve(bits, a, wants);
      var r2 := Serve(r1.bits, b, r1.wants);
      Serve(bits, a + b, wants) == Event(r2.bits, r1.waiters + r2.waiters, r2.wants)
    decreases |a|
  {
    hide Satisfied, After, Common;
    if a == [] {
      assert a + b == b;
      assert [] + Serve(bits, b, wants).waiters == Serve(bits, b, wants).waiters;
    } else {
      var t := a[0];
      assert t in a && forall x :: x in a[1..] ==> x in a;
      assert (a + b)[0] == t && (a + b)[1..] == a[1..] + b;
      var w := wants[t];
      if Satisfied(bits, w) {
        ServeSplit(After(bits, w), a[1..], b, wants[t := w.(bits := Common(bits, w.bits))]);
      } else {
        ServeSplit(bits, a[1..], b, wants);
        var r1 := Serve(bits, a[1..], wants);
        var r2 := Serve(r1.bits, b, r1.wants);
        assert [t] + (r1.waiters + r2.waiters) == ([t] + r1.waiters) + r2.waiters;
      }
    }
  }

  /** One waiter is served or left waiting. */
  lemma ServeOne(bits: bv32, t: Tid, wants: seq<Want>)
    requires t < |wants|
    ensures Serve(bits, [t], wants) ==
      if Satisfied(bits, wants[t])
      then Event(After(bits, wants[t]), [], wants[t := wants[t].(bits := Common(bits, wants[t].bits))])
      else Event(bits, [t], wants)
  {
    hide Satisfied, After, Common;
    assert [t][1..] == [];
    assert [t] + [] == [t];
  }

  /** What the scan does when it comes to the `k`th waiter of a queue. */
  lemma ServeAt(bits: bv32, queue: seq<Tid>, wants: seq<Want>, k: nat)
    requires InRange(queue, wants) && Distinct(queue) && k < |queue|
    ensures queue[k] in queue && InRange(queue[..k], wants) && InRange(queue[..k+1], wants)
    ensures var t, front, later := queue[k], Serve(bits, queue[..k], wants), Serve(bits, queue, wants);
      var one := Serve(bits, queue[..k+1], wants);
      && (t in later.waiters <==> !Satisfied(front.bits, wants[t]))
      && later.wants[t] == (if Satisfied(front.bits, wants[t]) then wants[t].(bits := Common(front.bits, wants[t].bits)) else wants[t])
      && one.bits == if Satisfied(front.bits, wants[t]) then After(front.bits, wants[t]) else front.bits
  {
    hide Satisfied, After, Common, Serve, Covers, NobodyStranded;
    var t, a, b := queue[k], queue[..k], queue[k+1..];
    assert queue[..k+1] == a + [t] && queue == (a + [t]) + b;
    Parted(queue, k, wants);
    ServeKeeps(bits, a, wants);
    var front := Serve(bits, a, wants);
    ServeOne(front.bits, t, front.wants);
    ServeSplit(bits, a, [t], wants);
    var one := Serve(bits, a + [t], wants);
    ServeSplit(bits, a + [t], b, wants);
    ServeKeeps(one.bits, b, one.wants);
  }

  lemma Parted(queue: seq<Tid>, k: nat, wants: seq<Want>)
    requires Distinct(queue) && InRange(queue, wants) && k < |queue|
    ensures Distinct(queue[..k]) && Distinct(queue[k+1..]) && queue[k] !in queue[..k] && queue[k] !in queue[k+1..]
    ensures queue[k] in queue && InRange(queue[..k], wants) && InRange(queue[k+1..], wants) && InRange(queue[..k+1], wants)
  {
    var a, b, c := queue[..k], queue[..k+1], queue[k+1..];
    assert (forall x :: x in a ==> x in queue) && (forall x :: x in b ==> x in queue) && forall x :: x in c ==> x in queue;
  }

  /** The scan of a send treats every waiter as a receive would that is called when the scan comes to it: the
      waiter gets the same events and leaves the same behind if it is served, and it is served if and only
      if the receive would succeed. */
  lemma DelayedIsImmediate(e: Event, k: nat, sent: bv32, c: Config)
    requires Inv(e) && k < |e.waiters| && sent != 0
    ensures e.waiters[k] < |e.wants| && InRange(e.waiters[..k], e.wants) && InRange(e.waiters[..k+1], e.wants)
    ensures
      var t, w := e.waiters[k], e.wants[e.waiters[k]];
      var bits, later := Union(e.bits, sent), Send(e, sent).0;
      var (now, o) := Recv(Serve(bits, e.waiters[..k], e.wants), t, w, false, c);
      && now.bits == Serve(bits, e.waiters[..k+1], e.wants).bits
      && (t !in later.waiters <==> o.Got?)
      && later.wants[t] == (if o.Got? then w.(bits := o.bits) else w)
  {
    hide Satisfied, After, Common, Union, Serve;
    assert e.waiters[k] in e.waiters;
    ServeAt(Union(e.bits, sent), e.waiters, e.wants, k);
  }

  predicate Disjoint(a: bv32, b: bv32) { a & b == 0 }

  lemma CommonWithin(a: bv32, b: bv32)
    ensures Covers(a, Common(a, b))
  {
  }

  /** Nobody receives an event that is not set. */
  lemma {:induction false} DeliveredWereSet(bits: bv32, queue: seq<Tid>, wants: seq<Want>)
    requires InRange(queue, wants)
    ensures forall d :: d in Deliveries(bits, queue, wants) ==> Covers(bits, d.1)
    decreases |queue|
  {
    hide Satisfied, After, Common, Covers;
    if queue != [] {
      var t := queue[0];
      assert t in queue && forall x :: x in queue[1..] ==> x in queue;
      var w := wants[t];
      if Satisfied(bits, w) {
        var got := Common(bits, w.bits);
        CommonWithin(bits, w.bits);
        AfterFewer(bits, w);
        var rest := Deliveries(After(bits, w), queue[1..], wants[t := w.(bits := got)]);
        DeliveredWereSet(After(bits, w), queue[1..], wants[t := w.(bits := got)]);
        forall d | d in rest
          ensures Covers(bits, d.1)
        {
          CoversMore(After(bits, w), bits, d.1);
        }
      } else {
        DeliveredWereSet(bits, queue[1..], wants);
      }
    }
  }

  lemma MinusDisjoint(a: bv32, b: bv32, c: bv32)
    requires Covers(Minus(a, b), c)
    ensures Disjoint(Common(a, b), c)
  {
  }

  /** An event that one send clears for a waiter reaches no waiter after it. */
  lemma {:induction false} ClearedOnce(bits: bv32, queue: seq<Tid>, wants: seq<Want>, i: nat, j: nat)
    requires InRange(queue, wants)
    requires i < j < |Deliveries(bits, queue, wants)|
    requires Has(Deliveries(bits, queue, wants)[i].0.info, FLAG_CLEAR)
    ensures Disjoint(Deliveries(bits, queue, wants)[i].1, Deliveries(bits, queue, wants)[j].1)
    decreases |queue|
  {
    hide Satisfied, Common, Covers, Minus, Has;
    var t := queue[0];
    assert t in queue && forall x :: x in queue[1..] ==> x in queue;
    var w := wants[t];
    if Satisfied(bits, w) {
      var got := Common(bits, w.bits);
      var wants' := wants[t := w.(bits := got)];
      var rest := Deliveries(After(bits, w), queue[1..], wants');
      if i > 0 {
        ClearedOnce(After(bits, w), queue[1..], wants', i - 1, j - 1);
      } else {
        DeliveredWereSet(After(bits, w), queue[1..], wants');
        assert rest[j-1] in rest;
        MinusDisjoint(bits, w.bits, rest[j-1].1);
      }
    } else {
      ClearedOnce(bits, queue[1..], wants, i, j);
    }
  }

  // ---- events one by one ----

  /** Event number `i` is set. */
  predicate On(bits: bv32, i: nat)
    decreases i
  {
    if i == 0 then bits & 1 == 1 else On(bits >> 1, i - 1)
  }

  lemma Half(bits: bv32)
    requires bits != 0
    ensures bits >> 1 < bits
    ensures bits & 1 == 1 || bits >> 1 != 0
  {
  }

  lemma {:induction false} SomeEvent(bits: bv32) returns (k: nat)
    requires bits != 0
    ensures On(bits, k)
    decreases bits
  {
    k := 0;
    if bits & 1 != 1 {
      Half(bits);
      k := SomeEvent(bits >> 1);
      k := k + 1;
    }
  }

  lemma FirstEvent(a: bv32, b: bv32)
    ensures Union(a, b) & 1 == 1 <==> a & 1 == 1 || b & 1 == 1
    ensures Common(a, b) & 1 == 1 <==> a & 1 == 1 && b & 1 == 1
    ensures Minus(a, b) & 1 == 1 <==> a & 1 == 1 && b & 1 != 1
  {
  }

  lemma EitherShifts(a: bv32, b: bv32)
    ensures (a | b) >> 1 == (a >> 1) | (b >> 1)
  {
  }

  lemma BothShift(a: bv32, b: bv32)
    ensures (a & b) >> 1 == (a >> 1) & (b >> 1)
  {
  }

  lemma RestShifts(a: bv32, b: bv32)
    ensures (a & !b) >> 1 == (a >> 1) & !(b >> 1)
  {
  }

  lemma UnionIs(a: bv32, b: bv32)
    ensures Union(a, b) == a | b
  {
  }

  lemma UnionShifts(a: bv32, b: bv32)
    ensures Union(a, b) >> 1 == Union(a >> 1, b >> 1)
  {
    hide Union;
    UnionIs(a, b);
    UnionIs(a >> 1, b >> 1);
    EitherShifts(a, b);
  }

  lemma CommonIs(a: bv32, b: bv32)
    ensures Common(a, b) == a & b
  {
  }

  lemma CommonShifts(a: bv32, b: bv32)
    ensures Common(a, b) >> 1 == Common(a >> 1, b >> 1)
  {
    hide Common;
    CommonIs(a, b);
    CommonIs(a >> 1, b >> 1);
    BothShift(a, b);
  }

  lemma MinusIs(a: bv32, b: bv32)
    ensures Minus(a, b) == a & !b
  {
  }

  lemma MinusShifts(a: bv32, b: bv32)
    ensures Minus(a, b) >> 1 == Minus(a >> 1, b >> 1)
  {
    hide Minus;
    MinusIs(a, b);
    MinusIs(a >> 1, b >> 1);
    RestShifts(a, b);
  }

  lemma {:induction false} OneEvent(a: bv32, b: bv32, i: nat)
    ensures On(Union(a, b), i) <==> On(a, i) || On(b, i)
    ensures On(Common(a, b), i) <==> On(a, i) && On(b, i)
    ensures On(Minus(a, b), i) <==> On(a, i) && !On(b, i)
    decreases i
  {
    hide Union, Common, Minus;
    if i == 0 {
      FirstEvent(a, b);
    } else {
      UnionShifts(a, b);
      CommonShifts(a, b);
      MinusShifts(a, b);
      OneEvent(a >> 1, b >> 1, i - 1);
    }
  }

  lemma AllCovered(a: bv32, b: bv32)
    requires a & b == b
    ensures b & !a == 0
  {
  }

  lemma NoneUncovered(a: bv32, b: bv32)
    requires b & !a == 0
    ensures a & b == b
  {
  }

  lemma NoneLeft(a: bv32, b: bv32)
    ensures Covers(a, b) <==> Minus(b, a) == 0
  {
    if Covers(a, b) {
      AllCovered(a, b);
    } else if Minus(b, a) == 0 {
      NoneUncovered(a, b);
    }
  }

  lemma {:induction false} NoEvent(i: nat)
    ensures !On(0, i)
    decreases i
  {
    if i > 0 {
      assert (0 as bv32) >> 1 == 0;
      NoEvent(i - 1);
    }
  }

  lemma CoversMeans(a: bv32, b: bv32)
    ensures Covers(a, b) <==> forall i: nat :: On(b, i) ==> On(a, i)
  {
    hide Covers, Minus, On;
    NoneLeft(a, b);
    if Minus(b, a) != 0 {
      var k := SomeEvent(Minus(b, a));
      OneEvent(b, a, k);
    } else {
      forall i: nat | On(b, i)
        ensures On(a, i)
      {
        OneEvent(b, a, i);
        NoEvent(i);
      }
    }
  }

  lemma MeetsCommon(a: bv32, b: bv32)
    ensures Meets(a, b) <==> Common(a, b) != 0
  {
  }

  lemma MeetsMeans(a: bv32, b: bv32)
    ensures Meets(a, b) <==> exists i: nat :: On(a, i) && On(b, i)
  {
    hide Meets, Common, On;
    MeetsCommon(a, b);
    if Common(a, b) != 0 {
      var k := SomeEvent(Common(a, b));
      OneEvent(a, b, k);
    } else {
      forall i: nat
        ensures !(On(a, i) && On(b, i))
      {
        OneEvent(a, b, i);
        NoEvent(i);
      }
    }
  }

  /** With RT_EVENT_FLAG_AND a thread waits for all the events it names, else with RT_EVENT_FLAG_OR for any. */
  lemma SatisfiedMeans(bits: bv32, w: Want)
    ensures Has(w.info, FLAG_AND) ==> (Satisfied(bits, w) <==> forall i: nat :: On(w.bits, i) ==> On(bits, i))
    ensures !Has(w.info, FLAG_AND) ==>
      (Satisfied(bits, w) <==> Has(w.info, FLAG_OR) && exists i: nat :: On(bits, i) && On(w.bits, i))
  {
    CoversMeans(bits, w.bits);
    MeetsMeans(bits, w.bits);
    hide Covers, Meets, Has, On;
  }

  // ---- what a call reports ----

  /** A receive succeeds if and only if what it waits for holds, with those events it names that are set; it goes to
      sleep if and only if it does not hold and it waits.  Only with RT_EVENT_FLAG_CLEAR does it clear the events it
      names; without, the set stays as it is. */
  lemma RecvOutcome(e: Event, t: Tid, w: Want, wait: bool, c: Config)
    requires Inv(e) && Enabled(e, DoRecv(t, w, wait))
    ensures var (e', r) := Recv(e, t, w, wait, c);
      && (r.Refused? <==> w.bits == 0) && (r.Got? <==> w.bits != 0 && Satisfied(e.bits, w))
      && (r.Got? ==> r.bits == Common(e.bits, w.bits))
      && (r.Asleep? <==> w.bits != 0 && !Satisfied(e.bits, w) && wait) && (r.Asleep? <==> t in e'.waiters)
      && e'.bits == (if r.Got? && Has(w.info, FLAG_CLEAR) then Minus(e.bits, w.bits) else e.bits)
      && if r.Asleep? then Joins(e.waiters, t, c, e'.waiters) && e'.wants == e.wants[t := w] else e'.waiters == e.waiters && e'.wants == e.wants
  {
    SuspendJoins(e.waiters, t, c);
    SuspendKeeps(e.waiters, t, c.flag, c.prio);
    hide Suspend, Joins, Satisfied, Common, Minus, Has;
  }

  /** A send of no events is refused; a timeout takes one thread off the list, the reset all of them and all events. */
  lemma OtherOutcome(e: Event, sent: bv32, t: Tid)
    requires Inv(e)
    ensures Send(e, sent).1 == (if sent == 0 then Refused else Nothing) && (sent == 0 ==> Send(e, sent).0 == e)
    ensures Timeout(e, t).bits == e.bits && Timeout(e, t).wants == e.wants && Leaves(e.waiters, t, Timeout(e, t).waiters)
    ensures Reset(e) == Event(0, [], e.wants)
  {
    WithoutLeaves(e.waiters, t);
    hide Leaves, Without, Serve;
  }

  /** The events that were cleared for waiters: of those that asked for it, what they got. */
  function Cleared(ds: seq<(Want, bv32)>): bv32 {
    if ds == [] then 0 else Union(if Has(ds[0].0.info, FLAG_CLEAR) then ds[0].1 else 0, Cleared(ds[1..]))
  }

  lemma MinusTwice(bits: bv32, m: bv32, more: bv32)
    ensures Minus(Minus(bits, m), more) == Minus(bits, Union(Common(bits, m), more))
    ensures Minus(bits, more) == Minus(bits, Union(0, more)) && Minus(bits, 0) == bits
  {
  }

  lemma {:induction false} ServeLeaves(bits: bv32, queue: seq<Tid>, wants: seq<Want>)
    requires InRange(queue, wants)
    ensures Serve(bits, queue, wants).bits == Minus(bits, Cleared(Deliveries(bits, queue, wants)))
    decreases |queue|
  {
    hide Satisfied, Common, Minus, Union, Has;
    if queue == [] {
      MinusTwice(bits, 0, 0);
    } else {
      var t := queue[0];
      assert t in queue && forall x :: x in queue[1..] ==> x in queue;
      var w := wants[t];
      if Satisfied(bits, w) {
        var got := Common(bits, w.bits);
        var wants' := wants[t := w.(bits := got)];
        var rest := Deliveries(After(bits, w), queue[1..], wants');
        ServeLeaves(After(bits, w), queue[1..], wants');
        MinusTwice(bits, w.bits, Cleared(rest));
        assert ([(w, got)] + rest)[1..] == rest;
      } else {
        ServeLeaves(bits, queue[1..], wants);
      }
    }
  }

  /** After a send exactly those events are set that were set or sent, without those that were delivered to a waiter
      which asked for them to be cleared; what is delivered to the others stays. */
  lemma SendLeaves(e: Event, sent: bv32, i: nat)
    requires Inv(e) && sent != 0
    ensures var ds := Deliveries(Union(e.bits, sent), e.waiters, e.wants);
      && Send(e, sent).0.bits == Minus(Union(e.bits, sent), Cleared(ds))
      && (On(Send(e, sent).0.bits, i) <==>
            (On(e.bits, i) || On(sent, i)) && !exists d :: d in ds && Has(d.0.info, FLAG_CLEAR) && On(d.1, i))
  {
    hide Deliveries, Serve, Union, Minus, Cleared, On, Has;
    ServeLeaves(Union(e.bits, sent), e.waiters, e.wants);
    var ds := Deliveries(Union(e.bits, sent), e.waiters, e.wants);
    OneEvent(e.bits, sent, i);
    OneEvent(Union(e.bits, sent), Cleared(ds), i);
    ClearedMeans(ds, i);
  }

  lemma {:induction false} ClearedMeans(ds: seq<(Want, bv32)>, i: nat)
    ensures On(Cleared(ds), i) <==> exists d :: d in ds && Has(d.0.info, FLAG_CLEAR) && On(d.1, i)
  {
    hide On, Union, Has;
    if ds == [] {
      NoEvent(i);
    } else {
      ClearedMeans(ds[1..], i);
      assert ds == [ds[0]] + ds[1..];
      NoEvent(i);
      OneEvent(if Has(ds[0].0.info, FLAG_CLEAR) then ds[0].1 else 0, Cleared(ds[1..]), i);
    }
  }

  // ---- the order of service ----

  lemma {:induction false} ServeOrder(bits: bv32, queue: seq<Tid>, wants: seq<Want>, c: Config)
    requires InRange(queue, wants) && InOrder(queue, c)
    ensures InOrder(Serve(bits, queue, wants).waiters, c)
    decreases |queue|
  {
    hide Satisfied, After, Common;
    if queue != [] {
      var t := queue[0];
      assert t in queue && forall x :: x in queue[1..] ==> x in queue;
      var w := wants[t];
      if Satisfied(bits, w) {
        ServeOrder(After(bits, w), queue[1..], wants[t := w.(bits := Common(bits, w.bits))], c);
      } else {
        ServeOrder(bits, queue[1..], wants, c);
        var r := Serve(bits, queue[1..], wants);
        forall x | c.flag.PRIO? && x in r.waiters
          ensures c.prio(t) <= c.prio(x)
        {
          assert x in queue[1..];
        }
      }
    }
  }

  lemma StepOrder(e: Event, s: Step, c: Config)
    requires Inv(e) && InOrder(e.waiters, c)
    ensures InOrder(Do(e, s, c).waiters, c)
  {
    hide Satisfied, After, Common, Union, Serve, Suspend, Without;
    match s
    case DoSend(sent) => ServeOrder(Union(e.bits, sent), e.waiters, e.wants, c);
    case DoRecv(t, _, _) => OrderKept(e.waiters, t, c);
    case DoTimeout(t) => OrderKept(e.waiters, t, c);
    case DoReset =>
  }

  lemma InRangeOf(e: Event)
    requires Inv(e)
    ensures Known(e)
  {
  }

  /** In every run of an event object with the priority flag, better threads are served first. */
  lemma {:induction false} RunOrder(e: Event, steps: seq<Step>, c: Config)
    requires Inv(e) && InOrder(e.waiters, c)
    ensures InOrder(Run(e, steps, c).waiters, c)
    decreases |steps|
  {
    hide Inv, Do, InOrder;
    if steps != [] {
      InRangeOf(e);
      StepInv(e, steps[0], c);
      StepOrder(e, steps[0], c);
      RunOrder(Do(e, steps[0], c), steps[1..], c);
    }
  }
}

/** ipc.c: the event object, with the wait fields of the threads. */
module Event {
  import opened EventSpec
  import opened IpcList
  import opened Lists
  import opened WaitList

  /** A thread that waits for all of its events gets just these. */
  lemma CoveredCommon(bits: bv32, m: bv32)
    requires Covers(bits, m)
    ensures Common(bits, m) == m
  {
  }

  /** Clearing the events received or the events asked for makes no difference. */
  lemma MinusCommon(bits: bv32, m: bv32)
    ensures Minus(bits, Common(bits, m)) == Minus(bits, m)
  {
  }

  class RtEvent {
    const threads: array<Want>        // event_set and event_info of every thread
    const config: Config
    const suspendThread: RtIpcList
    var eventSet: bv32

    ghost function State(): EventSpec.Event
      reads this, threads, suspendThread
    {
      EventSpec.Event(eventSet, suspendThread.queue, threads[..])
    }

    ghost predicate Valid()
      reads suspendThread, suspendThread.next, suspendThread.prev
    {
      suspendThread.Valid()
    }

    /** rt_event_init: `next` and `prev` hold the links of all nodes, `head` is the node of the event. */
    constructor (threads: array<Want>, flag: Flag, prio: Priorities, next: array<nat>, prev: array<nat>, head: nat)
      requires next != prev && next.Length == prev.Length && head < next.Length
      modifies next, prev
      ensures Valid() && this.threads == threads && config == Config(flag, prio)
      ensures State() == EventSpec.Event(0, [], threads[..])
      ensures fresh(suspendThread) && suspendThread.next == next && suspendThread.prev == prev && suspendThread.head == head
    {
      var list := new RtIpcList(next, prev, head);
      this.threads, suspendThread, config, eventSet := threads, list, Config(flag, prio), 0;
    }

    /** Gives waiter `thread` its events and clears them if it asked for that. */
    method Deliver(thread: Tid) returns (status: bool)
      requires thread < threads.Length
      modifies this`eventSet, threads
      ensures status == Satisfied(old(eventSet), old(threads[thread]))
      ensures eventSet == if status then After(old(eventSet), old(threads[thread])) else old(eventSet)
      ensures threads[..] == if status then old(threads[..])[thread := old(threads[thread]).(bits := Common(old(eventSet), old(threads[thread]).bits))]
                             else old(threads[..])
    {
      hide Covers, Meets, Common, Minus, Has;
      var w := threads[thread];
      status := false;
      if Has(w.info, FLAG_AND) {
        if Covers(eventSet, w.bits) {
          CoveredCommon(eventSet, w.bits);
          status := true;
        }
      } else if Has(w.info, FLAG_OR) {
        if Meets(eventSet, w.bits) {
          threads[thread] := w.(bits := Common(w.bits, eventSet));
          CommonSwap(w.bits, eventSet);
          status := true;
        }
      }
      if status && Has(w.info, FLAG_CLEAR) {
        MinusCommon(eventSet, w.bits);
        eventSet := Minus(eventSet, threads[thread].bits);
      }
    }

    /** rt_event_send: the ring is walked while waiters drop out of it, the next one looked up first. */
    method SendStep(bits: bv32) returns (r: Outcome)
      requires Valid() && Known(State())
      modifies this, threads, suspendThread, suspendThread.next, suspendThread.prev
      ensures Valid() && (State(), r) == Send(old(State()), bits)
    {
      hide Satisfied, After, Common, Union, Serve, Scanned;
      r := Refused;
      if bits != 0 {
        eventSet := Union(eventSet, bits);
        ghost var sum, k := Serve(eventSet, suspendThread.queue, threads[..]), 0;
        ScanStarts(eventSet, suspendThread.queue, threads[..]);
        suspendThread.NextAt(0);
        var n := suspendThread.next[suspendThread.head];
        suspendThread.HeadApart();
        while n != suspendThread.head
          invariant Valid() && Known(State()) && suspendThread.head !in suspendThread.queue
          invariant k <= |suspendThread.queue| && n == if k < |suspendThread.queue| then suspendThread.queue[k] else suspendThread.head
          invariant Scanned(sum, eventSet, suspendThread.queue, k, threads[..])
          decreases |suspendThread.queue| - k
        {
          ghost var list := suspendThread.queue;
          var thread := n;
          assert thread in list;
          ScanStep(sum, eventSet, list, k, threads[..]);
          var status := Deliver(thread);
          suspendThread.NextAt(k + 1);
          n := suspendThread.next[n];
          if status {
            suspendThread.TakeOut(thread, k);
            assert suspendThread.queue == list[..k] + list[k+1..];
            assert forall t :: t in suspendThread.queue ==> t in list;
          } else {
            k := k + 1;
          }
        }
        ScanEnds(sum, eventSet, suspendThread.queue, threads[..]);
        r := Nothing;
      }
    }

    /** One step of rt_event_recv: the options name at least one of AND and OR. */
    method RecvStep(thread: Tid, bits: bv32, option: bv8, timeout: int) returns (r: Outcome)
      requires Valid() && thread < threads.Length && suspendThread.Idle(thread) && (Has(option, FLAG_AND) || Has(option, FLAG_OR))
      modifies this, threads, suspendThread, suspendThread.next, suspendThread.prev
      ensures Valid() && (State(), r) == Recv(old(State()), thread, Want(bits, option), timeout != 0, config)
    {
      hide Covers, Meets, Common, Minus, Has, Suspend;
      r := Refused;
      if bits != 0 {
        var status := if Has(option, FLAG_AND) then Covers(eventSet, bits) else Meets(eventSet, bits);
        if status {
          r := Got(Common(eventSet, bits));
          if Has(option, FLAG_CLEAR) {
            eventSet := Minus(eventSet, bits);
          }
        } else if timeout == 0 {
          r := Nothing;
        } else {
          threads[thread] := Want(bits, option);
          suspendThread.RtIpcListSuspend(thread, config.flag, config.prio);
          r := Asleep;
        }
      }
    }

    /** rt_thread_timeout on a thread that waits here. */
    method TimeoutStep(thread: Tid)
      requires Valid() && thread in suspendThread.queue
      modifies suspendThread, suspendThread.next, suspendThread.prev
      ensures Valid() && State() == Timeout(old(State()), thread)
    {
      suspendThread.Leave(thread);
    }

    /** rt_event_control with RT_IPC_CMD_RESET. */
    method ResetStep()
      requires Valid()
      modifies this, suspendThread, suspendThread.next, suspendThread.prev
      ensures Valid() && State() == Reset(old(State()))
    {
      ghost var resumed := suspendThread.RtIpcListResumeAll();
      eventSet := 0;
    }
  }

  /** The waiters before position `n` stay, those from there on are still to be served. */
  ghost predicate Scanned(sum: EventSpec.Event, bits: bv32, list: seq<Tid>, n: nat, wants: seq<Want>) {
    && n <= |list| && (forall t :: t in list[n..] ==> t < |wants|)
    && var rest := Serve(bits, list[n..], wants);
       sum == EventSpec.Event(rest.bits, list[..n] + rest.waiters, rest.wants)
  }

  lemma ScanStarts(bits: bv32, list: seq<Tid>, wants: seq<Want>)
    requires forall t :: t in list ==> t < |wants|
    ensures Scanned(Serve(bits, list, wants), bits, list, 0, wants)
  {
    hide Satisfied, After, Common, Serve;
    assert list[0..] == list;
    var r := Serve(bits, list, wants);
    assert [] + r.waiters == r.waiters;
  }

  lemma ScanStep(sum: EventSpec.Event, bits: bv32, list: seq<Tid>, n: nat, wants: seq<Want>)
    requires n < |list| && Scanned(sum, bits, list, n, wants)
    ensures list[n] < |wants| && forall t :: t in list[..n] + list[n+1..] ==> t in list
    ensures
      var w := wants[list[n]];
      if Satisfied(bits, w) then Scanned(sum, After(bits, w), list[..n] + list[n+1..], n, wants[list[n] := w.(bits := Common(bits, w.bits))])
      else Scanned(sum, bits, list, n + 1, wants)
  {
    hide Satisfied, After, Common;
    var tail := list[n..];
    assert tail[0] == list[n] && tail[1..] == list[n+1..] && tail[0] in tail;
    assert forall x :: x in tail[1..] ==> x in tail;
    var w := wants[list[n]];
    if Satisfied(bits, w) {
      var list' := list[..n] + list[n+1..];
      assert list'[n..] == tail[1..] && list'[..n] == list[..n];
    } else {
      assert list[..n+1] == list[..n] + [list[n]];
      var rest := Serve(bits, list[n+1..], wants).waiters;
      assert list[..n] + ([list[n]] + rest) == list[..n+1] + rest;
    }
  }

  lemma ScanEnds(sum: EventSpec.Event, bits: bv32, list: seq<Tid>, wants: seq<Want>)
    requires Scanned(sum, bits, list, |list|, wants)
    ensures sum == EventSpec.Event(bits, list, wants)
  {
    hide Satisfied, After, Common;
    assert list[|list|..] == [] && list[..|list|] == list;
  }

  lemma CommonSwap(a: bv32, b: bv32)
    ensures Common(a, b) == Common(b, a)
  {
  }
}
