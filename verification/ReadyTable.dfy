/** scheduler.c: the ready lists, one ring of thread nodes for each priority. */
module ReadyTable {
  import opened IpcList
  import opened Lists
  import L = RtList
  import SchedulerSpec

  const LEVELS: nat := SchedulerSpec.LEVELS

  /** The heads of the lists are the first nodes, the nodes of the threads follow. */
  function Node(t: Tid): nat { LEVELS + t }

  function Ring(p: nat, q: seq<Tid>): (r: seq<nat>)
    ensures |r| == |q| + 1 && r[0] == p && forall i :: 0 <= i < |q| ==> r[i+1] == Node(q[i])
  {
    [p] + seq(|q|, i requires 0 <= i < |q| => Node(q[i]))
  }

  ghost predicate OnlyIn(lists: seq<seq<Tid>>, t: Tid, p: nat) {
    forall r :: 0 <= r < |lists| && r != p ==> t !in lists[r]
  }

  ghost predicate Unlisted(lists: seq<seq<Tid>>, t: Tid) {
    forall r :: 0 <= r < |lists| ==> t !in lists[r]
  }

  /** Every list is a ring, no thread is in two, and the node of a thread in none is a ring of its own. */
  ghost predicate Rings(next: seq<nat>, prev: seq<nat>, lists: seq<seq<Tid>>, count: nat) {
    && |lists| == LEVELS
    && (forall p :: 0 <= p < LEVELS ==> L.Linked(next, prev, Ring(p, lists[p])))
    && (forall p, t :: 0 <= p < LEVELS && t in lists[p] ==> OnlyIn(lists, t, p))
    && (forall t: Tid :: t < count && Unlisted(lists, t) ==> L.Linked(next, prev, [Node(t)]))
  }

  lemma InRing(p: nat, q: seq<Tid>, x: nat)
    requires p < LEVELS
    ensures x in Ring(p, q) <==> x == p || (x >= LEVELS && x - LEVELS in q)
  {
    var r := Ring(p, q);
    if x in r {
      var i :| 0 <= i < |r| && r[i] == x;
      assert i > 0 ==> q[i-1] in q;
    }
    if x >= LEVELS && x - LEVELS in q {
      var i :| 0 <= i < |q| && q[i] == x - LEVELS;
      assert r[i+1] == x;
    }
  }

  /** What a write to list `p` and to the node of `t` leaves alone. */
  ghost predicate OthersKept(next: seq<nat>, prev: seq<nat>, next': seq<nat>, prev': seq<nat>, p: nat, q: seq<Tid>, t: Tid) {
    && |next'| == |prev'| == |next| == |prev|
    && forall x :: 0 <= x < |next| && x !in Ring(p, q) && x != Node(t) ==> next'[x] == next[x] && prev'[x] == prev[x]
  }

  /** No node of another ring is written. */
  lemma NodesApart(lists: seq<seq<Tid>>, p: nat, t: Tid, r: nat, x: nat)
    requires p < LEVELS && r < LEVELS && r != p && |lists| == LEVELS && OnlyIn(lists, t, p)
    requires forall u :: u in lists[r] ==> OnlyIn(lists, u, r)
    requires x in Ring(r, lists[r])
    ensures x !in Ring(p, lists[p]) && x != Node(t)
  {
    InRing(r, lists[r], x);
    InRing(p, lists[p], x);
    hide Ring;
    if x >= LEVELS {
      assert OnlyIn(lists, x - LEVELS, r);
    }
  }

  lemma OtherRing(next: seq<nat>, prev: seq<nat>, next': seq<nat>, prev': seq<nat>, lists: seq<seq<Tid>>, count: nat, p: nat, t: Tid, r: nat)
    requires Rings(next, prev, lists, count) && p < LEVELS && r < LEVELS && r != p
    requires OthersKept(next, prev, next', prev', p, lists[p], t) && OnlyIn(lists, t, p)
    ensures L.Linked(next', prev', Ring(r, lists[r]))
  {
    var ring := Ring(r, lists[r]);
    hide L.Linked, Ring, OnlyIn, Node;
    forall x | x in ring && x < |next|
      ensures next'[x] == next[x] && prev'[x] == prev[x]
    {
      NodesApart(lists, p, t, r, x);
    }
    L.LinkedFrame(next, prev, next', prev', ring);
  }

  lemma OtherNode(next: seq<nat>, prev: seq<nat>, next': seq<nat>, prev': seq<nat>, lists: seq<seq<Tid>>, count: nat, p: nat, t: Tid, u: Tid)
    requires Rings(next, prev, lists, count) && p < LEVELS && u < count && u != t && Unlisted(lists, u)
    requires OthersKept(next, prev, next', prev', p, lists[p], t)
    ensures L.Linked(next', prev', [Node(u)])
  {
    hide L.Linked;
    InRing(p, lists[p], Node(u));
    L.LinkedFrame(next, prev, next', prev', [Node(u)]);
  }

  /** List `p` gains or loses the thread `t`. */
  lemma RingsChange(next: seq<nat>, prev: seq<nat>, next': seq<nat>, prev': seq<nat>, lists: seq<seq<Tid>>, count: nat, p: nat, t: Tid, q: seq<Tid>)
    requires Rings(next, prev, lists, count) && p < LEVELS && OnlyIn(lists, t, p)
    requires OthersKept(next, prev, next', prev', p, lists[p], t)
    requires forall u :: u != t ==> (u in q <==> u in lists[p])
    requires L.Linked(next', prev', Ring(p, q)) && (t !in q ==> L.Linked(next', prev', [Node(t)]))
    ensures Rings(next', prev', lists[p := q], count)
  {
    var lists' := lists[p := q];
    hide L.Linked, OthersKept, Node;
    forall r | 0 <= r < LEVELS
      ensures L.Linked(next', prev', Ring(r, lists'[r]))
    {
      if r != p {
        OtherRing(next, prev, next', prev', lists, count, p, t, r);
      }
    }
    forall u: Tid | u < count && Unlisted(lists', u)
      ensures L.Linked(next', prev', [Node(u)])
    {
      assert u !in lists'[p];
      if u != t {
        assert forall r :: 0 <= r < LEVELS && r != p ==> lists[r] == lists'[r];
        OtherNode(next, prev, next', prev', lists, count, p, t, u);
      }
    }
    forall r, u | 0 <= r < LEVELS && u in lists'[r]
      ensures OnlyIn(lists', u, r)
    {
      assert u != t ==> u in lists[r] && OnlyIn(lists, u, r);
    }
  }

  lemma RemovedItem(s: seq<nat>, k: nat, i: nat)
    requires k < |s| && i + 1 < |s|
    ensures Removed(s, k)[i] == s[if i < k then i else i + 1]
  {
  }

  lemma RingRemoved(p: nat, q: seq<Tid>, k: nat)
    requires k < |q|
    ensures Removed(Ring(p, q), k + 1) == Ring(p, Removed(q, k))
  {
    var r, c := Ring(p, q), Removed(q, k);
    var a, b := Removed(r, k + 1), Ring(p, c);
    hide Ring;
    assert |a| == |b|;
    forall i | 0 <= i < |a|
      ensures a[i] == b[i]
    {
      RemovedItem(r, k + 1, i);
      if i > 0 {
        RemovedItem(q, k, i - 1);
      }
    }
  }

  /** The ring of list `q` without the node of `t`. */
  lemma RingWithout(p: nat, q: seq<Tid>, t: Tid, i: nat)
    requires Distinct(q) && p < LEVELS && i < |Ring(p, q)| && Ring(p, q)[i] == Node(t)
    ensures Removed(Ring(p, q), i) == Ring(p, Without(q, t))
  {
    assert i > 0 && q[i-1] == t;
    WithoutAt(q, i - 1);
    RingRemoved(p, q, i - 1);
  }

  lemma ListDistinct(next: seq<nat>, prev: seq<nat>, p: nat, q: seq<Tid>)
    requires L.Linked(next, prev, Ring(p, q))
    ensures Distinct(q)
  {
    var r := Ring(p, q);
    forall i, j | 0 <= i < j < |q|
      ensures q[i] != q[j]
    {
      assert r[i+1] != r[j+1];
    }
  }

  /** The node of `t` has left its ring, place `i` of list `p`. */
  lemma ListedOut(next: seq<nat>, prev: seq<nat>, next': seq<nat>, prev': seq<nat>, lists: seq<seq<Tid>>, count: nat, p: nat, t: Tid, i: nat)
    requires Rings(next, prev, lists, count) && p < LEVELS && OnlyIn(lists, t, p) && t in lists[p]
    requires i < |Ring(p, lists[p])| && Ring(p, lists[p])[i] == Node(t)
    requires OthersKept(next, prev, next', prev', p, lists[p], t)
    requires L.Linked(next', prev', Removed(Ring(p, lists[p]), i)) && L.Linked(next', prev', [Node(t)])
    ensures Rings(next', prev', lists[p := Without(lists[p], t)], count)
  {
    ListDistinct(next, prev, p, lists[p]);
    WithoutMembers(lists[p], t);
    RingWithout(p, lists[p], t, i);
    hide L.Linked, OthersKept, Rings, Ring, OnlyIn, Distinct, Without;
    RingsChange(next, prev, next', prev', lists, count, p, t, Without(lists[p], t));
  }

  lemma NotInRing(p: nat, q: seq<Tid>, t: Tid)
    requires p < LEVELS && t !in q
    ensures Node(t) !in Ring(p, q)
  {
    InRing(p, q, Node(t));
  }

  /** A write to a node outside of a ring. */
  lemma OneOut(next: seq<nat>, prev: seq<nat>, next': seq<nat>, prev': seq<nat>, ring: seq<nat>, n: nat)
    requires L.Linked(next, prev, ring) && n !in ring
    requires |next'| == |prev'| == |next| == |prev|
    requires forall x :: 0 <= x < |next| && x != n ==> next'[x] == next[x] && prev'[x] == prev[x]
    ensures L.Linked(next', prev', ring)
  {
    hide L.Linked;
    L.LinkedFrame(next, prev, next', prev', ring);
  }

  /** Only the node of `t`, which is in no list, has been written. */
  lemma AloneOut(next: seq<nat>, prev: seq<nat>, next': seq<nat>, prev': seq<nat>, lists: seq<seq<Tid>>, count: nat, p: nat, t: Tid)
    requires Rings(next, prev, lists, count) && p < LEVELS && OnlyIn(lists, t, p) && t !in lists[p]
    requires |next'| == |prev'| == |next| == |prev|
    requires forall x :: 0 <= x < |next| && x !in [Node(t)] ==> next'[x] == next[x] && prev'[x] == prev[x]
    requires L.Linked(next', prev', [Node(t)])
    ensures Rings(next', prev', lists[p := Without(lists[p], t)], count)
  {
    WithoutAbsent(lists[p], t);
    hide L.Linked, Ring, OnlyIn, Distinct, Without, Node;
    NotInRing(p, lists[p], t);
    OneOut(next, prev, next', prev', Ring(p, lists[p]), Node(t));
    hide Rings;
    RingsChange(next, prev, next', prev', lists, count, p, t, lists[p]);
  }

  class RtReadyTable {
    const next: array<nat>
    const prev: array<nat>
    const count: nat          // of threads
    ghost var lists: seq<seq<Tid>>

    ghost predicate Valid()
      reads this, next, prev
    {
      && next != prev && next.Length == prev.Length == LEVELS + count
      && Rings(next[..], prev[..], lists, count)
    }

    /** Every list is empty, every thread's node a ring of its own. */
    constructor (count: nat)
      ensures Valid() && this.count == count && lists == seq(LEVELS, _ => [])
      ensures fresh(next) && fresh(prev)
    {
      this.count, lists := count, seq(LEVELS, _ => []);
      next := new nat[LEVELS + count];
      prev := new nat[LEVELS + count];
      new;
      var offset := 0;
      while offset < LEVELS + count
        invariant offset <= LEVELS + count && lists == seq(LEVELS, _ => [])
        invariant forall x :: 0 <= x < offset ==> next[x] == x && prev[x] == x
      {
        L.RtListInit(next, prev, offset);
        assert L.LinkAt(next[..], prev[..], [offset], 0);
        offset := offset + 1;
      }
      forall p: nat | p < LEVELS
        ensures L.Linked(next[..], prev[..], Ring(p, lists[p]))
      {
        assert Ring(p, []) == [p];
      }
    }

    /** rt_list_insert_before on the head of list `p`. */
    method Append(p: nat, t: Tid)
      requires Valid() && p < LEVELS && t < count && Unlisted(lists, t)
      modifies this`lists, next, prev
      ensures Valid() && lists == old(lists)[p := old(lists)[p] + [t]]
    {
      hide L.Linked;
      ghost var q, next0, prev0 := lists[p], next[..], prev[..];
      InRing(p, q, Node(t));
      L.RtListInsertBefore(next, prev, p, Node(t), Ring(p, q), |q| + 1);
      assert Inserted(Ring(p, q), |q| + 1, Node(t)) == Ring(p, q + [t]);
      RingsChange(next0, prev0, next[..], prev[..], lists, count, p, t, q + [t]);
      lists := lists[p := q + [t]];
    }

    /** rt_list_remove on the node of a thread that is in list `p` or in none. */
    method Remove(t: Tid, ghost p: nat)
      requires Valid() && p < LEVELS && t < count && OnlyIn(lists, t, p)
      modifies this`lists, next, prev
      ensures Valid() && lists == old(lists)[p := Without(old(lists)[p], t)]
    {
      hide L.Linked, Rings;
      ghost var r, i := RingOf(t, p);
      ghost var q, next0, prev0 := lists[p], next[..], prev[..];
      L.RtListRemove(next, prev, Node(t), r, i);
      if t in q {
        ListedOut(next0, prev0, next[..], prev[..], lists, count, p, t, i);
      } else {
        AloneOut(next0, prev0, next[..], prev[..], lists, count, p, t);
      }
      lists := lists[p := Without(q, t)];
    }

    /** The ring that the node of `t` is in, and the place. */
    ghost method RingOf(t: Tid, p: nat) returns (r: seq<nat>, i: nat)
      requires Valid() && p < LEVELS && t < count && OnlyIn(lists, t, p)
      ensures i < |r| && r[i] == Node(t) && L.Linked(next[..], prev[..], r)
      ensures if t in lists[p] then r == Ring(p, lists[p]) else r == [Node(t)]
      ensures |lists| == LEVELS
    {
      if t in lists[p] {
        ghost var k :| 0 <= k < |lists[p]| && lists[p][k] == t;
        r, i := Ring(p, lists[p]), k + 1;
      } else {
        assert Unlisted(lists, t);
        r, i := [Node(t)], 0;
      }
    }

    method IsEmpty(p: nat) returns (empty: bool)
      requires Valid() && p < LEVELS
      ensures empty <==> lists[p] == []
    {
      empty := L.RtListIsEmpty(next, prev, p, Ring(p, lists[p]));
    }

    /** The thread behind the head of list `p`. */
    method First(p: nat) returns (t: Tid)
      requires Valid() && p < LEVELS && lists[p] != []
      ensures t == lists[p][0]
    {
      ghost var r := Ring(p, lists[p]);
      assert L.LinkAt(next[..], prev[..], r, 0) && L.LinkAt(next[..], prev[..], r, 1);
      t := next[p] - LEVELS;
    }
  }
}
