/** The suspended-thread lists of ipc.c: how a thread is queued, woken or taken out.

    A priority assignment gives the current priority of every thread; a lower
    number is a better priority. */
module IpcList {
  import opened Lists

  type Tid = nat

  type Priorities = Tid -> nat

  datatype Flag = FIFO | PRIO

  datatype Config = Config(flag: Flag, prio: Priorities)

  /** Best priority first. */
  ghost predicate Sorted(q: seq<Tid>, prio: Priorities) {
    forall i, j :: 0 <= i < j < |q| ==> prio(q[i]) <= prio(q[j])
  }

  /** The position of the first thread that `t` outranks. */
  function Place(q: seq<Tid>, t: Tid, prio: Priorities): (k: nat)
    ensures k <= |q|
    ensures forall i :: 0 <= i < k ==> prio(q[i]) <= prio(t)
    ensures k < |q| ==> prio(t) < prio(q[k])
  {
    if q == [] || prio(t) < prio(q[0]) then 0 else 1 + Place(q[1..], t, prio)
  }

  /** The list with `t` queued by the rule of the object's flag. */
  function Suspend(q: seq<Tid>, t: Tid, flag: Flag, prio: Priorities): (r: seq<Tid>) {
    Inserted(q, if flag.FIFO? then |q| else Place(q, t, prio), t)
  }

  /** Queueing adds exactly the thread and leaves the order of the others alone. */
  lemma SuspendKeeps(q: seq<Tid>, t: Tid, flag: Flag, prio: Priorities)
    requires t !in q && Distinct(q)
    ensures Distinct(Suspend(q, t, flag, prio)) && |Suspend(q, t, flag, prio)| == |q| + 1
    ensures forall x :: x in Suspend(q, t, flag, prio) <==> x in q || x == t
    ensures Without(Suspend(q, t, flag, prio), t) == q
  {
    var k := if flag.FIFO? then |q| else Place(q, t, prio);
    InsertedDistinct(q, k, t);
    InsertedMembers(q, k, t);
    WithoutAt(Inserted(q, k, t), k);
    RemoveUndoesInsert(q, k, t);
  }

  /** A priority-ordered list stays ordered, and among equals the newcomer goes last. */
  lemma SuspendSorted(q: seq<Tid>, t: Tid, prio: Priorities)
    requires Sorted(q, prio)
    ensures Sorted(Suspend(q, t, PRIO, prio), prio)
    ensures forall i :: Place(q, t, prio) <= i < |q| ==> prio(t) < prio(q[i])
  {
    var r, k := Suspend(q, t, PRIO, prio), Place(q, t, prio);
    forall i, j | 0 <= i < j < |r|
      ensures prio(r[i]) <= prio(r[j])
    {
      InsertedAt(q, k, t, i);
      InsertedAt(q, k, t, j);
    }
  }

  /** Taking a thread out leaves a priority-ordered list in order. */
  lemma WithoutSorted(s: seq<Tid>, x: Tid, prio: Priorities)
    requires Distinct(s) && Sorted(s, prio)
    ensures Sorted(Without(s, x), prio)
  {
    hide Without, Distinct;
    if x in s {
      var k :| 0 <= k < |s| && s[k] == x;
      WithoutAt(s, k);
      RemovedSorted(s, k, prio);
    } else {
      WithoutAbsent(s, x);
    }
  }

  lemma RemovedSorted(s: seq<Tid>, k: nat, prio: Priorities)
    requires Sorted(s, prio) && k < |s|
    ensures Sorted(Removed(s, k), prio)
  {
    var r := Removed(s, k);
    forall i, j | 0 <= i < j < |r|
      ensures prio(r[i]) <= prio(r[j])
    {
      assert r[i] == s[if i < k then i else i + 1] && r[j] == s[if j < k then j else j + 1];
    }
  }

  // ---- who stands where ----

  /** `r` is the list `q` with `t` queued at position `k` by the rule of the flag: last, or in front of the first
      thread that it outranks. */
  ghost predicate JoinsAt(q: seq<Tid>, t: Tid, c: Config, k: nat, r: seq<Tid>) {
    && k <= |q| && r == q[..k] + [t] + q[k..]
    && (c.flag.FIFO? ==> k == |q|)
    && (c.flag.PRIO? ==> (forall i :: 0 <= i < k ==> c.prio(q[i]) <= c.prio(t)) && (k < |q| ==> c.prio(t) < c.prio(q[k])))
  }

  ghost predicate Joins(q: seq<Tid>, t: Tid, c: Config, r: seq<Tid>) {
    exists k: nat :: JoinsAt(q, t, c, k, r)
  }

  lemma SuspendJoins(q: seq<Tid>, t: Tid, c: Config)
    ensures Joins(q, t, c, Suspend(q, t, c.flag, c.prio))
  {
    assert JoinsAt(q, t, c, if c.flag.FIFO? then |q| else Place(q, t, c.prio), Suspend(q, t, c.flag, c.prio));
  }

  /** The rule leaves no choice. */
  lemma JoinsOnly(q: seq<Tid>, t: Tid, c: Config, r: seq<Tid>, r': seq<Tid>)
    requires Joins(q, t, c, r) && Joins(q, t, c, r')
    ensures r == r'
  {
    var k: nat :| JoinsAt(q, t, c, k, r);
    var k': nat :| JoinsAt(q, t, c, k', r');
    assert k == k';
  }

  /** `r` is the list `q` without `t`, if it was there. */
  ghost predicate Leaves(q: seq<Tid>, t: Tid, r: seq<Tid>) {
    && t !in r && (t !in q ==> r == q)
    && (t in q ==> exists k: nat :: k < |q| && q[k] == t && r == q[..k] + q[k+1..])
  }

  lemma WithoutLeaves(q: seq<Tid>, t: Tid)
    requires Distinct(q)
    ensures Leaves(q, t, Without(q, t))
  {
    WithoutMembers(q, t);
    if t in q {
      var k: nat :| k < |q| && q[k] == t;
      WithoutAt(q, k);
    } else {
      WithoutAbsent(q, t);
    }
  }

  /** Under the priority flag the list is sorted. */
  ghost predicate InOrder(q: seq<Tid>, c: Config) {
    c.flag.PRIO? ==> Sorted(q, c.prio)
  }

  /** Whoever comes or goes, the list stays in order. */
  lemma OrderKept(q: seq<Tid>, t: Tid, c: Config)
    requires Distinct(q) && InOrder(q, c)
    ensures InOrder(Suspend(q, t, c.flag, c.prio), c) && InOrder(Without(q, t), c) && (q != [] ==> InOrder(q[1..], c))
  {
    if c.flag.PRIO? {
      SuspendSorted(q, t, c.prio);
      WithoutSorted(q, t, c.prio);
    }
  }

  /** The first thread of a list in order is one of the best. */
  lemma FirstIsBest(q: seq<Tid>, c: Config)
    requires InOrder(q, c) && c.flag.PRIO? && q != []
    ensures forall t :: t in q ==> c.prio(q[0]) <= c.prio(t)
  {
  }
}
