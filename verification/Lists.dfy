/** Sequences without repetition, which every linked list of the kernel is read as. */
module Lists {

  ghost predicate Distinct<T>(s: seq<T>) {
    forall i, j :: 0 <= i < j < |s| ==> s[i] != s[j]
  }

  /** `x` put in at position `i`. */
  function Inserted<T>(s: seq<T>, i: nat, x: T): seq<T>
    requires i <= |s|
  {
    s[..i] + [x] + s[i..]
  }

  function Removed<T>(s: seq<T>, i: nat): seq<T>
    requires i < |s|
  {
    s[..i] + s[i+1..]
  }

  lemma InsertedAt<T>(s: seq<T>, i: nat, x: T, k: nat)
    requires i <= |s| && k <= |s|
    ensures Inserted(s, i, x)[k] == if k < i then s[k] else if k == i then x else s[k-1]
  {
  }

  lemma InsertedDistinct<T>(s: seq<T>, i: nat, x: T)
    requires Distinct(s) && i <= |s| && x !in s
    ensures Distinct(Inserted(s, i, x))
  {
    var q := Inserted(s, i, x);
    forall a, b | 0 <= a < b < |q|
      ensures q[a] != q[b]
    {
      InsertedAt(s, i, x, a);
      InsertedAt(s, i, x, b);
    }
  }

  lemma InsertedMembers<T>(s: seq<T>, i: nat, x: T)
    requires i <= |s|
    ensures forall y :: y in Inserted(s, i, x) <==> y in s || y == x
  {
    var q := Inserted(s, i, x);
    assert s == s[..i] + s[i..];
    assert q[i] == x;
  }

  lemma RemovedDistinct<T>(s: seq<T>, i: nat)
    requires Distinct(s) && i < |s|
    ensures Distinct(Removed(s, i)) && s[i] !in Removed(s, i)
  {
    var q := Removed(s, i);
    forall a | 0 <= a < |q|
      ensures q[a] == s[if a < i then a else a + 1] && q[a] != s[i]
    {
    }
  }

  lemma RemovedMembers<T>(s: seq<T>, i: nat)
    requires Distinct(s) && i < |s|
    ensures forall y :: y in Removed(s, i) <==> y in s && y != s[i]
  {
    RemovedDistinct(s, i);
    assert s == s[..i] + ([s[i]] + s[i+1..]);
  }

  lemma TailDistinct<T>(s: seq<T>)
    requires Distinct(s) && s != []
    ensures Distinct(s[1..]) && s[0] !in s[1..]
    ensures forall x :: x in s[1..] <==> x in s && x != s[0]
  {
    assert s == [s[0]] + s[1..];
  }

  /** Taking out the element just put in gives back the sequence. */
  lemma RemoveUndoesInsert<T>(s: seq<T>, i: nat, x: T)
    requires i <= |s|
    ensures Removed(Inserted(s, i, x), i) == s
  {
    assert Inserted(s, i, x)[..i] == s[..i];
    assert Inserted(s, i, x)[i+1..] == s[i..];
  }

  function Without<T(==)>(s: seq<T>, x: T): (r: seq<T>) {
    if s == [] then [] else if s[0] == x then s[1..] else [s[0]] + Without(s[1..], x)
  }

  lemma {:induction false} WithoutAt<T>(s: seq<T>, k: nat)
    requires Distinct(s) && k < |s|
    ensures Without(s, s[k]) == Removed(s, k)
  {
    if k > 0 {
      WithoutAt(s[1..], k - 1);
      assert s[..k] == [s[0]] + s[1..][..k-1] && s[1..][k..] == s[k+1..];
    }
  }

  lemma {:induction false} WithoutAbsent<T>(s: seq<T>, x: T)
    requires x !in s
    ensures Without(s, x) == s
  {
    if s != [] {
      WithoutAbsent(s[1..], x);
    }
  }

  /** Taking an element out keeps everything else. */
  lemma WithoutMembers<T>(s: seq<T>, x: T)
    requires Distinct(s)
    ensures Distinct(Without(s, x)) && x !in Without(s, x)
    ensures forall y :: y in Without(s, x) <==> y in s && y != x
    ensures |Without(s, x)| == if x in s then |s| - 1 else |s|
  {
    if x in s {
      var k :| 0 <= k < |s| && s[k] == x;
      WithoutAt(s, k);
      RemovedDistinct(s, k);
      RemovedMembers(s, k);
    } else {
      WithoutAbsent(s, x);
    }
  }
}
