/** rt_page_alloc and rt_page_free: a list of runs of free pages, sorted by address. */
module PagesSpec {
  import opened RtDef

  /** `count` pages from page number `start` on. */
  datatype Run = Run(start: nat, count: nat)

  function Past(r: Run): nat { r.start + r.count }

  predicate Covers(r: Run, p: nat) {
    r.start <= p < Past(r)
  }

  /** Page `p` is free. */
  predicate Has(list: seq<Run>, p: nat) {
    list != [] && (Covers(list[0], p) || Has(list[1..], p))
  }

  /** The runs are non-empty, in order, and never touch. */
  predicate Canonical(list: seq<Run>) {
    list == [] || (list[0].count > 0 && (|list| > 1 ==> Past(list[0]) < list[1].start) && Canonical(list[1..]))
  }

  /** First fit: a larger run is split and its front handed out. */
  function PageAlloc(list: seq<Run>, n: nat): (r: (seq<Run>, Option<nat>)) {
    if n == 0 || list == [] then (list, None) else
    var b := list[0];
    if b.count > n then ([Run(b.start + n, b.count - n)] + list[1..], Some(b.start))
    else if b.count == n then (list[1..], Some(b.start))
    else
      var (rest, r) := PageAlloc(list[1..], n);
      ([b] + rest, r)
  }

  /** A run comes back: it joins the runs that it touches. */
  function PageFree(list: seq<Run>, a: nat, n: nat): seq<Run> {
    if list == [] then [Run(a, n)] else
    var b := list[0];
    if Past(b) == a then
      if |list| > 1 && Past(b) + n == list[1].start then [Run(b.start, b.count + n + list[1].count)] + list[2..]
      else [Run(b.start, b.count + n)] + list[1..]
    else if b.start == a + n then [Run(a, b.count + n)] + list[1..]
    else if b.start > a + n then [Run(a, n)] + list
    else [b] + PageFree(list[1..], a, n)
  }

  /** The pages from `a` on are all free. */
  ghost predicate AllFree(list: seq<Run>, a: nat, n: nat) {
    forall p :: a <= p < a + n ==> Has(list, p)
  }

  ghost predicate NoneFree(list: seq<Run>, a: nat, n: nat) {
    forall p :: a <= p < a + n ==> !Has(list, p)
  }

  ghost predicate SamePages(a: seq<Run>, b: seq<Run>) {
    forall p: nat :: Has(a, p) <==> Has(b, p)
  }

  // ---- the list is determined by the set of free pages ----

  /** No free page lies below the first run, and none between it and the next. */
  lemma {:induction false} FirstPages(list: seq<Run>)
    requires Canonical(list) && list != []
    ensures forall p: nat :: Has(list, p) ==> list[0].start <= p
    ensures forall p: nat :: Has(list[1..], p) ==> Past(list[0]) < p
    ensures Has(list, list[0].start) && !Has(list, Past(list[0]))
  {
    if |list| > 1 {
      FirstPages(list[1..]);
    }
  }

  lemma {:induction false} CanonicalUnique(a: seq<Run>, b: seq<Run>)
    requires Canonical(a) && Canonical(b) && SamePages(a, b)
    ensures a == b
  {
    if a == [] {
      if b != [] {
        FirstPages(b);
        assert false;
      }
    } else if b == [] {
      FirstPages(a);
      assert false;
    } else {
      FirstPages(a);
      FirstPages(b);
      assert a[0].start == b[0].start by {
        assert Has(b, a[0].start) && Has(a, b[0].start);
      }
      assert Past(a[0]) == Past(b[0]) by {
        assert !Has(b, Past(a[0])) && !Has(a, Past(b[0]));
      }
      TailPages(a, b);
      CanonicalUnique(a[1..], b[1..]);
      assert a == [a[0]] + a[1..] && b == [b[0]] + b[1..];
    }
  }

  lemma TailPages(a: seq<Run>, b: seq<Run>)
    requires Canonical(a) && Canonical(b) && SamePages(a, b) && a != [] && b != [] && a[0] == b[0]
    ensures SamePages(a[1..], b[1..])
  {
    FirstPages(a);
    FirstPages(b);
    forall p: nat
      ensures Has(a[1..], p) <==> Has(b[1..], p)
    {
      assert Has(a, p) <==> Has(b, p);
    }
  }

  // ---- allocation ----

  /** `n` free pages from `a` on have left the list. */
  ghost predicate HandedOut(list: seq<Run>, rest: seq<Run>, a: nat, n: nat) {
    && AllFree(list, a, n) && NoneFree(rest, a, n)
    && forall p: nat :: Has(rest, p) <==> Has(list, p) && !(a <= p < a + n)
  }

  /** What is handed out was free, is so no longer, and nothing else changes. */
  lemma {:induction false} AllocPages(list: seq<Run>, n: nat)
    requires Canonical(list)
    ensures var (rest, r) := PageAlloc(list, n);
      && Canonical(rest)
      && (if r.None? then rest == list else n > 0 && HandedOut(list, rest, r.value, n))
      && (rest != [] ==> list != [] && list[0].start <= rest[0].start)
  {
    if n > 0 && list != [] {
      FirstPages(list);
      var b := list[0];
      if b.count < n {
        AllocPages(list[1..], n);
        var (tail, r) := PageAlloc(list[1..], n);
        assert ([b] + tail)[1..] == tail;
        if |list| > 1 {
          FirstPages(list[1..]);
        }
        if r.Some? {
          forall p | r.value <= p < r.value + n
            ensures Has(list, p) && !Has([b] + tail, p)
          {
            assert Has(list[1..], p) && !Has(tail, p);
          }
        }
      } else if b.count > n {
        var rest := PageAlloc(list, n).0;
        assert rest[1..] == list[1..];
        forall p: nat
          ensures Has(rest, p) <==> Has(list, p) && !(b.start <= p < b.start + n)
        {
          assert Has(rest, p) <==> Covers(rest[0], p) || Has(list[1..], p);
        }
      }
    }
  }

  /** `n` free pages in a row lie in one run. */
  lemma {:induction false} InOneRun(list: seq<Run>, a: nat, n: nat)
    requires Canonical(list) && n > 0 && AllFree(list, a, n)
    ensures exists i :: 0 <= i < |list| && list[i].start <= a && a + n <= Past(list[i])
  {
    assert Has(list, a);
    FirstPages(list);
    var b := list[0];
    if Covers(b, a) {
      assert a + n <= Past(b) by {
        if Past(b) < a + n {
          assert false;
        }
      }
      assert list[0].start <= a && a + n <= Past(list[0]);
    } else {
      assert Has(list[1..], a);
      forall p | a <= p < a + n
        ensures Has(list[1..], p)
      {
        assert Has(list, p);
      }
      InOneRun(list[1..], a, n);
      var i :| 0 <= i < |list[1..]| && list[1..][i].start <= a && a + n <= Past(list[1..][i]);
      assert list[i+1] == list[1..][i];
    }
  }

  /** rt_page_alloc finds the lowest address with `n` free pages, or fails because there is none. */
  lemma {:induction false} AllocLowest(list: seq<Run>, n: nat, a: nat)
    requires Canonical(list) && n > 0 && AllFree(list, a, n)
    ensures var r := PageAlloc(list, n).1; r.Some? && r.value <= a
  {
    InOneRun(list, a, n);
    var i :| 0 <= i < |list| && list[i].start <= a && a + n <= Past(list[i]);
    RunLowest(list, n, i);
  }

  lemma {:induction false} RunLowest(list: seq<Run>, n: nat, i: nat)
    requires Canonical(list) && n > 0 && i < |list| && n <= list[i].count
    ensures var r := PageAlloc(list, n).1; r.Some? && r.value <= list[i].start
  {
    FirstPages(list);
    if list[0].count < n {
      assert list[1..][i-1] == list[i];
      RunLowest(list[1..], n, i - 1);
    } else {
      StartsAbove(list, i);
    }
  }

  lemma {:induction false} StartsAbove(list: seq<Run>, i: nat)
    requires Canonical(list) && i < |list|
    ensures list[0].start <= list[i].start
  {
    if i > 0 {
      StartsAbove(list[1..], i - 1);
    }
  }

  lemma {:induction false} StartsFree(list: seq<Run>, i: nat)
    requires i < |list| && list[i].count > 0
    ensures Has(list, list[i].start)
  {
    if i > 0 {
      StartsFree(list[1..], i - 1);
    }
  }

  // ---- freeing ----

  lemma {:induction false} FreePages(list: seq<Run>, a: nat, n: nat)
    requires Canonical(list) && n > 0 && NoneFree(list, a, n)
    ensures var r := PageFree(list, a, n);
      && Canonical(r) && r != []
      && (forall p: nat :: Has(r, p) <==> Has(list, p) || a <= p < a + n)
      && (list != [] && list[0].start < a ==> r[0].start == list[0].start)
      && (list == [] || a < list[0].start ==> r[0].start == a)
  {
    var r := PageFree(list, a, n);
    if list != [] {
      FirstPages(list);
      var b := list[0];
      assert !Has(list, a);
      assert b.start < a + n ==> Past(b) <= a by {
        if a < Past(b) && b.start < a + n {
          assert false;
        }
      }
      if Past(b) == a {
        JoinLeft(list, a, n);
      } else if b.start == a + n || b.start > a + n {
        assert r[1..] == if b.start == a + n then list[1..] else list;
      } else {
        forall p | a <= p < a + n
          ensures !Has(list[1..], p)
        {
          assert !Has(list, p);
        }
        FreePages(list[1..], a, n);
        assert r[1..] == PageFree(list[1..], a, n);
        if |list| > 1 {
          NotAt(list[1..], a);
        }
      }
    }
  }

  lemma NotAt(list: seq<Run>, a: nat)
    requires Canonical(list) && list != [] && !Has(list, a)
    ensures list[0].start != a
  {
    FirstPages(list);
  }

  /** The run joins its left neighbour, and the right one too when the gap closes. */
  lemma JoinLeft(list: seq<Run>, a: nat, n: nat)
    requires Canonical(list) && list != [] && n > 0 && Past(list[0]) == a && NoneFree(list, a, n)
    ensures var r := PageFree(list, a, n);
      && Canonical(r) && r != [] && r[0].start == list[0].start
      && (forall p: nat :: Has(r, p) <==> Has(list, p) || a <= p < a + n)
  {
    var r := PageFree(list, a, n);
    FirstPages(list);
    if |list| > 1 {
      FirstPages(list[1..]);
      assert !(a <= list[1].start < a + n) by {
        assert Has(list[1..], list[1].start) && Has(list, list[1].start);
      }
      assert list[1..][1..] == list[2..];
      if Past(list[0]) + n == list[1].start {
        assert r[1..] == list[2..];
      } else {
        assert r[1..] == list[1..];
      }
    } else {
      assert r[1..] == [] && list[1..] == [];
    }
  }

  // ---- round trips ----

  /** Freeing what was just allocated gives back the identical list. */
  lemma FreeUndoesAlloc(list: seq<Run>, n: nat)
    requires Canonical(list) && PageAlloc(list, n).1.Some?
    ensures PageFree(PageAlloc(list, n).0, PageAlloc(list, n).1.value, n) == list
  {
    var (rest, r) := PageAlloc(list, n);
    AllocPages(list, n);
    FreePages(rest, r.value, n);
    CanonicalUnique(PageFree(rest, r.value, n), list);
  }

  /** Two runs may come back in either order. */
  lemma FreesCommute(list: seq<Run>, a: nat, n: nat, b: nat, m: nat)
    requires Canonical(list) && n > 0 && m > 0 && NoneFree(list, a, n) && NoneFree(list, b, m)
    requires a + n <= b || b + m <= a
    ensures PageFree(PageFree(list, a, n), b, m) == PageFree(PageFree(list, b, m), a, n)
  {
    FreePages(list, a, n);
    FreePages(list, b, m);
    FreePages(PageFree(list, a, n), b, m);
    FreePages(PageFree(list, b, m), a, n);
    CanonicalUnique(PageFree(PageFree(list, a, n), b, m), PageFree(PageFree(list, b, m), a, n));
  }
}

/** slab.c: the page list, with the header of each run in its first page. */
module Pages {
  import opened Chains
  import opened PagesSpec
  import opened RtDef

  /** The pointer to run `i`. */
  ghost function At(runs: seq<Run>, i: nat): Word {
    if i < |runs| then Next(runs[i].start) else End
  }

  /** The header of run `r` leads on to `after`. */
  ghost predicate Header(next: seq<Word>, page: seq<nat>, r: Run, after: Word) {
    r.count > 0 && Past(r) <= |next| == |page| && next[r.start] == after && page[r.start] == r.count
  }

  ghost predicate Threaded(next: seq<Word>, page: seq<nat>, head: Word, runs: seq<Run>) {
    |next| == |page| && head == At(runs, 0) && forall i :: 0 <= i < |runs| ==> Header(next, page, runs[i], At(runs, i + 1))
  }

  /** The runs from `i` up to `j` replaced by `mid`. */
  ghost function Spliced(runs: seq<Run>, i: nat, j: nat, mid: seq<Run>): seq<Run>
    requires i <= j <= |runs|
  {
    runs[..i] + mid + runs[j..]
  }

  lemma SplicedAt(runs: seq<Run>, i: nat, j: nat, mid: seq<Run>, k: nat)
    requires i <= j <= |runs| && |mid| <= 1
    ensures |Spliced(runs, i, j, mid)| == |runs| - (j - i) + |mid|
    ensures k < i ==> Spliced(runs, i, j, mid)[k] == runs[k]
    ensures mid != [] && k == i ==> Spliced(runs, i, j, mid)[k] == mid[0]
    ensures i + |mid| <= k < |Spliced(runs, i, j, mid)| ==> Spliced(runs, i, j, mid)[k] == runs[k - i - |mid| + j]
  {
  }

  lemma SplicedTail(runs: seq<Run>, i: nat, j: nat, mid: seq<Run>)
    requires 0 < i <= j <= |runs|
    ensures Spliced(runs, i, j, mid) == [runs[0]] + Spliced(runs[1..], i - 1, j - 1, mid)
  {
    assert runs[..i] == [runs[0]] + runs[1..][..i-1];
    assert runs[j..] == runs[1..][j-1..];
  }

  /** Later runs start after earlier ones end. */
  lemma {:induction false} Ascending(runs: seq<Run>, i: nat, j: nat)
    requires Canonical(runs) && i < j < |runs|
    ensures Past(runs[i]) < runs[j].start
  {
    FirstPages(runs);
    if i == 0 {
      assert runs[j] == runs[1..][j-1];
      StartsAbove(runs[1..], j - 1);
    } else {
      Ascending(runs[1..], i - 1, j - 1);
    }
  }

  /** A change in place: the headers of the new run and of the run in front of it are written. */
  lemma Rethread(next: seq<Word>, page: seq<nat>, head: Word, runs: seq<Run>, i: nat, j: nat, mid: seq<Run>)
    requires |next| == |page| && i <= j <= |runs| && |mid| <= 1
    requires mid != [] ==> Header(next, page, mid[0], At(runs, j))
    requires var w := if mid != [] then Next(mid[0].start) else At(runs, j);
      if i == 0 then head == w else head == At(runs, 0) && Header(next, page, runs[i-1], w)
    requires forall k :: 0 <= k < |runs| && (k < i - 1 || j <= k) ==> Header(next, page, runs[k], At(runs, k + 1))
    ensures Threaded(next, page, head, Spliced(runs, i, j, mid))
  {
    hide Header, Spliced;
    var r := Spliced(runs, i, j, mid);
    SplicedAt(runs, i, j, mid, 0);
    forall k | 0 <= k < |r|
      ensures Header(next, page, r[k], At(r, k + 1))
    {
      SplicedAt(runs, i, j, mid, k);
      SplicedAt(runs, i, j, mid, k + 1);
      if i + |mid| <= k {
        var m := k - i - |mid| + j;
        assert j <= m && Header(next, page, runs[m], At(runs, m + 1));
      }
    }
  }

  lemma {:induction false} AllocAt(runs: seq<Run>, n: nat, i: nat)
    requires n > 0 && i <= |runs| && (forall k :: 0 <= k < i ==> runs[k].count < n) && (i < |runs| ==> runs[i].count >= n)
    ensures PageAlloc(runs, n) ==
      if i == |runs| then (runs, None) else (Spliced(runs, i, i + 1, Remainder(runs[i], n)), Some(runs[i].start))
  {
    if i > 0 {
      AllocAt(runs[1..], n, i - 1);
      assert runs == [runs[0]] + runs[1..];
      if i < |runs| {
        SplicedTail(runs, i, i + 1, Remainder(runs[i], n));
      }
    } else if runs != [] {
      assert Spliced(runs, 0, 1, Remainder(runs[0], n)) == Remainder(runs[0], n) + runs[1..];
      assert [] + runs[1..] == runs[1..];
    }
  }

  /** What is left of a run whose first `n` pages are taken. */
  function Remainder(r: Run, n: nat): seq<Run>
    requires n <= r.count
  {
    if r.count > n then [Run(r.start + n, r.count - n)] else []
  }

  /** The scan of rt_page_free goes past a run. */
  predicate Passes(b: Run, a: nat, n: nat) {
    Past(b) != a && b.start != a + n && b.start <= a + n
  }

  /** Where the scan stops: the runs up to `upto` make one with the pages that come back. */
  datatype Place = Place(upto: nat, run: Run)

  ghost function PlaceOf(runs: seq<Run>, a: nat, n: nat, i: nat): (p: Place)
    requires i <= |runs|
    ensures i <= p.upto <= |runs|
  {
    if i < |runs| && Past(runs[i]) == a then
      if i + 1 < |runs| && Past(runs[i]) + n == runs[i+1].start then Place(i + 2, Run(runs[i].start, runs[i].count + n + runs[i+1].count))
      else Place(i + 1, Run(runs[i].start, runs[i].count + n))
    else if i < |runs| && runs[i].start == a + n then Place(i + 1, Run(a, runs[i].count + n))
    else Place(i, Run(a, n))
  }

  lemma {:induction false} FreeAt(runs: seq<Run>, a: nat, n: nat, i: nat)
    requires i <= |runs| && (forall k :: 0 <= k < i ==> Passes(runs[k], a, n)) && (i < |runs| ==> !Passes(runs[i], a, n))
    ensures var p := PlaceOf(runs, a, n, i); PageFree(runs, a, n) == Spliced(runs, i, p.upto, [p.run])
  {
    if i > 0 {
      FreeAt(runs[1..], a, n, i - 1);
      var p := PlaceOf(runs, a, n, i);
      assert PlaceOf(runs[1..], a, n, i - 1) == Place(p.upto - 1, p.run);
      SplicedTail(runs, i, p.upto, [p.run]);
    } else {
      FreeHere(runs, a, n);
    }
  }

  lemma FreeHere(runs: seq<Run>, a: nat, n: nat)
    requires runs != [] ==> !Passes(runs[0], a, n)
    ensures var p := PlaceOf(runs, a, n, 0); PageFree(runs, a, n) == Spliced(runs, 0, p.upto, [p.run])
  {
    assert runs[0..] == runs;
  }

  // ---- the effect of the writes, on values ----

  /** The link word that `prev` points to. */
  ghost predicate Linked(prev: Option<nat>, w: Word, next: seq<Word>, head: Word, next': seq<Word>, head': Word) {
    match prev
    case None => head' == w && next' == next
    case Some(p) => p < |next| && head' == head && next' == next[p := w]
  }

  ghost function PrevOf(runs: seq<Run>, i: nat): Option<nat>
    requires i <= |runs|
  {
    if i == 0 then None else Some(runs[i-1].start)
  }

  lemma HeaderMeans(next: seq<Word>, page: seq<nat>, r: Run, after: Word)
    requires Header(next, page, r, after)
    ensures r.count > 0 && r.start < Past(r) <= |next| == |page| && next[r.start] == after && page[r.start] == r.count
  {
  }

  lemma StartsDiffer(runs: seq<Run>, i: nat, k: nat)
    requires Canonical(runs) && i < |runs| && k < |runs| && i != k
    ensures runs[i].start != runs[k].start
  {
    if k < i {
      Ascending(runs, k, i);
    } else {
      Ascending(runs, i, k);
    }
  }

  /** A header that is not written stays. */
  lemma HeaderKept(next: seq<Word>, page: seq<nat>, r: Run, after: Word, next1: seq<Word>, page1: seq<nat>, prev: Option<nat>, next': seq<Word>)
    requires Header(next, page, r, after) && |next1| == |page1| == |next| == |next'|
    requires next1[r.start] == next[r.start] && page1[r.start] == page[r.start]
    requires match prev case None => next' == next1 case Some(p) => p < |next1| && p != r.start && next' == next1[p := next'[p]]
    ensures Header(next', page1, r, after)
  {
  }

  /** Writing the link in front of position `i`, after writing headers inside [lo, hi] only. */
  lemma Relinked(next: seq<Word>, page: seq<nat>, head: Word, runs: seq<Run>, i: nat, j: nat, mid: seq<Run>,
                 next1: seq<Word>, page1: seq<nat>, next': seq<Word>, head': Word)
    requires Threaded(next, page, head, runs) && Canonical(runs) && i <= j <= |runs| && |mid| <= 1
    requires |next1| == |page1| == |next|
    requires forall k :: 0 <= k < |runs| && (k < i || j <= k) ==> next1[runs[k].start] == next[runs[k].start] && page1[runs[k].start] == page[runs[k].start]
    requires mid != [] ==> Header(next1, page1, mid[0], At(runs, j)) && (0 < i ==> mid[0].start != runs[i-1].start)
    requires Linked(PrevOf(runs, i), if mid != [] then Next(mid[0].start) else At(runs, j), next1, head, next', head')
    ensures Threaded(next', page1, head', Spliced(runs, i, j, mid))
  {
    hide Canonical, Header, Spliced;
    forall k | 0 <= k < |runs| && (k < i - 1 || j <= k)
      ensures Header(next', page1, runs[k], At(runs, k + 1))
    {
      if 0 < i {
        StartsDiffer(runs, i - 1, k);
      }
      HeaderKept(next, page, runs[k], At(runs, k + 1), next1, page1, PrevOf(runs, i), next');
    }
    var w := if mid != [] then Next(mid[0].start) else At(runs, j);
    if 0 < i {
      HeaderMeans(next, page, runs[i-1], At(runs, i));
      HeaderMade(next', page1, runs[i-1], w);
    }
    if mid != [] {
      HeaderMeans(next1, page1, mid[0], At(runs, j));
      HeaderMade(next', page1, mid[0], At(runs, j));
    }
    Rethread(next', page1, head', runs, i, j, mid);
  }

  class RtPageList {
    const next: array<Word>
    const page: array<nat>
    var head: Word          // rt_page_list
    ghost var runs: seq<Run>

    ghost predicate Valid()
      reads this, next, page
    {
      Canonical(runs) && Threaded(next[..], page[..], head, runs)
    }

    /** An empty list over `pages` pages. */
    constructor (pages: nat)
      ensures Valid() && runs == [] && next.Length == pages && fresh(next) && fresh(page)
    {
      next := new Word[pages];
      page := new nat[pages];
      head := End;
      runs := [];
    }

    /** *prev = w, where `prev` is the list head or the link word of a run. */
    method SetLink(prev: Option<nat>, w: Word)
      requires prev.Some? ==> prev.value < next.Length
      modifies this`head, next
      ensures Linked(prev, w, old(next[..]), old(head), next[..], head)
    {
      match prev
      case None => head := w;
      case Some(p) => next[p] := w;
    }

    /** The header of run `i`, as the scans read it. */
    lemma HeaderAt(i: nat)
      requires Valid() && i < |runs|
      ensures next.Length == page.Length && Past(runs[i]) <= next.Length && runs[i].count > 0
      ensures next[runs[i].start] == At(runs, i + 1) && page[runs[i].start] == runs[i].count
      ensures 0 < i ==> runs[i-1].start < next.Length
    {
      assert Header(next[..], page[..], runs[i], At(runs, i + 1));
      if 0 < i {
        assert Header(next[..], page[..], runs[i-1], At(runs, i));
      }
    }

    lemma HeadersIn()
      requires Valid()
      ensures forall k :: 0 <= k < |runs| ==> runs[k].start < Past(runs[k]) <= next.Length == page.Length
    {
      forall k | 0 <= k < |runs|
        ensures runs[k].start < Past(runs[k]) <= next.Length == page.Length
      {
        HeaderAt(k);
      }
    }

    method PageAlloc(npages: nat) returns (b: Option<nat>)
      requires Valid()
      modifies this, next, page
      ensures Valid() && (runs, b) == PagesSpec.PageAlloc(old(runs), npages)
    {
      hide Canonical, Header, Spliced, Threaded, HandedOut, Remainder;
      AllocPages(runs, npages);
      HeadRight();
      b := None;
      if npages != 0 {
        var prev: Option<nat>, cur := None, head;
        ghost var i := 0;
        if runs != [] {
          HeaderAt(0);
        }
        while cur != End && page[cur.number] < npages
          modifies {}
          invariant Valid() && i <= |runs| && cur == At(runs, i) && (cur != End ==> cur.number < page.Length)
          invariant prev == PrevOf(runs, i)
          invariant forall k :: 0 <= k < i ==> runs[k].count < npages
          decreases |runs| - i
        {
          HeaderAt(i);
          prev, cur := Some(cur.number), next[cur.number];
          i := i + 1;
          if i < |runs| {
            HeaderAt(i);
          }
        }
        if i < |runs| {
          HeaderAt(i);
        }
        AllocAt(runs, npages, i);
        if cur != End {
          b := Some(cur.number);
          ghost var runs0 := runs;
          TakeAt(prev, cur.number, npages, i);
          assert (runs, b) == PagesSpec.PageAlloc(runs0, npages);
        }
      }
    }

    /** Run `i` is large enough: its front is taken off the list. */
    method TakeAt(prev: Option<nat>, b: nat, npages: nat, ghost i: nat)
      requires Valid() && npages > 0 && i < |runs| && b == runs[i].start && runs[i].count >= npages && prev == PrevOf(runs, i)
      modifies this, next, page
      ensures Threaded(next[..], page[..], head, runs)
      ensures runs == Spliced(old(runs), i, i + 1, Remainder(old(runs[i]), npages))
    {
      hide Canonical, Threaded, Spliced, Header;
      ghost var next0, page0, head0 := next[..], page[..], head;
      ghost var mid := Remainder(runs[i], npages);
      HeaderAt(i);
      HeadersIn();
      StartsApart();
      if page[b] > npages {
        var n := b + npages;
        next[n] := next[b];
        page[n] := page[b] - npages;
        ghost var next1 := next[..];
        assert next1 == next0[n := next0[b]] && page[..] == page0[n := page0[b] - npages];
        forall k | 0 <= k < |runs| && (k < i || i + 1 <= k)
          ensures next1[runs[k].start] == next0[runs[k].start] && page[..][runs[k].start] == page0[runs[k].start]
        {
          if k < i {
            assert Past(runs[k]) < runs[i].start;
          } else {
            assert Past(runs[i]) < runs[k].start;
          }
        }
        HeaderMade(next1, page[..], mid[0], At(runs, i + 1));
        SetLink(prev, Next(n));
        Relinked(next0, page0, head0, runs, i, i + 1, mid, next1, page[..], next[..], head);
      } else {
        SetLink(prev, next[b]);
        Relinked(next0, page0, head0, runs, i, i + 1, mid, next0, page0, next[..], head);
      }
      runs := Spliced(runs, i, i + 1, mid);
    }

    /** Writes the link word in front of run `i`, and header `n` before that. */
    method Attach(prev: Option<nat>, n: nat, count: nat, after: Word, ghost i: nat, ghost j: nat)
      requires Valid() && i <= j <= |runs| && prev == PrevOf(runs, i) && after == At(runs, j)
      requires count > 0 && n + count <= next.Length
      requires forall k :: 0 <= k < |runs| && (k < i || j <= k) ==> runs[k].start != n
      modifies this, next, page
      ensures Threaded(next[..], page[..], head, runs) && runs == Spliced(old(runs), i, j, [Run(n, count)])
    {
      hide Canonical, Threaded, Spliced, Header;
      ghost var next0, page0, head0 := next[..], page[..], head;
      HeadersIn();
      HeadRight();
      page[n] := count;
      next[n] := after;
      ghost var next1 := next[..];
      assert next1 == next0[n := after] && page[..] == page0[n := count];
      HeaderMade(next1, page[..], Run(n, count), after);
      SetLink(prev, Next(n));
      Relinked(next0, page0, head0, runs, i, j, [Run(n, count)], next1, page[..], next[..], head);
      runs := Spliced(runs, i, j, [Run(n, count)]);
    }

    /** The scan of rt_page_free. */
    method FindSpot(addr: nat, npages: nat) returns (prev: Option<nat>, b: Word, ghost i: nat)
      requires Valid()
      ensures i <= |runs| && b == At(runs, i) && prev == PrevOf(runs, i)
      ensures b != End ==> b.number < page.Length == next.Length && page[b.number] == runs[i].count && next[b.number] == At(runs, i + 1)
      ensures PagesSpec.PageFree(runs, addr, npages) == var p := PlaceOf(runs, addr, npages, i); Spliced(runs, i, p.upto, [p.run])
    {
      hide Canonical, Header, Spliced, Threaded, PlaceOf;
      HeadRight();
      prev, b := None, head;
      i := 0;
      while b != End && b.number + page[b.number] != addr && b.number != addr + npages && b.number <= addr + npages
        invariant i <= |runs| && b == At(runs, i) && (b != End ==> b.number < page.Length && page[b.number] == runs[i].count)
        invariant prev == PrevOf(runs, i)
        invariant forall k :: 0 <= k < i ==> Passes(runs[k], addr, npages)
        decreases |runs| - i
      {
        HeaderAt(i);
        prev, b := Some(b.number), next[b.number];
        i := i + 1;
        if i < |runs| {
          HeaderAt(i);
        }
      }
      FreeAt(runs, addr, npages, i);
      if b != End {
        HeaderAt(i);
      }
    }

    /** rt_page_free of pages that are not free. */
    method PageFree(addr: nat, npages: nat)
      requires Valid() && npages > 0 && addr + npages <= next.Length && NoneFree(runs, addr, npages)
      modifies this, next, page
      ensures Valid() && runs == PagesSpec.PageFree(old(runs), addr, npages)
    {
      hide Canonical, Header, Spliced, Threaded, NoneFree, PagesSpec.PageFree;
      FreePages(runs, addr, npages);
      var prev, b, i := FindSpot(addr, npages);
      var n, count, after, j := Merge(addr, npages, b, i);
      ghost var p := PlaceOf(runs, addr, npages, i);
      hide PlaceOf;
      Attach(prev, n, count, after, i, j);
    }

    /** The header to be written: the run may join its neighbours. */
    method Merge(addr: nat, npages: nat, b: Word, ghost i: nat) returns (n: nat, count: nat, after: Word, ghost j: nat)
      requires Valid() && npages > 0 && addr + npages <= next.Length && NoneFree(runs, addr, npages)
      requires i <= |runs| && b == At(runs, i)
      ensures PlaceOf(runs, addr, npages, i) == Place(j, Run(n, count)) && i <= j <= |runs| && after == At(runs, j)
      ensures count > 0 && n + count <= next.Length
      ensures forall k :: 0 <= k < |runs| && (k < i || j <= k) ==> runs[k].start != n
    {
      hide Canonical, Header, Spliced, Threaded, NoneFree;
      n, count, after, j := addr, npages, b, i;
      if b != End {
        HeaderAt(i);
      }
      if b != End && b.number + page[b.number] == addr {
        StartsApart();
        n, count, after, j := b.number, page[b.number] + npages, next[b.number], i + 1;
        if Next(n + count) == after {
          HeaderAt(i + 1);
          count, after, j := count + page[after.number], next[after.number], i + 2;
        }
      } else {
        OffTheRuns(addr, npages);
        if b != End && b.number == addr + npages {
          count, after, j := page[b.number] + npages, next[b.number], i + 1;
        }
      }
    }

    lemma HeadRight()
      requires Valid()
      ensures head == At(runs, 0) && next.Length == page.Length
      ensures runs != [] ==> runs[0].start < page.Length && page[runs[0].start] == runs[0].count
    {
      if runs != [] {
        HeaderAt(0);
      }
    }

    /** Pages that are not free start no run. */
    lemma OffTheRuns(addr: nat, npages: nat)
      requires Valid() && npages > 0 && NoneFree(runs, addr, npages)
      ensures forall k :: 0 <= k < |runs| ==> runs[k].start != addr
    {
      forall k | 0 <= k < |runs|
        ensures runs[k].start != addr
      {
        HeaderAt(k);
        StartsFree(runs, k);
        assert !Has(runs, addr);
      }
    }

    /** The runs do not overlap. */
    lemma StartsApart()
      requires Canonical(runs)
      ensures forall i, j :: 0 <= i < j < |runs| ==> Past(runs[i]) < runs[j].start
    {
      forall i, j | 0 <= i < j < |runs|
        ensures Past(runs[i]) < runs[j].start
      {
        Ascending(runs, i, j);
      }
    }
  }

  lemma HeaderMade(next: seq<Word>, page: seq<nat>, r: Run, after: Word)
    requires r.count > 0 && Past(r) <= |next| == |page| && next[r.start] == after && page[r.start] == r.count
    ensures Header(next, page, r, after)
  {
  }
}
