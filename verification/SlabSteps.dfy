/** rt_malloc and rt_free of slab.c when their calls interleave.

    The heap semaphore is held neither between the page allocator and the tables nor the other way
    round.  A call is therefore a sequence of steps; in between, the thread that makes it has a run of
    pages in hand that is on its way from the page list into a zone or a large block, or back. */
module SlabSteps {
  import opened IpcList
  import opened Lists
  import opened PagesSpec
  import opened RtDef
  import opened SlabSpec
  import opened ZoneSizes

  datatype Shared = Shared(slab: Slab, hands: map<Tid, Run>)

  /** The run is inside the heap, not free, and in no zone and no large block. */
  ghost predicate InHand(s: Slab, r: Run) {
    r.count > 0 && Past(r) <= |s.usage| && NoneFree(s.pages, r.start, r.count) && ApartFrom(s, r.start, r.count)
  }

  predicate RunsApart(r: Run, q: Run) {
    Past(r) <= q.start || Past(q) <= r.start
  }

  ghost predicate Good(x: Shared) {
    && Inv(x.slab)
    && (forall t :: t in x.hands ==> InHand(x.slab, x.hands[t]))
    && (forall t, u :: t in x.hands && u in x.hands && t != u ==> RunsApart(x.hands[t], x.hands[u]))
  }

  // ---- the steps ----

  datatype Event =
    | Fetch(t: Tid, n: nat)              // rt_page_alloc
    | TagLarge(t: Tid)                   // the run becomes a large block
    | SetUp(t: Tid, size: nat)           // the run becomes a zone, which gives its first chunk
    | Quick(size: nat)                   // a chunk of a zone that is there
    | PutBack(t: Tid, b: nat, i: nat)    // a chunk is released, and perhaps a spare zone given up
    | Untag(t: Tid, p: nat)              // a large block is given up
    | Give(t: Tid)                       // rt_page_free

  /** Whether a request for a chunk need not fetch pages. */
  predicate Stocked(s: Slab, size: nat)
    requires Inv(s)
  {
    0 < size < Limit(s) && 0 <= ZoneIndex(size).index < NZONES && (s.lists[ZoneIndex(size).index] != [] || s.spare != [])
  }

  predicate Enabled(x: Shared, e: Event)
    requires Inv(x.slab)
  {
    match e
    case Fetch(t, _) => t !in x.hands
    case TagLarge(t) => t in x.hands
    case SetUp(t, size) => t in x.hands && x.hands[t].count == ZonePages(x.slab) && 0 < size < Limit(x.slab)
    case Quick(size) => Stocked(x.slab, size)
    case PutBack(t, b, i) => t !in x.hands && Live(x.slab, Chunk(b, i))
    case Untag(t, p) => t !in x.hands && Live(x.slab, Pages(p))
    case Give(t) => t in x.hands
  }

  /** The released chunk is back in its zone, and a zone without live chunks is set aside. */
  function Released(s: Slab, b: nat, i: nat): (s': Slab)
    requires Inv(s) && Live(s, Chunk(b, i))
  {
    ZoneChunk(s, b);
    var s1 := PutChunk(s, b, i);
    var z := s1.zones[b];
    if z.nfree == z.nmax && |s1.lists[z.index]| > 1 then Retire(s1, b) else s1
  }

  /** The newest spare zone without its tags. */
  function Dropped(s: Slab): Slab
    requires s.spare != []
  {
    s.(spare := s.spare[1..], usage := TagPages(s.usage, s.spare[0], ZonePages(s), false))
  }

  function Do(x: Shared, e: Event): Shared
    requires Inv(x.slab) && Enabled(x, e)
  {
    var s := x.slab;
    match e
    case Fetch(t, n) =>
      var (pages, r) := PageAlloc(s.pages, n);
      if r.None? then x else Shared(s.(pages := pages), x.hands[t := Run(r.value, n)])
    case TagLarge(t) =>
      var r := x.hands[t];
      if r.start >= |s.usage| then x else
      Shared(s.(usage := s.usage[r.start := Large(r.count)], large := s.large[r.start := r.count]), x.hands - {t})
    case SetUp(t, size) =>
      SmallestFit(size);
      var b := x.hands[t].start;
      Shared(OpenZone(s.(usage := TagPages(s.usage, b, ZonePages(s), true)), b, ZoneIndex(size)).0, x.hands - {t})
    case Quick(size) =>
      SmallestFit(size);
      x.(slab := MallocSmall(s, ZoneIndex(size)).0)
    case PutBack(t, b, i) =>
      var s1 := Released(s, b, i);
      if |s1.spare| <= ZONE_RELEASE_THRESH then x.(slab := s1)
      else Shared(Dropped(s1), x.hands[t := Run(s1.spare[0], ZonePages(s1))])
    case Untag(t, p) =>
      if p >= |s.usage| then x else
      Shared(s.(usage := s.usage[p := Large(0)], large := s.large - {p}), x.hands[t := Run(p, s.large[p])])
    case Give(t) =>
      var r := x.hands[t];
      Shared(s.(pages := PageFree(s.pages, r.start, r.count)), x.hands - {t})
  }

  // ---- what a step leaves alone ----

  const NO_RUN: Run := Run(0, 0)

  /** Pages become free or used, and zones and large blocks come and go, only in the run `r`. */
  ghost predicate Within(s: Slab, s': Slab, r: Run) {
    && s'.zoneSize == s.zoneSize && |s'.usage| == |s.usage|
    && (forall k: nat :: Has(s'.pages, k) ==> Has(s.pages, k) || Covers(r, k))
    && (forall b: nat :: Zoned(s', b) ==> Zoned(s, b) || (r != NO_RUN && r.start <= b && b + ZonePages(s) <= Past(r)))
    && (forall a :: a in s'.large ==>
          (a in s.large && s'.large[a] == s.large[a]) || (r != NO_RUN && r.start <= a && a + s'.large[a] <= Past(r)))
  }

  /** What is in another hand stays there. */
  lemma HandKept(s: Slab, s': Slab, r: Run, q: Run)
    requires InHand(s, q) && RunsApart(r, q) && Within(s, s', r)
    ensures InHand(s', q)
  {
    hide Zoned, Has;
    assert ZonePages(s') == ZonePages(s);
    forall b: nat | Zoned(s', b)
      ensures Past(q) <= b || b + ZonePages(s') <= q.start
    {
    }
    forall b | b in s'.large
      ensures Past(q) <= b || b + s'.large[b] <= q.start
    {
    }
  }

  /** A step of thread `t` on the run `r`, after which `t` has `r` in hand or nothing. */
  lemma HandsKept(x: Shared, s': Slab, hands': map<Tid, Run>, t: Tid, r: Run)
    requires Good(x) && Inv(s') && Within(x.slab, s', r)
    requires forall u :: u in hands' ==> (u in x.hands && hands'[u] == x.hands[u] && u != t) || (u == t && hands'[u] == r)
    requires t in hands' ==> InHand(s', r)
    requires forall u :: u in x.hands && u != t ==> RunsApart(r, x.hands[u])
    ensures Good(Shared(s', hands'))
  {
    hide Inv, Within, InHand, RunsApart;
    forall u | u in hands'
      ensures InHand(s', hands'[u])
    {
      if u != t {
        HandKept(x.slab, s', r, x.hands[u]);
      }
    }
    forall u, v | u in hands' && v in hands' && u != v
      ensures RunsApart(hands'[u], hands'[v])
    {
      if u == t {
        assert RunsApart(r, x.hands[v]);
      } else if v == t {
        Apartness(r, x.hands[u]);
      }
    }
  }

  lemma Apartness(r: Run, q: Run)
    requires RunsApart(r, q)
    ensures RunsApart(q, r)
  {
  }

  /** Tags of pages that belong to nobody can change. */
  lemma Retag(s: Slab, s': Slab, r: Run)
    requires UsageOk(s) && LargeOk(s) && PagesOk(s) && ApartFrom(s, r.start, r.count)
    requires s' == s.(usage := s'.usage) && |s'.usage| == |s.usage|
    requires forall k :: 0 <= k < |s.usage| && !Covers(r, k) ==> s'.usage[k] == s.usage[k]
    ensures UsageOk(s') && LargeOk(s') && PagesOk(s') && ApartFrom(s', r.start, r.count)
  {
    SameZones(s, s');
    forall b: nat | Zoned(s', b)
      ensures Tagged(s', b)
    {
      assert Zoned(s, b) && Tagged(s, b);
    }
    hide Tagged, NoneFree;
    forall a | a in s.large
      ensures s'.usage[a] == Large(s.large[a])
    {
      assert s.large[a] > 0 && a + s.large[a] <= |s.usage|;
    }
  }

  // ---- every step keeps the allocator sound ----

  lemma FetchKeeps(x: Shared, t: Tid, n: nat)
    requires Good(x) && t !in x.hands
    ensures Good(Do(x, Fetch(t, n)))
  {
    var s := x.slab;
    var (pages, r) := PageAlloc(s.pages, n);
    AllocPages(s.pages, n);
    if r.Some? {
      var s' := s.(pages := pages);
      TakePages(s, s', r.value, n);
      var run := Run(r.value, n);
      FetchWithin(s, s', run);
      forall u | u in x.hands
        ensures RunsApart(run, x.hands[u])
      {
        FreeApartFromHand(s, run, x.hands[u]);
      }
      hide UsageOk, LargeOk, PagesOk, ApartFrom, Within, NoneFree, RunsApart, ZonesOk, ListsOk, SpareOk;
      HandsKept(x, s', x.hands[t := run], t, run);
    }
  }

  lemma FetchWithin(s: Slab, s': Slab, r: Run)
    requires s' == s.(pages := s'.pages) && HandedOut(s.pages, s'.pages, r.start, r.count)
    ensures Within(s, s', r) && NoneFree(s'.pages, r.start, r.count)
  {
    SameZones(s, s');
  }

  lemma FreeApartFromHand(s: Slab, r: Run, q: Run)
    requires AllFree(s.pages, r.start, r.count) && r.count > 0 && InHand(s, q)
    ensures RunsApart(r, q)
  {
    var p := if r.start < q.start then q.start else r.start;
    assert Covers(r, p) ==> Has(s.pages, p);
  }

  lemma TagLargeKeeps(x: Shared, t: Tid)
    requires Good(x) && t in x.hands
    ensures Good(Do(x, TagLarge(t)))
  {
    var s, r := x.slab, x.hands[t];
    assert InHand(s, r);
    var s1 := s.(usage := s.usage[r.start := Large(r.count)]);
    Retag(s, s1, r);
    LargeAdded(s1, r.start, r.count);
    var s' := s1.(large := s1.large[r.start := r.count]);
    SameZones(s, s');
    hide UsageOk, LargeOk, PagesOk, ApartFrom, NoneFree, RunsApart, ZonesOk, ListsOk, SpareOk, Zoned;
    HandsKept(x, s', x.hands - {t}, t, r);
  }

  lemma SetUpKeeps(x: Shared, t: Tid, size: nat)
    requires Good(x) && Enabled(x, SetUp(t, size))
    ensures Good(Do(x, SetUp(t, size)))
  {
    SmallestFit(size);
    var s, r, c := x.slab, x.hands[t], ZoneIndex(size);
    hide ZoneIndex;
    var b := r.start;
    var s1 := s.(usage := TagPages(s.usage, b, ZonePages(s), true));
    assert InHand(s, r);
    HandReady(s, s1, r);
    SameLimit(s, s1);
    OpenZoneKeeps(s1, b, size);
    var s' := OpenZone(s1, b, c).0;
    OpenWithin(s, s', r);
    hide Inv, Sound, ApartFrom, NoneFree, RunsApart, Within, OpenZone;
    HandsKept(x, s', x.hands - {t}, t, r);
  }

  lemma HandReady(s: Slab, s1: Slab, r: Run)
    requires Inv(s) && InHand(s, r) && r.count == ZonePages(s)
    requires s1 == s.(usage := TagPages(s.usage, r.start, ZonePages(s), true))
    ensures Ready(s1, r.start)
  {
    ZonePagesPositive(s);
    Retag(s, s1, r);
    assert !Zoned(s1, r.start);
    hide UsageOk, LargeOk, PagesOk, ListsOk, SpareOk, ZonesOk;
    assert Tagged(s1, r.start);
  }

  lemma OpenWithin(s: Slab, s': Slab, r: Run)
    requires r.count == ZonePages(s) > 0 && s'.zoneSize == s.zoneSize && |s'.usage| == |s.usage| && s'.pages == s.pages && s'.large == s.large
    requires s'.spare == s.spare && s'.zones.Keys == s.zones.Keys + {r.start}
    ensures Within(s, s', r)
  {
  }

  lemma QuickKeeps(x: Shared, size: nat)
    requires Good(x) && Stocked(x.slab, size)
    ensures Good(Do(x, Quick(size)))
  {
    SmallestFit(size);
    var s, c := x.slab, ZoneIndex(size);
    hide ZoneIndex;
    MallocSmallKeeps(s, size);
    var s' := MallocSmall(s, c).0;
    QuickWithin(s, c);
    hide Inv, Sound, Granted, Within, MallocSmall;
    forall u | u in x.hands
      ensures InHand(s', x.hands[u])
    {
      HandKept(s, s', NO_RUN, x.hands[u]);
    }
  }

  lemma QuickWithin(s: Slab, c: Class)
    requires Inv(s) && c.chunk > 0 && 0 <= c.index < NZONES && (s.lists[c.index] != [] || s.spare != [])
    ensures Within(s, MallocSmall(s, c).0, NO_RUN)
  {
    var s' := MallocSmall(s, c).0;
    hide NewZone;
    if s.lists[c.index] != [] {
      FirstOfList(s, c.index);
      hide Inv;
      assert s'.zones.Keys == s.zones.Keys;
    } else {
      assert s.spare[0] in s.spare;
      hide Inv;
      assert s'.zones.Keys == s.zones.Keys + {s.spare[0]} && s'.spare == s.spare[1..];
    }
  }

  lemma PutBackKeeps(x: Shared, t: Tid, b: nat, i: nat)
    requires Good(x) && Enabled(x, PutBack(t, b, i))
    ensures Good(Do(x, PutBack(t, b, i)))
  {
    var s, s1 := x.slab, Released(x.slab, b, i);
    ReleasedKeeps(s, b, i);
    hide Sound, Released, SameHoldings;
    if |s1.spare| <= ZONE_RELEASE_THRESH {
      hide Within;
      forall u | u in x.hands
        ensures InHand(s1, x.hands[u])
      {
        HandKept(s, s1, NO_RUN, x.hands[u]);
      }
    } else {
      var r, s' := Run(s1.spare[0], ZonePages(s1)), Dropped(s1);
      DroppedKeeps(s1);
      DroppedWithin(s, s1);
      forall u | u in x.hands
        ensures RunsApart(r, x.hands[u])
      {
        HandKept(s, s1, NO_RUN, x.hands[u]);
        assert s1.spare[0] in s1.spare && Zoned(s1, r.start);
      }
      hide Inv, InHand, Within, RunsApart, Dropped;
      HandsKept(x, s', x.hands[t := r], t, r);
    }
  }

  lemma ReleasedKeeps(s: Slab, b: nat, i: nat)
    requires Inv(s) && Live(s, Chunk(b, i))
    ensures var s1 := Released(s, b, i); Sound(s1) && |s1.spare| <= ZONE_RELEASE_THRESH + 1 && Within(s, s1, NO_RUN)
  {
    ZoneChunk(s, b);
    PutChunkKeeps(s, b, i);
    var s1 := PutChunk(s, b, i);
    var z := s1.zones[b];
    ReleasedWithin(s, b, i);
    hide Returned, Within, PutChunk, Retire, SameHoldings, ZonesOk, ListsOk, SpareOk, UsageOk, LargeOk, PagesOk;
    if z.nfree == z.nmax && |s1.lists[z.index]| > 1 {
      RetireKeeps(s1, b);
    }
  }

  lemma ReleasedWithin(s: Slab, b: nat, i: nat)
    requires Inv(s) && Live(s, Chunk(b, i))
    ensures Within(s, Released(s, b, i), NO_RUN)
  {
    ZoneChunk(s, b);
    hide Inv;
    var s1 := PutChunk(s, b, i);
    assert s1.zones.Keys == s.zones.Keys;
  }

  lemma DroppedKeeps(s: Slab)
    requires Sound(s) && 0 < |s.spare| <= ZONE_RELEASE_THRESH + 1
    ensures Inv(Dropped(s)) && InHand(Dropped(s), Run(s.spare[0], ZonePages(s)))
  {
    var b, s1 := s.spare[0], s.(spare := s.spare[1..]);
    TailDistinct(s.spare);
    assert b in s.spare && Zoned(s, b) && Tagged(s, b);
    ZonePagesPositive(s);
    SpareApart(s, s1, b);
    Retag(s1, Dropped(s), Run(b, ZonePages(s)));
    hide UsageOk, LargeOk, PagesOk, ListsOk, ZonesOk, ApartFrom;
  }

  lemma DroppedWithin(s: Slab, s1: Slab)
    requires Within(s, s1, NO_RUN) && s1.spare != []
    ensures Within(s, Dropped(s1), Run(s1.spare[0], ZonePages(s1)))
  {
    var s' := Dropped(s1);
    FewerZones(s1, s');
    hide Zoned, Has, TagPages;
    FewerWithin(s, s1, s', Run(s1.spare[0], ZonePages(s1)));
  }

  lemma FewerWithin(s: Slab, s1: Slab, s': Slab, r: Run)
    requires Within(s, s1, NO_RUN) && s'.zoneSize == s1.zoneSize && |s'.usage| == |s1.usage| && s'.pages == s1.pages && s'.large == s1.large
    requires forall b: nat :: Zoned(s', b) ==> Zoned(s1, b)
    ensures Within(s, s', r)
  {
    hide Zoned, Has;
  }

  lemma FewerZones(s: Slab, s': Slab)
    requires s'.zones == s.zones && s.spare != [] && s'.spare == s.spare[1..]
    ensures forall b: nat :: Zoned(s', b) ==> Zoned(s, b)
  {
    assert forall b :: b in s'.spare ==> b in s.spare;
  }

  lemma UntagKeeps(x: Shared, t: Tid, p: nat)
    requires Good(x) && Enabled(x, Untag(t, p))
    ensures Good(Do(x, Untag(t, p)))
  {
    var s := x.slab;
    var r := Run(p, s.large[p]);
    LargeInside(s, p);
    var s' := s.(usage := s.usage[p := Large(0)], large := s.large - {p});
    Untagged(s, s', p);
    forall u | u in x.hands
      ensures RunsApart(r, x.hands[u])
    {
      assert InHand(s, x.hands[u]);
    }
    hide Inv, InHand, Within, RunsApart;
    HandsKept(x, s', x.hands[t := r], t, r);
  }

  lemma LargeInside(s: Slab, p: nat)
    requires Inv(s) && p in s.large
    ensures s.large[p] > 0 && p + s.large[p] <= |s.usage|
  {
    assert LargeTags(s);
  }

  /** A large block that is given up is in hand. */
  lemma Untagged(s: Slab, s': Slab, p: nat)
    requires Inv(s) && p in s.large && p < |s.usage| && s' == s.(usage := s.usage[p := Large(0)], large := s.large - {p})
    ensures Inv(s') && InHand(s', Run(p, s.large[p])) && Within(s, s', Run(p, s.large[p]))
  {
    var r, s1 := Run(p, s.large[p]), s.(large := s.large - {p});
    LargeInside(s, p);
    LargeApart(s, p);
    assert LargeTags(s) && NoneFree(s.pages, p, s.large[p]);
    Retag(s1, s', r);
    SameZones(s, s');
    hide UsageOk, LargeOk, PagesOk, LargeTags, ApartFrom, NoneFree, ZonesOk, ListsOk, SpareOk, Zoned;
  }

  lemma GiveKeeps(x: Shared, t: Tid)
    requires Good(x) && t in x.hands
    ensures Good(Do(x, Give(t)))
  {
    var s, r := x.slab, x.hands[t];
    assert InHand(s, r);
    var s' := s.(pages := PageFree(s.pages, r.start, r.count));
    GivePages(s, s', r.start, r.count);
    FreePages(s.pages, r.start, r.count);
    SameZones(s, s');
    hide UsageOk, LargeOk, PagesOk, ApartFrom, NoneFree, RunsApart, ZonesOk, ListsOk, SpareOk, Zoned;
    HandsKept(x, s', x.hands - {t}, t, r);
  }

  function Step(x: Shared, e: Event): Shared
    requires Inv(x.slab)
  {
    if Enabled(x, e) then Do(x, e) else x
  }

  lemma StepGood(x: Shared, e: Event)
    requires Good(x)
    ensures Good(Step(x, e))
  {
    hide Good, Do, Enabled;
    GoodInv(x);
    if Enabled(x, e) {
      StepEnabled(x, e);
    }
  }

  lemma GoodInv(x: Shared)
    requires Good(x)
    ensures Inv(x.slab)
  {
  }

  lemma StepEnabled(x: Shared, e: Event)
    requires Good(x) && Inv(x.slab) && Enabled(x, e)
    ensures Good(Do(x, e))
  {
    hide Good, Do, Inv;
    match e
    case Fetch(t, n) => FetchKeeps(x, t, n);
    case TagLarge(t) => TagLargeKeeps(x, t);
    case SetUp(t, size) => SetUpKeeps(x, t, size);
    case Quick(size) => QuickKeeps(x, size);
    case PutBack(t, b, i) => PutBackKeeps(x, t, b, i);
    case Untag(t, p) => UntagKeeps(x, t, p);
    case Give(t) => GiveKeeps(x, t);
  }

  function Steps(x: Shared, es: seq<Event>): (r: Shared)
    requires Good(x)
    ensures Good(r)
    decreases |es|
  {
    if es == [] then x else
    StepGood(x, es[0]);
    Steps(Step(x, es[0]), es[1..])
  }

  /** However the calls of any number of threads interleave: the tables account for every zone and page,
      no two grants overlap, and no grant lies in pages that are on their way. */
  lemma InterleavedSound(usage: seq<Usage>, es: seq<Event>, t: Tid, g: Grant, h: Grant)
    requires usage != []
    ensures Inv(Init(usage)) && Good(Shared(Init(usage), map[]))
    ensures var x := Steps(Shared(Init(usage), map[]), es);
      && (Live(x.slab, g) && Live(x.slab, h) && g != h ==>
            Start(x.slab, g) + Size(x.slab, g) <= Start(x.slab, h) || Start(x.slab, h) + Size(x.slab, h) <= Start(x.slab, g))
      && (Live(x.slab, g) && t in x.hands ==>
            Start(x.slab, g) + Size(x.slab, g) <= x.hands[t].start * PAGE || Past(x.hands[t]) * PAGE <= Start(x.slab, g))
  {
    InitInv(usage);
    var x := Steps(Shared(Init(usage), map[]), es);
    GoodInv(x);
    hide Init, Steps;
    if Live(x.slab, g) && Live(x.slab, h) && g != h {
      LiveApart(x.slab, g, h);
    }
    if Live(x.slab, g) && t in x.hands {
      GrantOffHand(x.slab, x.hands[t], g);
    }
  }

  lemma GrantOffHand(s: Slab, r: PagesSpec.Run, g: Grant)
    requires Inv(s) && InHand(s, r) && Live(s, g)
    ensures Start(s, g) + Size(s, g) <= r.start * PAGE || Past(r) * PAGE <= Start(s, g)
  {
    InSpan(s, g);
    match g
    case Pages(p) => hide Inv;
    case Chunk(b, i) =>
      assert Zoned(s, b);
      hide Inv, Zoned;
  }

  // ---- what changes hands ----

  /** The grant that a step hands out. */
  function Given(x: Shared, e: Event): Option<Grant>
    requires Inv(x.slab)
  {
    if !Enabled(x, e) then None else
    match e
    case TagLarge(t) => Some(Pages(x.hands[t].start))
    case SetUp(t, _) => Some(Chunk(x.hands[t].start, 0))
    case Quick(size) =>
      SmallestFit(size);
      MallocSmall(x.slab, ZoneIndex(size)).1
    case _ => None
  }

  /** The grant that a step takes back. */
  predicate Gives(e: Event, g: Grant) {
    match e
    case PutBack(_, b, i) => g == Chunk(b, i)
    case Untag(_, p) => g == Pages(p)
    case _ => false
  }

  /** A step adds exactly the grant that it hands out, or takes back exactly the one that is released, and
      every other grant stays where it is. */
  ghost predicate ExactGrants(x: Shared, e: Event, s': Slab)
    requires Inv(x.slab)
  {
    match Given(x, e)
    case Some(g) => Granted(x.slab, s', g) && (e.SetUp? || e.Quick? ==> Size(s', g) >= e.size)
    case None =>
      if Enabled(x, e) && e.PutBack? then Returned(x.slab, s', Chunk(e.b, e.i))
      else if Enabled(x, e) && e.Untag? then Returned(x.slab, s', Pages(e.p))
      else SameHoldings(x.slab, s')
  }

  lemma StepGrants(x: Shared, e: Event)
    requires Good(x)
    ensures Inv(x.slab) && ExactGrants(x, e, Step(x, e).slab)
    ensures Enabled(x, e) && (e.TagLarge? || e.SetUp? || e.Quick?) ==> Given(x, e).Some?
  {
    hide Good;
    GoodInv(x);
    if Enabled(x, e) {
      match e
      case TagLarge(t) => TagLargeGrants(x, t);
      case SetUp(t, size) => SetUpGrants(x, t, size);
      case Quick(size) => QuickGrants(x, size);
      case PutBack(t, b, i) => PutBackGrants(x, t, b, i);
      case Untag(t, p) =>
        LargeInside(x.slab, p);
        LargeReturned(x.slab, Do(x, e).slab, p);
      case Fetch(t, n) => Unmoved(x.slab, Do(x, e).slab);
      case Give(t) => Unmoved(x.slab, Do(x, e).slab);
    }
  }

  lemma Unmoved(s: Slab, s': Slab)
    requires s'.zones == s.zones && s'.large == s.large
    ensures SameHoldings(s, s')
  {
  }

  lemma TagLargeGrants(x: Shared, t: Tid)
    requires Good(x) && t in x.hands
    ensures Granted(x.slab, Do(x, TagLarge(t)).slab, Pages(x.hands[t].start))
  {
    var s, r := x.slab, x.hands[t];
    assert InHand(s, r);
    assert r.start !in s.large;
    LargeGranted(s, Do(x, TagLarge(t)).slab, r.start, r.count);
  }

  lemma SetUpGrants(x: Shared, t: Tid, size: nat)
    requires Good(x) && Enabled(x, SetUp(t, size))
    ensures Granted(x.slab, Do(x, SetUp(t, size)).slab, Chunk(x.hands[t].start, 0))
    ensures Size(Do(x, SetUp(t, size)).slab, Chunk(x.hands[t].start, 0)) >= size
  {
    SmallestFit(size);
    var s, b, c := x.slab, x.hands[t].start, ZoneIndex(size);
    assert InHand(s, x.hands[t]);
    ZonePagesPositive(s);
    assert !Zoned(s, b);
    assert |s.lists| == NZONES && c.chunk >= size && b !in s.zones;
    hide ZoneIndex, ChunkOf;
    var s1 := s.(usage := TagPages(s.usage, b, ZonePages(s), true));
    OpenZoneGrants(s1, b, c);
    SameGrants(s, s1, OpenZone(s1, b, c).0, Chunk(b, 0));
  }

  lemma QuickGrants(x: Shared, size: nat)
    requires Good(x) && Stocked(x.slab, size)
    ensures var s', g := Do(x, Quick(size)).slab, Given(x, Quick(size));
      g.Some? && Granted(x.slab, s', g.value) && Size(s', g.value) >= size
  {
    SmallestFit(size);
    var s, c := x.slab, ZoneIndex(size);
    hide ZoneIndex;
    MallocSmallKeeps(s, size);
    QuickAnswers(s, c);
    hide Inv, Granted, MallocSmall;
  }

  lemma QuickAnswers(s: Slab, c: Class)
    requires Inv(s) && c.chunk > 0 && 0 <= c.index < NZONES && (s.lists[c.index] != [] || s.spare != [])
    ensures MallocSmall(s, c).1.Some?
  {
    if s.lists[c.index] != [] {
      FirstOfList(s, c.index);
    }
    hide Inv;
  }

  lemma PutBackGrants(x: Shared, t: Tid, b: nat, i: nat)
    requires Good(x) && Enabled(x, PutBack(t, b, i))
    ensures Returned(x.slab, Do(x, PutBack(t, b, i)).slab, Chunk(b, i))
  {
    var s, s1 := x.slab, Released(x.slab, b, i);
    ReleasedGrants(s, b, i);
    if |s1.spare| > ZONE_RELEASE_THRESH {
      Unmoved(s1, Dropped(s1));
      hide Inv, Released, Dropped, Live;
      ReturnedOn(s, s1, Dropped(s1), Chunk(b, i));
    }
  }

  lemma ReturnedOn(s: Slab, s1: Slab, s': Slab, g: Grant)
    requires Returned(s, s1, g) && SameHoldings(s1, s')
    ensures Returned(s, s', g)
  {
    hide Start, Size;
  }

  lemma ReleasedGrants(s: Slab, b: nat, i: nat)
    requires Inv(s) && Live(s, Chunk(b, i))
    ensures Returned(s, Released(s, b, i), Chunk(b, i))
  {
    ZoneChunk(s, b);
    PutChunkKeeps(s, b, i);
    var s1 := PutChunk(s, b, i);
    var z := s1.zones[b];
    hide Returned, PutChunk, Retire, SameHoldings, Sound;
    if z.nfree == z.nmax && |s1.lists[z.index]| > 1 {
      RetireKeeps(s1, b);
      hide Inv, Live;
      ReturnedOn(s, s1, Retire(s1, b), Chunk(b, i));
    }
  }

  /** Whatever the other threads do, a grant stays with its owner, at its place and of its size, until a step
      releases it. */
  lemma {:induction false} GrantStays(x: Shared, es: seq<Event>, g: Grant)
    requires Good(x) && Live(x.slab, g) && forall e :: e in es ==> !Gives(e, g)
    ensures var x' := Steps(x, es); Live(x'.slab, g) && Start(x'.slab, g) == Start(x.slab, g) && Size(x'.slab, g) == Size(x.slab, g)
    decreases |es|
  {
    hide Good, Step, Live, Start, Size;
    if es != [] {
      assert es[0] in es && forall e :: e in es[1..] ==> e in es;
      GoodInv(x);
      StepGood(x, es[0]);
      GrantStep(x, es[0], g);
      GrantStays(Step(x, es[0]), es[1..], g);
    }
  }

  lemma GrantStep(x: Shared, e: Event, g: Grant)
    requires Good(x) && Live(x.slab, g) && !Gives(e, g)
    ensures var s' := Step(x, e).slab; Live(s', g) && Start(s', g) == Start(x.slab, g) && Size(s', g) == Size(x.slab, g)
  {
    StepGrants(x, e);
    hide Good, Step, Live, Start, Size, Given, Enabled;
  }

  // ---- calls that nobody interrupts ----

  /** The steps of one call in a row have the effect of the call: its state, its grant, and no pages left in hand. */
  lemma MallocAlone(x: Shared, t: Tid, size: nat)
    requires Good(x) && t !in x.hands && 0 < size < WORD
    ensures Inv(x.slab)
    ensures var (s', g) := Malloc(x.slab, size);
      && (size >= Limit(x.slab) ==> SameCall(x, Fetch(t, PagesFor(size)), TagLarge(t), s', g))
      && (size < Limit(x.slab) && Stocked(x.slab, size) ==> Step(x, Quick(size)) == x.(slab := s') && Given(x, Quick(size)) == g)
      && (size < Limit(x.slab) && !Stocked(x.slab, size) ==> SameCall(x, Fetch(t, ZonePages(x.slab)), SetUp(t, size), s', g))
  {
    hide Good, SameCall, Step, Malloc, ZoneIndex, Given;
    GoodInv(x);
    if size >= Limit(x.slab) {
      LargeAlone(x, t, size);
    } else if Stocked(x.slab, size) {
      QuickAlone(x, size);
    } else {
      FreshAlone(x, t, size);
    }
  }

  /** The steps `e` and `f` lead to `s'` and hand out `g`, and leave the hands as they were. */
  ghost predicate SameCall(x: Shared, e: Event, f: Event, s': Slab, g: Option<Grant>)
    requires Inv(x.slab)
  {
    var x1 := Step(x, e);
    Given(x, e) == None && Inv(x1.slab) && Step(x1, f) == Shared(s', x.hands) && Given(x1, f) == g
  }

  lemma FetchIs(x: Shared, t: Tid, n: nat)
    requires Good(x) && t !in x.hands
    ensures var (pages, r) := PageAlloc(x.slab.pages, n);
      var x1 := Step(x, Fetch(t, n));
      && Inv(x.slab) && Given(x, Fetch(t, n)) == None && Inv(x1.slab)
      && x1 == if r.None? then x else Shared(x.slab.(pages := pages), x.hands[t := Run(r.value, n)])
  {
    StepGood(x, Fetch(t, n));
    hide Good, PageAlloc;
    GoodInv(x);
    GoodInv(Step(x, Fetch(t, n)));
  }

  lemma LaidDown(hands: map<Tid, Run>, t: Tid, r: Run)
    requires t !in hands
    ensures hands[t := r] - {t} == hands
  {
  }

  lemma LargeAlone(x: Shared, t: Tid, size: nat)
    requires Good(x) && Inv(x.slab) && t !in x.hands && size < WORD && size >= Limit(x.slab) > 0
    ensures var (s', g) := Malloc(x.slab, size); SameCall(x, Fetch(t, PagesFor(size)), TagLarge(t), s', g)
  {
    var s, n := x.slab, PagesFor(size);
    FetchIs(x, t, n);
    AllocPages(s.pages, n);
    var (pages, r) := PageAlloc(s.pages, n);
    if r.Some? {
      FreeApart(s, r.value, n);
      LaidDown(x.hands, t, Run(r.value, n));
    }
    hide Good, PageAlloc, PagesFor, Inv;
    assert Malloc(s, size) == MallocLarge(s, size);
  }

  lemma QuickAlone(x: Shared, size: nat)
    requires Inv(x.slab) && Stocked(x.slab, size)
    ensures var (s', g) := Malloc(x.slab, size); Step(x, Quick(size)) == x.(slab := s') && Given(x, Quick(size)) == g
  {
    hide MallocSmall, ZoneIndex, Inv;
  }

  lemma FreshAlone(x: Shared, t: Tid, size: nat)
    requires Good(x) && Inv(x.slab) && t !in x.hands && 0 < size < Limit(x.slab) && !Stocked(x.slab, size)
    ensures var (s', g) := Malloc(x.slab, size); SameCall(x, Fetch(t, ZonePages(x.slab)), SetUp(t, size), s', g)
  {
    var s, n := x.slab, ZonePages(x.slab);
    FetchIs(x, t, n);
    SmallestFit(size);
    var (pages, r) := PageAlloc(s.pages, n);
    if r.Some? {
      LaidDown(x.hands, t, Run(r.value, n));
    }
    hide Good, PageAlloc, ZoneIndex, TagPages, Inv;
    assert Malloc(s, size) == MallocSmall(s, ZoneIndex(size));
  }

  lemma FreeAlone(x: Shared, t: Tid, g: Grant)
    requires Good(x) && t !in x.hands && Live(x.slab, g)
    ensures Inv(x.slab)
    ensures g.Pages? ==> TwoSteps(x, Untag(t, g.page), Give(t)) == Shared(Free(x.slab, g), x.hands)
    ensures g.Chunk? ==> TwoSteps(x, PutBack(t, g.zone, g.index), Give(t)) == Shared(Free(x.slab, g), x.hands)
  {
    hide Good, TwoSteps, Free;
    GoodInv(x);
    match g
    case Pages(p) => PagesAlone(x, t, p);
    case Chunk(b, i) => ChunkAlone(x, t, b, i);
  }

  function TwoSteps(x: Shared, e: Event, f: Event): Shared
    requires Good(x)
  {
    StepGood(x, e);
    GoodInv(x);
    GoodInv(Step(x, e));
    Step(Step(x, e), f)
  }

  lemma PagesAlone(x: Shared, t: Tid, p: nat)
    requires Good(x) && Inv(x.slab) && t !in x.hands && Live(x.slab, Pages(p))
    ensures TwoSteps(x, Untag(t, p), Give(t)) == Shared(Free(x.slab, Pages(p)), x.hands)
  {
    var s := x.slab;
    LargeInside(s, p);
    var r := Run(p, s.large[p]);
    hide Inv, Good, PageFree;
    assert Step(x, Untag(t, p)) == Shared(s.(usage := s.usage[p := Large(0)], large := s.large - {p}), x.hands[t := r]);
    LaidDown(x.hands, t, r);
  }

  lemma ChunkAlone(x: Shared, t: Tid, b: nat, i: nat)
    requires Good(x) && Inv(x.slab) && t !in x.hands && Live(x.slab, Chunk(b, i))
    ensures TwoSteps(x, PutBack(t, b, i), Give(t)) == Shared(Free(x.slab, Chunk(b, i)), x.hands)
  {
    var s, s1 := x.slab, Released(x.slab, b, i);
    ReleasedIs(s, b, i);
    hide Good, Inv, Released, Free, PageFree, TagPages;
    if |s1.spare| > ZONE_RELEASE_THRESH {
      var r := Run(s1.spare[0], ZonePages(s1));
      assert Step(x, PutBack(t, b, i)) == Shared(Dropped(s1), x.hands[t := r]);
      LaidDown(x.hands, t, r);
      assert Trim(s1) == Dropped(s1).(pages := PageFree(s1.pages, s1.spare[0], ZonePages(s1)));
    } else {
      assert Step(x, PutBack(t, b, i)) == x.(slab := s1);
    }
  }

  /** A release ends with the trim; without a zone set aside there is nothing to trim. */
  lemma ReleasedIs(s: Slab, b: nat, i: nat)
    requires Inv(s) && Live(s, Chunk(b, i))
    ensures Free(s, Chunk(b, i)) == Trim(Released(s, b, i))
  {
    ZoneChunk(s, b);
    PutChunkKeeps(s, b, i);
    hide Retire, Returned, Sound;
  }
}
