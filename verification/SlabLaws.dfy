/** What rt_malloc and rt_free of slab.c do with zones and pages: when a request is answered, where its chunk
    comes from, and when a zone is given up. */
module SlabLaws {
  import opened IpcList
  import opened Lists
  import opened PagesSpec
  import opened RtDef
  import opened SlabSpec
  import opened ZoneSizes
  import SS = SlabSteps

  // ---- zones without live chunks ----

  predicate Idle(z: Zone) {
    z.nfree == z.nmax
  }

  /** No two zones of one class are both wholly free. */
  ghost predicate OneIdle(s: Slab) {
    forall b, x :: b in s.zones && x in s.zones && b != x && Idle(s.zones[b]) && Idle(s.zones[x]) ==> s.zones[b].index != s.zones[x].index
  }

  lemma {:induction false} ManyBelow(q: seq<nat>, n: nat)
    requires Distinct(q) && forall i :: 0 <= i < n ==> i in q
    ensures n <= |q|
    decreases n
  {
    if n > 0 {
      var m: nat := n - 1;
      WithoutMembers(q, m);
      ManyBelow(Without(q, m), m);
    }
  }

  /** A zone is wholly free if and only if nobody holds a chunk of it. */
  lemma IdleExactly(s: Slab, b: nat)
    requires Inv(s) && b in s.zones
    ensures s.zones[b].nfree <= s.zones[b].nmax
    ensures Idle(s.zones[b]) <==> forall i :: !Live(s, Chunk(b, i))
  {
    var z := s.zones[b];
    assert ZoneOk(s.zoneSize, z);
    FewBelow(z.free, z.uindex + 1);
    if Idle(z) {
      FullyFree(s, b);
    } else if forall i :: !Live(s, Chunk(b, i)) {
      forall i | 0 <= i < z.uindex + 1
        ensures i in z.free
      {
        assert !Live(s, Chunk(b, i));
      }
      ManyBelow(z.free, z.uindex + 1);
    }
  }

  /** A zone that gives a chunk is not wholly free afterwards. */
  lemma TakeOneIdle(s: Slab, b: nat)
    requires Inv(s) && OneIdle(s) && b in s.zones && s.zones[b].nfree > 0 && s.lists[s.zones[b].index] != []
    requires s.zones[b].uindex + 1 == s.zones[b].nmax ==> s.zones[b].free != []
    ensures OneIdle(TakeChunk(s, b).0)
  {
    IdleExactly(s, b);
    hide Inv;
    var s' := TakeChunk(s, b).0;
    assert !Idle(s'.zones[b]);
  }

  lemma OpenOneIdle(s: Slab, b: nat, n: nat)
    requires OneIdle(s) && SizeOk(s) && |s.lists| == NZONES && 0 < n < Limit(s)
    requires 0 <= ZoneIndex(n).index < NZONES && ZoneIndex(n).chunk > 0
    ensures OneIdle(OpenZone(s, b, ZoneIndex(n)).0)
  {
    NewZoneOk(s, n);
    hide ZoneIndex, ZoneOk, PowerOfTwo, Round;
    var s' := OpenZone(s, b, ZoneIndex(n)).0;
    assert !Idle(s'.zones[b]);
  }

  lemma SmallOneIdle(s: Slab, n: nat)
    requires Inv(s) && OneIdle(s) && 0 < n < Limit(s)
    requires 0 <= ZoneIndex(n).index < NZONES && ZoneIndex(n).chunk > 0
    ensures OneIdle(MallocSmall(s, ZoneIndex(n)).0)
  {
    var c := ZoneIndex(n);
    hide ZoneIndex, OneIdle, TakeChunk, OpenZone;
    if s.lists[c.index] != [] {
      FirstOfList(s, c.index);
      TakeOneIdle(s, s.lists[c.index][0]);
    } else if s.spare != [] {
      SameOneIdle(s, s.(spare := s.spare[1..]));
      OpenOneIdle(s.(spare := s.spare[1..]), s.spare[0], n);
    } else {
      var (pages, r) := PageAlloc(s.pages, ZonePages(s));
      if r.Some? {
        var s1 := s.(pages := pages, usage := TagPages(s.usage, r.value, ZonePages(s), true));
        SameOneIdle(s, s1);
        OpenOneIdle(s1, r.value, n);
      }
    }
  }

  lemma SameOneIdle(s: Slab, s': Slab)
    requires OneIdle(s) && s'.zones == s.zones
    ensures OneIdle(s')
  {
  }

  /** The chunk is the last that is live in its zone, and another zone of the class has a chunk to give. */
  ghost predicate Retires(s: Slab, b: nat, i: nat)
    requires b in s.zones
  {
    && (forall k :: Live(s, Chunk(b, k)) ==> k == i)
    && exists x :: x != b && Listed(s, x, s.zones[b].index)
  }

  ghost predicate Listed(s: Slab, x: nat, index: nat) {
    x in s.zones && s.zones[x].index == index && s.zones[x].nfree > 0
  }

  lemma HasOther<T>(q: seq<T>, x: T)
    requires Distinct(q) && x in q
    ensures |q| > 1 <==> exists y :: y in q && y != x
  {
    if |q| > 1 {
      var y := if q[0] == x then q[1] else q[0];
      assert y in q && y != x;
    }
  }

  /** The test that rt_free makes after it put the chunk back. */
  lemma RetiresWhen(s: Slab, b: nat, i: nat)
    requires Inv(s) && Live(s, Chunk(b, i)) && s.zones[b].index < |s.lists|
    ensures var s1 := PutChunk(s, b, i);
      Idle(s1.zones[b]) && |s1.lists[s1.zones[b].index]| > 1 <==> Retires(s, b, i)
  {
    PutChunkKeeps(s, b, i);
    var s1 := PutChunk(s, b, i);
    IdleExactly(s1, b);
    var index := s.zones[b].index;
    assert Distinct(s1.lists[index]) && b in s1.lists[index];
    HasOther(s1.lists[index], b);
    assert forall x: nat :: x != b ==> (x in s1.lists[index] <==> Listed(s, x, index));
    OthersLive(s, s1, b, i);
  }

  lemma OthersLive(s: Slab, s1: Slab, b: nat, i: nat)
    requires b in s.zones && Returned(s, s1, Chunk(b, i))
    ensures (forall k :: !Live(s1, Chunk(b, k))) <==> (forall k :: Live(s, Chunk(b, k)) ==> k == i)
  {
    hide Live;
  }

  /** Exactly the zone `b` leaves its class and is set aside, or every zone stays; no page changes its state. */
  ghost predicate SetAside(s: Slab, b: nat, retires: bool, s1: Slab) {
    && s1.pages == s.pages && s1.usage == s.usage && s1.zoneSize == s.zoneSize
    && (retires ==> s1.zones == s.zones - {b} && s1.spare == [b] + s.spare)
    && (!retires ==> s1.zones.Keys == s.zones.Keys && s1.spare == s.spare)
  }

  lemma ReleasedRetires(s: Slab, b: nat, i: nat)
    requires Inv(s) && Live(s, Chunk(b, i))
    ensures SetAside(s, b, Retires(s, b, i), SS.Released(s, b, i))
  {
    ZoneChunk(s, b);
    RetiresWhen(s, b, i);
    hide Inv, Live, Retires;
    var s1 := PutChunk(s, b, i);
    assert s1.zones - {b} == s.zones - {b};
    assert s1.zones.Keys == s.zones.Keys;
  }

  lemma ReleasedOneIdle(s: Slab, b: nat, i: nat)
    requires Inv(s) && OneIdle(s) && Live(s, Chunk(b, i))
    ensures OneIdle(SS.Released(s, b, i))
  {
    ZoneChunk(s, b);
    PutChunkKeeps(s, b, i);
    var s1, s' := PutChunk(s, b, i), SS.Released(s, b, i);
    var index := s.zones[b].index;
    assert forall x :: x in s1.zones && x != b ==> s1.zones[x] == s.zones[x];
    if Idle(s1.zones[b]) && |s1.lists[index]| <= 1 {
      assert Distinct(s1.lists[index]) && b in s1.lists[index];
      HasOther(s1.lists[index], b);
      forall x | x in s1.zones && x != b && Idle(s1.zones[x])
        ensures s1.zones[x].index != index
      {
        assert ZoneOk(s1.zoneSize, s1.zones[x]);
      }
    }
  }

  lemma FreeOneIdle(s: Slab, g: Grant)
    requires Inv(s) && OneIdle(s) && Live(s, g)
    ensures OneIdle(Free(s, g))
  {
    if g.Chunk? {
      ReleasedOneIdle(s, g.zone, g.index);
      SS.ReleasedIs(s, g.zone, g.index);
    }
    hide Inv, Live, SS.Released;
  }

  lemma StepOneIdle(s: Slab, op: Op)
    requires Inv(s) && OneIdle(s)
    ensures OneIdle(Step(s, op))
  {
    hide OneIdle, Inv, Live, MallocSmall;
    match op
    case DoMalloc(size) =>
      if 0 < size < Limit(s) {
        SmallestFit(size);
        SmallOneIdle(s, size);
      } else {
        SameOneIdle(s, Step(s, op));
      }
    case DoFree(g) => if Live(s, g) { FreeOneIdle(s, g); }
  }

  lemma {:induction false} RunKeepsIdle(s: Slab, ops: seq<Op>)
    requires Inv(s) && OneIdle(s)
    ensures OneIdle(SlabSpec.Run(s, ops))
    decreases |ops|
  {
    hide OneIdle, Inv, Step;
    if ops != [] {
      StepInv(s, ops[0]);
      StepOneIdle(s, ops[0]);
      RunKeepsIdle(Step(s, ops[0]), ops[1..]);
    }
  }

  /** Over every run, no class ever has two zones of which nobody holds a chunk. */
  lemma RunGivesUp(usage: seq<Usage>, ops: seq<Op>, b: nat, x: nat)
    requires usage != []
    ensures Inv(Init(usage))
    ensures var s := SlabSpec.Run(Init(usage), ops);
      && Inv(s)
      && (b in s.zones && x in s.zones && b != x && (forall i :: !Live(s, Chunk(b, i)) && !Live(s, Chunk(x, i))) ==>
            s.zones[b].index != s.zones[x].index)
  {
    InitInv(usage);
    RunKeepsIdle(Init(usage), ops);
    var s := SlabSpec.Run(Init(usage), ops);
    NoneLive(s, b, x);
  }

  lemma NoneLive(s: Slab, b: nat, x: nat)
    requires Inv(s) && OneIdle(s)
    ensures b in s.zones && x in s.zones && b != x && (forall i :: !Live(s, Chunk(b, i)) && !Live(s, Chunk(x, i))) ==>
              s.zones[b].index != s.zones[x].index
  {
    if b in s.zones && x in s.zones {
      IdleExactly(s, b);
      IdleExactly(s, x);
    }
    hide Inv, Live;
  }

  /** A release that leaves a zone without live chunks, while another zone of its class has a chunk to give, ends that
      zone: it is kept for reuse, or if ZONE_RELEASE_THRESH zones are kept already, its pages become free.  Every
      other release leaves zones and pages alone. */
  lemma FreeRetires(s: Slab, b: nat, i: nat)
    requires Inv(s) && Live(s, Chunk(b, i))
    ensures var s', last := Free(s, Chunk(b, i)), Retires(s, b, i);
      && s'.zones.Keys == (if last then s.zones.Keys - {b} else s.zones.Keys)
      && s'.spare == (if last && |s.spare| < ZONE_RELEASE_THRESH then [b] + s.spare else s.spare)
      && forall p: nat :: Has(s'.pages, p) <==>
           Has(s.pages, p) || (last && |s.spare| == ZONE_RELEASE_THRESH && b <= p < b + ZonePages(s))
  {
    var s1 := SS.Released(s, b, i);
    ReleasedRetires(s, b, i);
    SS.ReleasedIs(s, b, i);
    ZonePagesPositive(s);
    assert Zoned(s, b) && Tagged(s, b) && NoneFree(s.pages, b, ZonePages(s)) && Canonical(s.pages);
    hide Inv, Live, Retires, SS.Released, PageFree, Free, Canonical, Zoned, Tagged, Has;
    if |s1.spare| > ZONE_RELEASE_THRESH {
      FreePages(s.pages, b, ZonePages(s));
      assert Trim(s1).pages == PageFree(s.pages, b, ZonePages(s));
    }
  }

  // ---- the same when calls interleave ----

  lemma DoOneIdle(x: SS.Shared, e: SS.Event)
    requires Inv(x.slab) && OneIdle(x.slab) && SS.Enabled(x, e)
    ensures OneIdle(SS.Do(x, e).slab)
  {
    var s, s' := x.slab, SS.Do(x, e).slab;
    hide OneIdle, Inv, Live, MallocSmall, OpenZone, SS.Released, Limit, ZoneIndex, TagPages, PageFree, PageAlloc;
    match e
    case SetUp(t, size) =>
      SmallestFit(size);
      SameTables(s);
      var s1 := s.(usage := TagPages(s.usage, x.hands[t].start, ZonePages(s), true));
      SameLimit(s, s1);
      SameOneIdle(s, s1);
      OpenOneIdle(s1, x.hands[t].start, size);
    case Quick(size) =>
      SmallestFit(size);
      SmallOneIdle(s, size);
    case PutBack(t, b, i) =>
      ReleasedOneIdle(s, b, i);
      SameOneIdle(SS.Released(s, b, i), s');
    case Fetch(_, _) => SameOneIdle(s, s');
    case TagLarge(_) => SameOneIdle(s, s');
    case Untag(_, _) => SameOneIdle(s, s');
    case Give(_) => SameOneIdle(s, s');
  }

  lemma SameTables(s: Slab)
    requires Inv(s)
    ensures SizeOk(s) && |s.lists| == NZONES
  {
  }

  lemma {:induction false} StepsKeepIdle(x: SS.Shared, es: seq<SS.Event>)
    requires SS.Good(x) && OneIdle(x.slab)
    ensures OneIdle(SS.Steps(x, es).slab)
    decreases |es|
  {
    hide OneIdle, SS.Good, SS.Do, SS.Enabled;
    if es != [] {
      SS.GoodInv(x);
      SS.StepGood(x, es[0]);
      if SS.Enabled(x, es[0]) { DoOneIdle(x, es[0]); }
      StepsKeepIdle(SS.Step(x, es[0]), es[1..]);
    }
  }

  /** Over every interleaving, no class ever has two zones of which nobody holds a chunk. */
  lemma InterleavedGivesUp(usage: seq<Usage>, es: seq<SS.Event>, b: nat, x: nat)
    requires usage != []
    ensures SS.Good(SS.Shared(Init(usage), map[]))
    ensures var s := SS.Steps(SS.Shared(Init(usage), map[]), es).slab;
      b in s.zones && x in s.zones && b != x && (forall i :: !Live(s, Chunk(b, i)) && !Live(s, Chunk(x, i))) ==>
        s.zones[b].index != s.zones[x].index
  {
    InitInv(usage);
    var x0 := SS.Shared(Init(usage), map[]);
    StepsKeepIdle(x0, es);
    SS.GoodInv(SS.Steps(x0, es));
    NoneLive(SS.Steps(x0, es).slab, b, x);
  }

  /** In a single stretch of rt_free, the zone is kept for reuse, or its pages are in the thread's hand on their way
      to the page list. */
  lemma PutBackRetires(x: SS.Shared, t: Tid, b: nat, i: nat)
    requires SS.Good(x) && Inv(x.slab) && SS.Enabled(x, SS.PutBack(t, b, i))
    ensures var s, x' := x.slab, SS.Do(x, SS.PutBack(t, b, i));
      var last := Retires(s, b, i);
      && x'.slab.zones.Keys == (if last then s.zones.Keys - {b} else s.zones.Keys)
      && x'.slab.spare == (if last && |s.spare| < ZONE_RELEASE_THRESH then [b] + s.spare else s.spare)
      && x'.slab.pages == s.pages
      && x'.hands == if last && |s.spare| == ZONE_RELEASE_THRESH then x.hands[t := PagesSpec.Run(b, ZonePages(s))] else x.hands
  {
    ReleasedRetires(x.slab, b, i);
    hide SS.Good, Retires, SS.Released, TagPages;
  }

  // ---- when a request is answered, and from where ----

  /** Pages that the least address with enough free pages in a row stands for: exactly these are used now. */
  ghost predicate LowestTaken(s: Slab, s': Slab, p: nat, n: nat) {
    && HandedOut(s.pages, s'.pages, p, n)
    && forall a: nat :: AllFree(s.pages, a, n) ==> p <= a
  }

  ghost predicate SomeRun(list: seq<PagesSpec.Run>, n: nat) {
    exists a: nat :: AllFree(list, a, n)
  }

  lemma AllocExact(list: seq<PagesSpec.Run>, n: nat)
    requires Canonical(list) && n > 0
    ensures PageAlloc(list, n).1.Some? <==> SomeRun(list, n)
    ensures PageAlloc(list, n).1.Some? ==> forall a: nat :: AllFree(list, a, n) ==> PageAlloc(list, n).1.value <= a
  {
    AllocPages(list, n);
    forall a: nat | AllFree(list, a, n)
      ensures PageAlloc(list, n).1.Some? && PageAlloc(list, n).1.value <= a
    {
      AllocLowest(list, n, a);
    }
    hide Canonical, AllFree, PageAlloc;
    if PageAlloc(list, n).1.Some? {
      assert AllFree(list, PageAlloc(list, n).1.value, n);
    }
  }

  lemma PagesForTight(size: nat)
    requires size < WORD
    ensures 0 < size <= WORD - PAGE ==> size <= PagesFor(size) * PAGE < size + PAGE
    ensures size > WORD - PAGE ==> PagesFor(size) == 0
  {
  }

  /** A request for whole pages gets the lowest run that covers it, less than a page too much; it fails if and only if
      there is no such run, or the rounded size exceeds 32 bits. */
  lemma LargeExact(s: Slab, size: nat)
    requires Inv(s) && Limit(s) <= size < WORD
    ensures var (s', r) := Malloc(s, size);
      && (r.Some? <==> size <= WORD - PAGE && SomeRun(s.pages, PagesFor(size)))
      && (r.Some? ==> r.value.Pages? && Live(s', r.value) && size <= Size(s', r.value) < size + PAGE
                        && LowestTaken(s, s', r.value.page, PagesFor(size)) && s'.zones == s.zones && s'.spare == s.spare)
  {
    PagesForTight(size);
    assert Limit(s) > 0 && Canonical(s.pages);
    var n := PagesFor(size);
    if size <= WORD - PAGE {
      AllocExact(s.pages, n);
      AllocPages(s.pages, n);
      if PageAlloc(s.pages, n).1.Some? {
        FreeApart(s, PageAlloc(s.pages, n).1.value, n);
      }
    }
    hide Inv, PageAlloc, PagesFor, Canonical, Has;
  }

  /** Some zone of the class has a chunk to give. */
  ghost predicate Stocked(s: Slab, index: nat) {
    exists x :: Listed(s, x, index)
  }

  /** A chunk that was never in use before, or if there are none left, the one that came back last. */
  ghost predicate NextChunk(z: Zone, i: nat) {
    if z.uindex + 1 < z.nmax then i == z.uindex + 1 else z.free != [] && i == z.free[0]
  }

  /** Where a chunk of a class comes from. */
  ghost predicate FromZone(s: Slab, index: nat, s': Slab, b: nat, i: nat) {
    && Listed(s, b, index) && NextChunk(s.zones[b], i)
    && s'.zones.Keys == s.zones.Keys && s'.spare == s.spare && s'.pages == s.pages && s'.usage == s.usage
  }

  ghost predicate FromSpare(s: Slab, s': Slab, b: nat) {
    s.spare == [b] + s'.spare && s'.zones.Keys == s.zones.Keys + {b} && s'.pages == s.pages && s'.usage == s.usage
  }

  ghost predicate FromPages(s: Slab, s': Slab, b: nat) {
    s'.spare == s.spare && s'.zones.Keys == s.zones.Keys + {b} && LowestTaken(s, s', b, ZonePages(s))
  }

  /** The chunk has the smallest size of all classes that covers the request, and comes from a zone of its class if
      one has a chunk to give, else from a zone kept for reuse, else from the lowest run of pages that holds a zone. */
  ghost predicate Served(s: Slab, index: nat, s': Slab, g: Grant)
    requires index < NZONES
  {
    && g.Chunk? && Live(s', g) && Size(s', g) == ChunkOf(index)
    && if Stocked(s, index) then FromZone(s, index, s', g.zone, g.index)
       else g.index == 0 && (if s.spare != [] then FromSpare(s, s', g.zone) else FromPages(s, s', g.zone))
  }

  /** A request for a chunk fails if and only if there is none of the three places to take it from. */
  lemma SmallExact(s: Slab, size: nat)
    requires Inv(s) && 0 < size < Limit(s)
    ensures 0 <= ZoneIndex(size).index < NZONES
    ensures var index, (s', r) := ZoneIndex(size).index, Malloc(s, size);
      && (r.Some? <==> Stocked(s, index) || s.spare != [] || SomeRun(s.pages, ZonePages(s)))
      && (r.Some? ==> Served(s, index, s', r.value))
  {
    SmallestFit(size);
    var c := ZoneIndex(size);
    hide ZoneIndex, ChunkOf, Limit, MallocSmall, Inv, Served, SomeRun, ZonePages;
    StockedWhen(s, c.index);
    if s.lists[c.index] != [] {
      ZoneGives(s, c);
    } else if s.spare != [] {
      SpareGives(s, c);
    } else {
      PagesGive(s, c);
    }
  }

  lemma StockedWhen(s: Slab, index: nat)
    requires Inv(s) && index < NZONES
    ensures |s.lists| == NZONES
    ensures Stocked(s, index) <==> s.lists[index] != []
    ensures s.lists[index] != [] ==> Listed(s, s.lists[index][0], index)
  {
    if s.lists[index] != [] {
      assert s.lists[index][0] in s.lists[index];
      assert Listed(s, s.lists[index][0], index);
    }
    if Stocked(s, index) {
      var x :| Listed(s, x, index);
      assert x in s.lists[index];
    }
  }

  lemma ZoneGives(s: Slab, c: Class)
    requires Inv(s) && c.chunk > 0 && 0 <= c.index < NZONES && |s.lists| == NZONES && s.lists[c.index] != [] && c.chunk == ChunkOf(c.index)
    ensures var (s', r) := MallocSmall(s, c); r.Some? && Served(s, c.index, s', r.value)
  {
    FirstOfList(s, c.index);
    var b := s.lists[c.index][0];
    TakeChunkGrants(s, b);
    ZoneChunk(s, b);
    StockedWhen(s, c.index);
    hide Inv, ChunkOf;
    assert MallocSmall(s, c).0.zones.Keys == s.zones.Keys;
  }

  lemma SpareGives(s: Slab, c: Class)
    requires Inv(s) && c.chunk > 0 && 0 <= c.index < NZONES
    requires |s.lists| == NZONES && s.lists[c.index] == [] && s.spare != [] && c.chunk == ChunkOf(c.index)
    ensures var (s', r) := MallocSmall(s, c); r.Some? && Served(s, c.index, s', r.value)
  {
    StockedWhen(s, c.index);
    NewZoneIndex(s.zoneSize, c);
    hide Inv, NewZone, ChunkOf, Stocked;
    assert s.spare == [s.spare[0]] + s.spare[1..];
  }

  lemma PagesGive(s: Slab, c: Class)
    requires Inv(s) && c.chunk > 0 && 0 <= c.index < NZONES
    requires |s.lists| == NZONES && s.lists[c.index] == [] && s.spare == [] && c.chunk == ChunkOf(c.index)
    ensures var (s', r) := MallocSmall(s, c);
      (r.Some? <==> SomeRun(s.pages, ZonePages(s))) && (r.Some? ==> Served(s, c.index, s', r.value))
  {
    ZonePagesPositive(s);
    assert Canonical(s.pages);
    AllocExact(s.pages, ZonePages(s));
    AllocPages(s.pages, ZonePages(s));
    StockedWhen(s, c.index);
    NewZoneIndex(s.zoneSize, c);
    hide Inv, PageAlloc, Canonical, NewZone, ChunkOf, HandedOut, SomeRun, TagPages, ZonePages, Stocked;
  }

  // ---- one call undoes the other ----

  /** All chunks of the zone have been in use, and the next request of its class is served from it. */
  ghost predicate NextInLine(s: Slab, b: nat) {
    && b in s.zones && s.zones[b].uindex + 1 == s.zones[b].nmax && s.zones[b].index < |s.lists|
    && s.lists[s.zones[b].index] != [] && s.lists[s.zones[b].index][0] == b
  }

  /** Releasing a chunk that such a zone just gave restores the whole state, unless it ends the zone. */
  lemma FreeUndoesMalloc(s: Slab, b: nat, size: nat)
    requires Inv(s) && 0 < size < Limit(s) && NextInLine(s, b) && s.zones[b].index == ZoneIndex(size).index
    ensures var (s', r) := Malloc(s, size);
      && Inv(s') && r.Some? && r.value.Chunk? && r.value.zone == b && Live(s', r.value) && b in s'.zones
      && (!Retires(s', b, r.value.index) ==> Free(s', r.value) == s)
  {
    SmallestFit(size);
    MallocSmallKeeps(s, size);
    FirstOfList(s, s.zones[b].index);
    TakeChunkGrants(s, b);
    var s' := Malloc(s, size).0;
    RetiresWhen(s', b, s.zones[b].free[0]);
    hide Inv, ZoneIndex, Limit, Retires;
    TakenBack(s, b);
  }

  lemma TakenBack(s: Slab, b: nat)
    requires NextInLine(s, b) && s.zones[b].nfree > 0 && s.zones[b].free != []
    ensures var (s', r) := TakeChunk(s, b); b in s'.zones && s'.zones[b].index < |s'.lists| && PutChunk(s', b, r.value.index) == s
  {
    var (s', r) := TakeChunk(s, b);
    var z, s1 := s.zones[b], PutChunk(s', b, r.value.index);
    assert s1.zones[b] == z;
    assert s1.zones == s.zones;
    assert s.lists[z.index] == [b] + s.lists[z.index][1..];
    assert s1.lists == s.lists;
  }

  /** The chunk that came back last is the next one that its class gives, and the state is as before the release:
      from a zone that was all in use, or from the one that is next in line. */
  lemma MallocUndoesFree(s: Slab, b: nat, i: nat, size: nat)
    requires Inv(s) && Live(s, Chunk(b, i)) && 0 < size < Limit(s) && s.zones[b].index == ZoneIndex(size).index
    requires !Retires(s, b, i) && (s.zones[b].nfree == 0 || NextInLine(s, b))
    ensures var s1 := Free(s, Chunk(b, i)); Inv(s1) && Malloc(s1, size) == (s, Some(Chunk(b, i)))
  {
    SmallestFit(size);
    ZoneChunk(s, b);
    RetiresWhen(s, b, i);
    FreeKeeps(s, Chunk(b, i));
    assert ZoneOk(s.zoneSize, s.zones[b]);
    var s1, z := PutChunk(s, b, i), s.zones[b];
    assert |s.lists| == NZONES;
    hide Inv, ZoneIndex, Retires, ZoneOk;
    assert s1.lists[z.index][0] == b;
    PutTaken(s, b, i);
  }

  lemma PutTaken(s: Slab, b: nat, i: nat)
    requires b in s.zones && s.zones[b].uindex + 1 == s.zones[b].nmax && s.zones[b].index < |s.lists| && (s.zones[b].nfree == 0 || NextInLine(s, b))
    ensures var s1 := PutChunk(s, b, i); s1.lists[s.zones[b].index] != [] && TakeChunk(s1, b) == (s, Some(Chunk(b, i)))
  {
    var s1, z := PutChunk(s, b, i), s.zones[b];
    var s2 := TakeChunk(s1, b).0;
    assert s2.zones[b] == z;
    assert s2.zones == s.zones;
    assert s2.lists == s.lists;
  }

  /** Releasing whole pages gives back the page list and the large blocks as they were before the request. */
  lemma FreeUndoesLarge(s: Slab, size: nat)
    requires Inv(s) && Limit(s) <= size < WORD && Malloc(s, size).1.Some?
    ensures var (s', r) := Malloc(s, size);
      && Inv(s') && Live(s', r.value)
      && var s1 := Free(s', r.value); s1.pages == s.pages && s1.large == s.large && s1.zones == s.zones && s1.spare == s.spare && s1.lists == s.lists
  {
    MallocKeeps(s, size);
    assert Limit(s) > 0 && Canonical(s.pages);
    hide Inv, PageAlloc, PageFree, PagesFor, Canonical, Granted;
    FreeUndoesAlloc(s.pages, PagesFor(size));
  }

  // ---- the start ----

  /** rt_system_heap_init leaves free exactly the pages behind those of memusage, which are the fewest that hold four
      bytes for each page, and there are no zones. */
  lemma InitPages(usage: seq<Usage>)
    requires usage != []
    ensures var s, n, m := Init(usage), |usage|, (4 * |usage| + PAGE - 1) / PAGE;
      && 4 * n <= m * PAGE < 4 * n + PAGE && m <= n
      && (forall p: nat :: Has(s.pages, p) <==> m <= p < n)
      && s.zones == map[] && s.spare == [] && s.large == map[] && s.usage == usage && s.zoneSize == ZoneSizeFor(n * PAGE)
  {
    var n, m := |usage|, (4 * |usage| + PAGE - 1) / PAGE;
    FreePages([], 0, n);
    var list := PageFree([], 0, n);
    assert list == [PagesSpec.Run(0, n)];
    AllocPages(list, m);
    if m < n {
      assert PageAlloc(list, m).0 == [PagesSpec.Run(m, n - m)] + list[1..];
    } else {
      assert PageAlloc(list, m).0 == list[1..];
    }
  }

  /** The zone size is the least power of two from 32 KiB on that is at least half of a 1024th of the heap, but no more
      than 128 KiB. */
  lemma ZoneSizeLeast(limsize: nat)
    ensures var z := ZoneSizeFor(limsize);
      && z in {0x8000, 0x1_0000, 0x2_0000}
      && (z == 0x2_0000 || limsize / 1024 <= 2 * z)
      && (forall y :: y in {0x8000, 0x1_0000, 0x2_0000} && y < z ==> 2 * y < limsize / 1024)
  {
  }
}
