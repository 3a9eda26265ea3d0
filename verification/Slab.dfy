/** rt_malloc and rt_free of slab.c: zones of equal chunks on top of the page allocator. */
module SlabSpec {
  import opened Lists
  import opened PagesSpec
  import opened RtDef
  import opened ZoneSizes

  const PAGE: nat := 4096

  const ZONE_HEADER: nat := 36        // sizeof(slab_zone)

  const ZONE_RELEASE_THRESH: nat := 2

  /** A zone lists the indices of its free chunks; the chunks above `uindex` have never been used. */
  datatype Zone = Zone(index: nat, chunk: nat, off: nat, nmax: nat, nfree: nat, uindex: nat, free: seq<nat>)

  /** An entry of memusage. */
  datatype Usage = Unused | Small(offset: nat) | Large(size: nat)

  /** Zones are named by their first page.  `lists` is zone_array, `spare` is the list of zones kept
      for reuse, `large` maps the first pages of the live large blocks to their page counts. */
  datatype Slab = Slab(zoneSize: nat, pages: seq<Run>, zones: map<nat, Zone>, lists: seq<seq<nat>>, spare: seq<nat>,
                       usage: seq<Usage>, large: map<nat, nat>)

  /** What rt_malloc hands out: a run of pages, or chunk `index` of a zone. */
  datatype Grant = Pages(page: nat) | Chunk(zone: nat, index: nat)

  function ZonePages(s: Slab): nat { s.zoneSize / PAGE }

  /** Requests from this size on get whole pages. */
  function ZoneLimit(zoneSize: nat): nat {
    if zoneSize / 4 > ZONE_LIMIT then ZONE_LIMIT else zoneSize / 4
  }

  function Limit(s: Slab): nat { ZoneLimit(s.zoneSize) }

  /** The chunk sizes with a single bit. */
  predicate PowerOfTwo(n: nat) {
    n in {8, 16, 32, 64, 128, 256, 512, 1024, 2048, 4096, 8192, 16384}
  }

  function NewZone(zoneSize: nat, c: Class): Zone
    requires c.chunk > 0 && c.index >= 0
  {
    var off := if PowerOfTwo(c.chunk) then Round(ZONE_HEADER, c.chunk) else Round(ZONE_HEADER, 8);
    var nmax := if off <= zoneSize then (zoneSize - off) / c.chunk else 0;
    Zone(c.index, c.chunk, off, nmax, if nmax > 0 then nmax - 1 else 0, 0, [])
  }

  // ---- the state ----

  predicate Zoned(s: Slab, b: nat) {
    b in s.zones || b in s.spare
  }

  predicate SizeOk(s: Slab) {
    s.zoneSize == 0x8000 || s.zoneSize == 0x1_0000 || s.zoneSize == 0x2_0000
  }

  /** In a zone of chunks with a power of two for their size, the first chunk stands at a multiple of it. */
  predicate OffAligned(z: Zone) {
    PowerOfTwo(z.chunk) ==> z.off % z.chunk == 0
  }

  /** The free chunks are counted, and all chunks lie in the zone behind its header. */
  ghost predicate ZoneOk(zoneSize: nat, z: Zone) {
    && z.index < NZONES && z.chunk == ChunkOf(z.index)
    && z.uindex < z.nmax && z.nfree == (z.nmax - 1 - z.uindex) + |z.free|
    && Distinct(z.free) && (forall i :: i in z.free ==> i <= z.uindex)
    && ZONE_HEADER <= z.off && z.off + z.nmax * z.chunk <= zoneSize && z.off % 8 == 0 && OffAligned(z)
  }

  ghost predicate ZonesOk(s: Slab) {
    forall b :: b in s.zones ==> ZoneOk(s.zoneSize, s.zones[b])
  }

  /** zone_array lists exactly the zones with free chunks, each in the list of its size. */
  ghost predicate ListsOk(s: Slab) {
    && |s.lists| == NZONES
    && (forall i :: 0 <= i < NZONES ==> Distinct(s.lists[i]))
    && (forall i: nat, b: nat :: i < NZONES ==> (b in s.lists[i] <==> b in s.zones && s.zones[b].index == i && s.zones[b].nfree > 0))
  }

  ghost predicate SpareOk(s: Slab) {
    Distinct(s.spare) && forall b :: b in s.spare ==> b !in s.zones
  }

  /** The pages of zone `b` know their place in it. */
  ghost predicate Tagged(s: Slab, b: nat) {
    b + ZonePages(s) <= |s.usage| && forall k :: b <= k < b + ZonePages(s) ==> s.usage[k] == Small(k - b) && !Has(s.pages, k)
  }

  ghost predicate UsageOk(s: Slab) {
    forall b :: Zoned(s, b) ==> Tagged(s, b)
  }

  ghost predicate LargeTags(s: Slab) {
    forall a :: a in s.large ==> s.large[a] > 0 && a + s.large[a] <= |s.usage| && s.usage[a] == Large(s.large[a]) && NoneFree(s.pages, a, s.large[a])
  }

  ghost predicate LargeDisjoint(s: Slab) {
    forall a, b :: a in s.large && b in s.large && a != b ==> a + s.large[a] <= b || b + s.large[b] <= a
  }

  ghost predicate LargeOffZones(s: Slab) {
    forall a, b: nat :: a in s.large && Zoned(s, b) ==> a + s.large[a] <= b || b + ZonePages(s) <= a
  }

  /** The live large blocks are tagged, and lie apart from each other and from the zones. */
  ghost predicate LargeOk(s: Slab) {
    LargeTags(s) && LargeDisjoint(s) && LargeOffZones(s)
  }

  ghost predicate PagesOk(s: Slab) {
    Canonical(s.pages) && forall p: nat :: Has(s.pages, p) ==> p < |s.usage|
  }

  ghost predicate Sound(s: Slab) {
    SizeOk(s) && ZonesOk(s) && ListsOk(s) && SpareOk(s) && UsageOk(s) && LargeOk(s) && PagesOk(s)
  }

  /** Between calls no more than ZONE_RELEASE_THRESH free zones are kept. */
  ghost predicate Inv(s: Slab) {
    Sound(s) && |s.spare| <= ZONE_RELEASE_THRESH
  }

  // ---- the operations ----

  /** memusage entries of a zone that is set up (or, with `small` false, given up). */
  function TagPages(usage: seq<Usage>, b: nat, n: nat, small: bool): (r: seq<Usage>)
    ensures |r| == |usage|
    ensures forall k :: 0 <= k < |usage| ==> r[k] == if b <= k < b + n then (if small then Small(k - b) else Unused) else usage[k]
  {
    seq(|usage|, k requires 0 <= k < |usage| => if b <= k < b + n then (if small then Small(k - b) else Unused) else usage[k])
  }

  function PagesFor(size: nat): nat {
    (size + PAGE - 1) / PAGE * PAGE % WORD / PAGE
  }

  /** A block of whole pages. */
  function MallocLarge(s: Slab, size: nat): (r: (Slab, Option<Grant>)) {
    var n := PagesFor(size);
    var (pages, r) := PageAlloc(s.pages, n);
    match r
    case None => (s, None)
    case Some(p) =>
      if p < |s.usage| then (s.(pages := pages, usage := s.usage[p := Large(n)], large := s.large[p := n]), Some(Pages(p)))
      else (s, None)
  }

  /** A chunk from zone `b`, the first in its list: a fresh one as long as there are any. */
  function TakeChunk(s: Slab, b: nat): (r: (Slab, Option<Grant>))
    requires b in s.zones && s.zones[b].index < |s.lists| && s.lists[s.zones[b].index] != [] && s.zones[b].nfree > 0
    requires s.zones[b].uindex + 1 == s.zones[b].nmax ==> s.zones[b].free != []
  {
    var z := s.zones[b];
    var list := s.lists[z.index];
    var lists := if z.nfree == 1 then s.lists[z.index := list[1..]] else s.lists;
    if z.uindex + 1 != z.nmax then
      (s.(zones := s.zones[b := z.(nfree := z.nfree - 1, uindex := z.uindex + 1)], lists := lists), Some(Chunk(b, z.uindex + 1)))
    else
      (s.(zones := s.zones[b := z.(nfree := z.nfree - 1, free := z.free[1..])], lists := lists), Some(Chunk(b, z.free[0])))
  }

  /** The zone at page `b` is set up for chunks of class `c`, and its first chunk handed out. */
  function OpenZone(s: Slab, b: nat, c: Class): (r: (Slab, Option<Grant>))
    requires c.chunk > 0 && 0 <= c.index < |s.lists|
  {
    (s.(zones := s.zones[b := NewZone(s.zoneSize, c)], lists := s.lists[c.index := [b] + s.lists[c.index]]), Some(Chunk(b, 0)))
  }

  function MallocSmall(s: Slab, c: Class): (r: (Slab, Option<Grant>))
    requires Inv(s) && c.chunk > 0 && 0 <= c.index < NZONES
  {
    if s.lists[c.index] != [] then
      FirstOfList(s, c.index);
      TakeChunk(s, s.lists[c.index][0])
    else if s.spare != [] then OpenZone(s.(spare := s.spare[1..]), s.spare[0], c)
    else
      var (pages, r) := PageAlloc(s.pages, ZonePages(s));
      match r
      case None => (s, None)
      case Some(b) => OpenZone(s.(pages := pages, usage := TagPages(s.usage, b, ZonePages(s), true)), b, c)
  }

  function Malloc(s: Slab, size: nat): (r: (Slab, Option<Grant>))
    requires Inv(s)
  {
    if size == 0 then (s, None)
    else if size >= Limit(s) then MallocLarge(s, size)
    else
      SmallestFit(size);
      MallocSmall(s, ZoneIndex(size))
  }

  // ---- what is handed out ----

  predicate Live(s: Slab, g: Grant) {
    match g
    case Pages(p) => p in s.large
    case Chunk(b, i) => b in s.zones && i <= s.zones[b].uindex && i !in s.zones[b].free
  }

  /** The first byte of a live grant, counted from heap_start. */
  function Start(s: Slab, g: Grant): nat
    requires Live(s, g)
  {
    match g
    case Pages(p) => p * PAGE
    case Chunk(b, i) => b * PAGE + s.zones[b].off + i * s.zones[b].chunk
  }

  function Size(s: Slab, g: Grant): nat
    requires Live(s, g)
  {
    match g
    case Pages(p) => s.large[p] * PAGE
    case Chunk(b, i) => s.zones[b].chunk
  }

  /** The first zone of a list has a chunk to give. */
  lemma FirstOfList(s: Slab, i: nat)
    requires Inv(s) && i < NZONES && s.lists[i] != []
    ensures var b := s.lists[i][0];
      b in s.zones && s.zones[b].index == i && s.zones[b].nfree > 0 && (s.zones[b].uindex + 1 == s.zones[b].nmax ==> s.zones[b].free != [])
  {
    var b := s.lists[i][0];
    assert b in s.lists[i];
    assert ZoneOk(s.zoneSize, s.zones[b]);
  }

  /** At least three chunks fit into a zone of any class that it may be set up for. */
  lemma NewZoneOk(s: Slab, n: nat)
    requires SizeOk(s) && 0 < n < Limit(s)
    ensures ZoneIndex(n).chunk > 0 && 0 <= ZoneIndex(n).index < NZONES
    ensures var z := NewZone(s.zoneSize, ZoneIndex(n)); ZoneOk(s.zoneSize, z) && z.nmax >= 3 && z.nfree > 0
  {
    SmallestFit(n);
    WasteBounded(n);
    var c := ZoneIndex(n);
    ChunkWithin(s, n);
    hide ZoneIndex, ChunkOf;
    var z := NewZone(s.zoneSize, c);
    OffsetSmall(c.chunk);
    Quotient3(s.zoneSize - z.off, c.chunk);
    if PowerOfTwo(c.chunk) {
      Multiple((ZONE_HEADER + c.chunk - 1) / c.chunk, c.chunk);
    }
  }

  lemma Multiple(k: nat, c: nat)
    requires c > 0
    ensures k * c % c == 0
  {
    var x := k * c;
    var q, r := x / c, x % c;
    assert x == q * c + r;
    if q < k {
      ScaleStep(q, k, c);
    } else if k < q {
      ScaleStep(k, q, c);
    }
  }

  lemma ChunkWithin(s: Slab, n: nat)
    requires SizeOk(s) && 0 < n < Limit(s)
    ensures 4 * ZoneIndex(n).chunk <= s.zoneSize && ZoneIndex(n).chunk >= 8
  {
    if n < 8192 {
      assert ZoneIndex(n).chunk <= 8192;
    } else {
      assert ZoneIndex(n).chunk <= 16384;
    }
  }

  lemma OffsetSmall(chunk: nat)
    requires chunk >= 8
    ensures var off := if PowerOfTwo(chunk) then Round(ZONE_HEADER, chunk) else Round(ZONE_HEADER, 8);
      ZONE_HEADER <= off && off % 8 == 0 && (off <= 64 || off <= chunk)
  {
  }

  lemma Quotient3(x: int, c: nat)
    requires c > 0 && x >= 3 * c
    ensures x / c >= 3 && (x / c) * c <= x
  {
    var q := x / c;
    assert x == q * c + x % c;
    assert q <= 2 ==> q * c <= 2 * c;
  }

  /** Exactly the grant `g` is added to what is handed out, and nothing handed out before moves. */
  ghost predicate Granted(s: Slab, s': Slab, g: Grant) {
    && !Live(s, g) && Live(s', g)
    && (forall h :: Live(s', h) <==> Live(s, h) || h == g)
    && (forall h :: Live(s, h) ==> Live(s', h) && Start(s', h) == Start(s, h) && Size(s', h) == Size(s, h))
  }

  /** Exactly the grant `g` is taken back. */
  ghost predicate Returned(s: Slab, s': Slab, g: Grant) {
    && Live(s, g) && !Live(s', g)
    && (forall h :: Live(s', h) <==> Live(s, h) && h != g)
    && (forall h :: Live(s', h) ==> Live(s, h) && Start(s', h) == Start(s, h) && Size(s', h) == Size(s, h))
  }

  // ---- chunks ----

  /** A zone that loses a free chunk leaves its list when it has no other. */
  lemma TakeChunkLists(s: Slab, b: nat)
    requires Inv(s) && b in s.zones && s.zones[b].nfree > 0 && s.lists[s.zones[b].index] != [] && s.lists[s.zones[b].index][0] == b
    requires s.zones[b].uindex + 1 == s.zones[b].nmax ==> s.zones[b].free != []
    ensures ListsOk(TakeChunk(s, b).0)
  {
    TailDistinct(s.lists[s.zones[b].index]);
    hide Distinct, Tagged, ZoneOk;
  }

  lemma TakeChunkZone(zoneSize: nat, z: Zone)
    requires ZoneOk(zoneSize, z) && z.nfree > 0
    ensures z.uindex + 1 != z.nmax ==> ZoneOk(zoneSize, z.(nfree := z.nfree - 1, uindex := z.uindex + 1)) && z.uindex + 1 !in z.free
    ensures z.uindex + 1 == z.nmax ==>
      z.free != [] && z.free[0] <= z.uindex && ZoneOk(zoneSize, z.(nfree := z.nfree - 1, free := z.free[1..]))
      && forall i :: i in z.free[1..] <==> i in z.free && i != z.free[0]
  {
    if z.uindex + 1 == z.nmax {
      TailDistinct(z.free);
      assert z.free[0] in z.free;
    }
  }

  lemma TakeChunkKeeps(s: Slab, b: nat)
    requires Inv(s) && b in s.zones && s.zones[b].nfree > 0 && s.lists[s.zones[b].index] != [] && s.lists[s.zones[b].index][0] == b
    requires s.zones[b].uindex + 1 == s.zones[b].nmax ==> s.zones[b].free != []
    ensures Inv(TakeChunk(s, b).0)
  {
    TakeChunkLists(s, b);
    TakeChunkZone(s.zoneSize, s.zones[b]);
    SameTags(s, TakeChunk(s, b).0);
    hide ZoneOk, UsageOk, LargeOk, PagesOk, Distinct, ListsOk;
  }

  lemma TakeChunkGrants(s: Slab, b: nat)
    requires Inv(s) && b in s.zones && s.zones[b].nfree > 0 && s.lists[s.zones[b].index] != []
    requires s.zones[b].uindex + 1 == s.zones[b].nmax ==> s.zones[b].free != []
    ensures var (s', r) := TakeChunk(s, b); r.Some? && Granted(s, s', r.value) && Size(s', r.value) == s.zones[b].chunk
  {
    var z := s.zones[b];
    TakeChunkZone(s.zoneSize, z);
    hide ZoneOk, Inv;
    var (s', r) := TakeChunk(s, b);
    var z' := s'.zones[b];
    var i := r.value.index;
    assert forall k: nat :: k <= z'.uindex && k !in z'.free <==> (k <= z.uindex && k !in z.free) || k == i;
    OneZone(s, s', b);
  }

  /** When one zone's record changes, grants elsewhere do not. */
  lemma OneZone(s: Slab, s': Slab, b: nat)
    requires b in s.zones && b in s'.zones && s'.zones == s.zones[b := s'.zones[b]] && s'.large == s.large
    requires s'.zones[b].chunk == s.zones[b].chunk && s'.zones[b].off == s.zones[b].off
    ensures forall h: Grant :: !(h.Chunk? && h.zone == b) ==> (Live(s', h) <==> Live(s, h))
    ensures forall h :: Live(s, h) && Live(s', h) ==> Start(s', h) == Start(s, h) && Size(s', h) == Size(s, h)
  {
  }

  /** Page tags and free pages do not depend on the chunks. */
  lemma SameTags(s: Slab, s': Slab)
    requires Inv(s) && s'.usage == s.usage && s'.pages == s.pages && s'.zoneSize == s.zoneSize && s'.large == s.large
    requires forall b :: Zoned(s', b) ==> Zoned(s, b)
    ensures UsageOk(s') && LargeOk(s') && PagesOk(s')
  {
    forall b | Zoned(s', b)
      ensures Tagged(s', b)
    {
      assert Tagged(s, b);
    }
  }

  // ---- pages ----

  /** The run of pages from `a` on meets no zone and no large block. */
  ghost predicate ApartFrom(s: Slab, a: nat, n: nat) {
    && (forall b: nat :: Zoned(s, b) ==> a + n <= b || b + ZonePages(s) <= a)
    && (forall b :: b in s.large ==> a + n <= b || b + s.large[b] <= a)
  }

  lemma ZonePagesPositive(s: Slab)
    requires SizeOk(s)
    ensures ZonePages(s) * PAGE == s.zoneSize && ZonePages(s) > 0
  {
  }

  lemma FreeApart(s: Slab, a: nat, n: nat)
    requires Sound(s) && n > 0 && AllFree(s.pages, a, n)
    ensures ApartFrom(s, a, n) && a + n <= |s.usage|
  {
    ZonePagesPositive(s);
    assert Has(s.pages, a + n - 1);
    forall b: nat | Zoned(s, b)
      ensures a + n <= b || b + ZonePages(s) <= a
    {
      assert Tagged(s, b);
      var p := if a < b then b else a;
      assert a <= p < a + n ==> Has(s.pages, p);
    }
    forall b | b in s.large
      ensures a + n <= b || b + s.large[b] <= a
    {
      var p := if a < b then b else a;
      assert a <= p < a + n ==> Has(s.pages, p);
    }
  }

  lemma SameZones(s: Slab, s': Slab)
    requires s'.zoneSize == s.zoneSize && s'.zones.Keys == s.zones.Keys && s'.spare == s.spare
    ensures ZonePages(s') == ZonePages(s) && forall b: nat :: Zoned(s', b) <==> Zoned(s, b)
  {
  }

  /** Pages leave the free list and get new tags. */
  lemma TakePages(s: Slab, s': Slab, a: nat, n: nat)
    requires Sound(s) && n > 0 && HandedOut(s.pages, s'.pages, a, n) && Canonical(s'.pages)
    requires s'.zoneSize == s.zoneSize && s'.zones == s.zones && s'.spare == s.spare && s'.large == s.large
    requires |s'.usage| == |s.usage| && forall k :: 0 <= k < |s.usage| && !(a <= k < a + n) ==> s'.usage[k] == s.usage[k]
    ensures UsageOk(s') && LargeOk(s') && PagesOk(s') && ApartFrom(s', a, n) && a + n <= |s.usage|
  {
    FreeApart(s, a, n);
    SameZones(s, s');
    forall b: nat | Zoned(s', b)
      ensures Tagged(s', b)
    {
      assert Zoned(s, b) && Tagged(s, b);
    }
    forall b | b in s.large
      ensures s'.usage[b] == Large(s.large[b]) && NoneFree(s'.pages, b, s.large[b])
    {
    }
  }

  // ---- rt_malloc ----

  lemma PagesCover(size: nat)
    requires size < WORD
    ensures PagesFor(size) > 0 ==> PagesFor(size) * PAGE >= size
    ensures 0 < size <= WORD - PAGE ==> PagesFor(size) > 0
  {
  }

  lemma MallocLargeKeeps(s: Slab, size: nat)
    requires Inv(s) && size < WORD
    ensures var (s', r) := MallocLarge(s, size);
      && Inv(s')
      && (r.None? ==> s' == s && PageAlloc(s.pages, PagesFor(size)).1.None?)
      && (r.Some? ==> Granted(s, s', r.value) && Size(s', r.value) >= size)
  {
    var n := PagesFor(size);
    PagesCover(size);
    AllocPages(s.pages, n);
    var (pages, r) := PageAlloc(s.pages, n);
    if r.Some? {
      var p := r.value;
      FreeApart(s, p, n);
      var s1 := s.(pages := pages, usage := s.usage[p := Large(n)]);
      hide PagesFor;
      TakePages(s, s1, p, n);
      LargeAdded(s1, p, n);
      var s' := s1.(large := s1.large[p := n]);
      assert MallocLarge(s, size) == (s', Some(Pages(p)));
      LargeGranted(s, s', p, n);
    }
  }

  lemma LargeAdded(s: Slab, p: nat, n: nat)
    requires UsageOk(s) && LargeOk(s) && PagesOk(s) && ApartFrom(s, p, n) && n > 0 && p + n <= |s.usage|
    requires s.usage[p] == Large(n) && NoneFree(s.pages, p, n)
    ensures var s' := s.(large := s.large[p := n]); UsageOk(s') && LargeOk(s') && PagesOk(s')
    ensures p !in s.large
  {
    var s' := s.(large := s.large[p := n]);
    SameZones(s, s');
    forall b: nat | Zoned(s', b)
      ensures Tagged(s', b)
    {
      assert Tagged(s, b);
    }
    hide Tagged, NoneFree, Zoned, ZonePages, Canonical, Has;
    assert UsageOk(s');
    LargeJoins(s, p, n);
  }

  /** A new run of pages lies apart from all others. */
  lemma LargeJoins(s: Slab, p: nat, n: nat)
    requires LargeOk(s) && ApartFrom(s, p, n) && n > 0 && p + n <= |s.usage| && s.usage[p] == Large(n) && NoneFree(s.pages, p, n)
    ensures LargeOk(s.(large := s.large[p := n])) && p !in s.large
  {
    assert p !in s.large;
    JoinsDisjoint(s, p, n);
    JoinsOffZones(s, p, n);
    hide NoneFree, Zoned, ZonePages, LargeDisjoint, LargeOffZones, ApartFrom;
    assert LargeTags(s.(large := s.large[p := n]));
  }

  lemma JoinsDisjoint(s: Slab, p: nat, n: nat)
    requires LargeDisjoint(s) && ApartFrom(s, p, n)
    ensures LargeDisjoint(s.(large := s.large[p := n]))
  {
    hide Zoned, ZonePages;
  }

  lemma JoinsOffZones(s: Slab, p: nat, n: nat)
    requires LargeOffZones(s) && ApartFrom(s, p, n)
    ensures LargeOffZones(s.(large := s.large[p := n]))
  {
    var s' := s.(large := s.large[p := n]);
    SameZones(s, s');
    hide Zoned, ZonePages;
  }

  lemma LargeGranted(s: Slab, s': Slab, p: nat, n: nat)
    requires p !in s.large && s'.zones == s.zones && s'.large == s.large[p := n]
    ensures Granted(s, s', Pages(p))
  {
  }

  /** The pages at `b` are tagged as a zone and belong to nobody. */
  ghost predicate Ready(s: Slab, b: nat) {
    && Sound(s) && !Zoned(s, b) && Tagged(s, b)
    && forall a :: a in s.large ==> a + s.large[a] <= b || b + ZonePages(s) <= a
  }

  lemma OpenZoneKeeps(s: Slab, b: nat, n: nat)
    requires Ready(s, b) && 0 < n < Limit(s) && |s.spare| <= ZONE_RELEASE_THRESH
    requires 0 <= ZoneIndex(n).index < NZONES && ZoneIndex(n).chunk > 0
    ensures Inv(OpenZone(s, b, ZoneIndex(n)).0)
  {
    NewZoneOk(s, n);
    hide ZoneIndex, NewZone;
    var c := ZoneIndex(n);
    var s' := OpenZone(s, b, c).0;
    assert s'.zones[b].index == c.index && s'.zones[b].nfree > 0 by {
      NewZoneIndex(s.zoneSize, c);
    }
    OpenLists(s, s', b, c.index);
    hide ZoneOk;
    assert forall x: nat :: Zoned(s', x) <==> Zoned(s, x) || x == b;
    assert ZonePages(s') == ZonePages(s);
    forall x: nat | Zoned(s', x)
      ensures Tagged(s', x)
    {
      assert Tagged(s, x);
    }
    hide ListsOk;
  }

  lemma NewZoneIndex(zoneSize: nat, c: Class)
    requires c.chunk > 0 && c.index >= 0
    ensures NewZone(zoneSize, c).index == c.index && NewZone(zoneSize, c).chunk == c.chunk
    ensures NewZone(zoneSize, c).uindex == 0 && NewZone(zoneSize, c).free == []
  {
    hide Round;
  }

  lemma OpenLists(s: Slab, s': Slab, b: nat, i: nat)
    requires ListsOk(s) && b !in s.zones && i < NZONES
    requires b in s'.zones && s'.zones == s.zones[b := s'.zones[b]] && s'.zones[b].index == i && s'.zones[b].nfree > 0
    requires s'.lists == s.lists[i := [b] + s.lists[i]]
    ensures ListsOk(s')
  {
    assert b !in s.lists[i];
    assert forall x :: x in [b] + s.lists[i] <==> x == b || x in s.lists[i];
  }

  lemma OpenZoneGrants(s: Slab, b: nat, c: Class)
    requires b !in s.zones && c.chunk > 0 && 0 <= c.index < |s.lists|
    ensures var (s', r) := OpenZone(s, b, c); r.Some? && Granted(s, s', r.value) && Size(s', r.value) == c.chunk
  {
    NewZoneIndex(s.zoneSize, c);
    hide NewZone;
  }

  /** A spare zone is taken out for reuse. */
  lemma SpareReady(s: Slab)
    requires Inv(s) && s.spare != []
    ensures Ready(s.(spare := s.spare[1..]), s.spare[0]) && s.spare[0] !in s.zones
  {
    var s1, b := s.(spare := s.spare[1..]), s.spare[0];
    TailDistinct(s.spare);
    assert b in s.spare && Zoned(s, b) && Tagged(s, b);
    SameTags(s, s1);
    assert Tagged(s1, b);
  }

  /** Fresh pages are tagged as a zone. */
  lemma FreshReady(s: Slab, b: nat, pages: seq<Run>)
    requires Inv(s) && PageAlloc(s.pages, ZonePages(s)) == (pages, Some(b))
    ensures Ready(s.(pages := pages, usage := TagPages(s.usage, b, ZonePages(s), true)), b) && !Zoned(s, b)
  {
    var n := ZonePages(s);
    AllocPages(s.pages, n);
    FreeApart(s, b, n);
    var s1 := s.(pages := pages, usage := TagPages(s.usage, b, n, true));
    TakePages(s, s1, b, n);
    ZonePagesPositive(s);
    assert Tagged(s1, b);
  }

  /** What a malloc may do: grant memory of at least the size, or fail and change nothing. */
  ghost predicate MallocOk(s: Slab, size: nat, s': Slab, r: Option<Grant>) {
    && Inv(s')
    && (r.Some? ==> Granted(s, s', r.value) && Size(s', r.value) >= size)
    && (r.None? ==> s' == s)
  }

  lemma MallocSmallKeeps(s: Slab, n: nat)
    requires Inv(s) && 0 < n < Limit(s)
    requires 0 <= ZoneIndex(n).index < NZONES && ZoneIndex(n).chunk > 0
    ensures var (s', r) := MallocSmall(s, ZoneIndex(n)); MallocOk(s, n, s', r)
  {
    SmallestFit(n);
    var c := ZoneIndex(n);
    hide ZoneIndex, TakeChunk, OpenZone, Granted, Sound, Ready, Limit;
    if s.lists[c.index] != [] {
      FirstOfList(s, c.index);
      var b := s.lists[c.index][0];
      TakeChunkKeeps(s, b);
      TakeChunkGrants(s, b);
      ZoneChunk(s, b);
    } else if s.spare != [] {
      SpareReady(s);
      var s1 := s.(spare := s.spare[1..]);
      SameLimit(s, s1);
      OpenZoneKeeps(s1, s.spare[0], n);
      OpenZoneGrants(s1, s.spare[0], c);
      SameGrants(s, s1, OpenZone(s1, s.spare[0], c).0, Chunk(s.spare[0], 0));
    } else {
      var (pages, r) := PageAlloc(s.pages, ZonePages(s));
      if r.Some? {
        var b := r.value;
        FreshReady(s, b, pages);
        var s1 := s.(pages := pages, usage := TagPages(s.usage, b, ZonePages(s), true));
        SameLimit(s, s1);
        OpenZoneKeeps(s1, b, n);
        OpenZoneGrants(s1, b, c);
        SameGrants(s, s1, OpenZone(s1, b, c).0, Chunk(b, 0));
      }
    }
  }

  lemma SameLimit(s: Slab, s': Slab)
    requires s'.zoneSize == s.zoneSize
    ensures Limit(s') == Limit(s)
  {
  }

  lemma ZoneChunk(s: Slab, b: nat)
    requires Inv(s) && b in s.zones
    ensures s.zones[b].index < NZONES && s.zones[b].chunk == ChunkOf(s.zones[b].index)
  {
    assert ZoneOk(s.zoneSize, s.zones[b]);
  }

  lemma SameGrants(s: Slab, s1: Slab, s': Slab, g: Grant)
    requires s1.zones == s.zones && s1.large == s.large && Granted(s1, s', g)
    ensures Granted(s, s', g)
  {
    assert forall h: Grant :: Live(s1, h) <==> Live(s, h);
    assert forall h: Grant :: Live(s, h) ==> Start(s1, h) == Start(s, h) && Size(s1, h) == Size(s, h);
  }

  /** Every call of rt_malloc keeps the allocator sound; a chunk or run that it hands out was not
      handed out before, and nothing else changes hands. */
  lemma MallocKeeps(s: Slab, size: nat)
    requires Inv(s) && size < WORD
    ensures var (s', r) := Malloc(s, size); MallocOk(s, size, s', r)
  {
    if size > 0 {
      if size >= Limit(s) {
        MallocLargeKeeps(s, size);
      } else {
        SmallestFit(size);
        MallocSmallKeeps(s, size);
      }
    }
  }

  /** A request that fails is empty, too large for a 32-bit page count, or finds no zone to take from
      and nowhere the pages in a row that it needs. */
  lemma MallocFails(s: Slab, size: nat, a: nat)
    requires Inv(s) && 0 < size <= WORD - PAGE && Malloc(s, size).1.None?
    ensures !AllFree(s.pages, a, if size >= Limit(s) then PagesFor(size) else ZonePages(s))
  {
    PagesCover(size);
    ZonePagesPositive(s);
    var n := if size >= Limit(s) then PagesFor(size) else ZonePages(s);
    if AllFree(s.pages, a, n) {
      AllocLowest(s.pages, n, a);
      AllocPages(s.pages, n);
      if size >= Limit(s) {
        FreeApart(s, PageAlloc(s.pages, n).1.value, n);
      } else {
        SmallestFit(size);
        FailsSmall(s, ZoneIndex(size));
      }
    }
  }

  lemma FailsSmall(s: Slab, c: Class)
    requires Inv(s) && c.chunk > 0 && 0 <= c.index < NZONES && MallocSmall(s, c).1.None?
    ensures PageAlloc(s.pages, ZonePages(s)).1.None?
  {
  }

  // ---- rt_free ----

  /** The chunk goes back to its zone, which is listed again if it was full. */
  function PutChunk(s: Slab, b: nat, i: nat): Slab
    requires b in s.zones && s.zones[b].index < |s.lists|
  {
    var z := s.zones[b];
    s.(zones := s.zones[b := z.(free := [i] + z.free, nfree := z.nfree + 1)],
       lists := if z.nfree == 0 then s.lists[z.index := [b] + s.lists[z.index]] else s.lists)
  }

  /** A zone without live chunks is set aside when there are others of its kind. */
  function Retire(s: Slab, b: nat): Slab
    requires b in s.zones && s.zones[b].index < |s.lists|
  {
    var i := s.zones[b].index;
    s.(zones := s.zones - {b}, lists := s.lists[i := Without(s.lists[i], b)], spare := [b] + s.spare)
  }

  /** The newest spare zone goes back to the page allocator when there are too many. */
  function Trim(s: Slab): Slab {
    if |s.spare| <= ZONE_RELEASE_THRESH then s else
    var b := s.spare[0];
    s.(spare := s.spare[1..], usage := TagPages(s.usage, b, ZonePages(s), false), pages := PageFree(s.pages, b, ZonePages(s)))
  }

  function Free(s: Slab, g: Grant): Slab
    requires Inv(s) && Live(s, g)
  {
    match g
    case Pages(p) => s.(usage := s.usage[p := Large(0)], large := s.large - {p}, pages := PageFree(s.pages, p, s.large[p]))
    case Chunk(b, i) =>
      ZoneChunk(s, b);
      var s := PutChunk(s, b, i);
      var z := s.zones[b];
      if z.nfree == z.nmax && |s.lists[z.index]| > 1 then Trim(Retire(s, b)) else s
  }

  lemma PutChunkKeeps(s: Slab, b: nat, i: nat)
    requires Inv(s) && Live(s, Chunk(b, i)) && s.zones[b].index < |s.lists|
    ensures Inv(PutChunk(s, b, i)) && Returned(s, PutChunk(s, b, i), Chunk(b, i))
    ensures b in PutChunk(s, b, i).lists[s.zones[b].index]
  {
    var z := s.zones[b];
    assert ZoneOk(s.zoneSize, z);
    PutZone(s.zoneSize, z, i);
    var s' := PutChunk(s, b, i);
    PutLists(s, b, i);
    SameTags(s, s');
    hide ZoneOk, UsageOk, LargeOk, PagesOk, Distinct, ListsOk;
    PutGrants(s, s', b, i);
  }

  lemma PutZone(zoneSize: nat, z: Zone, i: nat)
    requires ZoneOk(zoneSize, z) && i <= z.uindex && i !in z.free
    ensures ZoneOk(zoneSize, z.(free := [i] + z.free, nfree := z.nfree + 1))
  {
  }

  lemma PutLists(s: Slab, b: nat, i: nat)
    requires ListsOk(s) && b in s.zones && s.zones[b].index < NZONES
    ensures ListsOk(PutChunk(s, b, i)) && b in PutChunk(s, b, i).lists[s.zones[b].index]
  {
    var z := s.zones[b];
    var list := s.lists[z.index];
    if z.nfree == 0 {
      assert b !in list;
      assert forall x :: x in [b] + list <==> x == b || x in list;
    }
  }

  lemma PutGrants(s: Slab, s': Slab, b: nat, i: nat)
    requires Live(s, Chunk(b, i)) && s'.large == s.large
    requires s'.zones == s.zones[b := s.zones[b].(free := [i] + s.zones[b].free, nfree := s.zones[b].nfree + 1)]
    ensures Returned(s, s', Chunk(b, i))
  {
    assert forall k :: k in s'.zones[b].free <==> k == i || k in s.zones[b].free;
    OneZone(s, s', b);
  }

  // ---- retiring a zone ----

  lemma {:induction false} FewBelow(q: seq<nat>, n: nat)
    requires Distinct(q) && forall x :: x in q ==> x < n
    ensures |q| <= n
    decreases n
  {
    assert q != [] ==> q[0] in q;
    if n > 0 {
      var m: nat := n - 1;
      WithoutMembers(q, m);
      FewBelow(Without(q, m), m);
    }
  }

  /** `n` distinct numbers below `n` are all of them. */
  lemma AllPresent(q: seq<nat>, n: nat, i: nat)
    requires Distinct(q) && (forall x :: x in q ==> x < n) && |q| == n && i < n
    ensures i in q
  {
    if i !in q {
      FewBelow([i] + q, n);
      assert false;
    }
  }

  /** A zone whose chunks are all free has none handed out. */
  lemma FullyFree(s: Slab, b: nat)
    requires Inv(s) && b in s.zones && s.zones[b].nfree == s.zones[b].nmax
    ensures forall i :: !Live(s, Chunk(b, i))
  {
    var z := s.zones[b];
    assert ZoneOk(s.zoneSize, z);
    forall i: nat | i <= z.uindex
      ensures i in z.free
    {
      AllPresent(z.free, z.uindex + 1, i);
    }
  }

  /** Sound, with `b` as the newest spare zone, and the same grants. */
  lemma RetireKeeps(s: Slab, b: nat)
    requires Inv(s) && b in s.zones && s.zones[b].index < |s.lists| && s.zones[b].nfree == s.zones[b].nmax
    ensures Sound(Retire(s, b)) && |Retire(s, b).spare| == |s.spare| + 1
    ensures SameHoldings(s, Retire(s, b))
  {
    hide Sound, SameHoldings;
    RetireSound(s, b);
    RetireHoldings(s, b);
  }

  lemma RetireSound(s: Slab, b: nat)
    requires Inv(s) && b in s.zones && s.zones[b].index < |s.lists|
    ensures Sound(Retire(s, b))
  {
    hide ZoneOk, UsageOk, LargeOk, PagesOk, ListsOk;
    var s' := Retire(s, b);
    RetireLists(s, b);
    assert forall x :: x in s'.spare <==> x == b || x in s.spare;
    assert forall x: nat :: Zoned(s', x) ==> Zoned(s, x);
    SameTags(s, s');
  }

  lemma RetireHoldings(s: Slab, b: nat)
    requires Inv(s) && b in s.zones && s.zones[b].index < |s.lists| && s.zones[b].nfree == s.zones[b].nmax
    ensures SameHoldings(s, Retire(s, b))
  {
    hide Inv;
    FullyFree(s, b);
  }

  lemma RetireLists(s: Slab, b: nat)
    requires ListsOk(s) && b in s.zones && s.zones[b].index < |s.lists|
    ensures ListsOk(Retire(s, b))
  {
    WithoutMembers(s.lists[s.zones[b].index], b);
    hide Without, Distinct;
  }

  /** The same grants at the same places. */
  ghost predicate SameHoldings(s: Slab, s': Slab) {
    && (forall h :: Live(s', h) <==> Live(s, h))
    && (forall h :: Live(s', h) ==> Start(s', h) == Start(s, h) && Size(s', h) == Size(s, h))
  }

  // ---- giving pages back ----

  /** Pages that are in no zone and no large block any more join the free list. */
  lemma GivePages(s: Slab, s': Slab, a: nat, n: nat)
    requires SizeOk(s) && UsageOk(s) && LargeOk(s) && PagesOk(s) && ApartFrom(s, a, n) && n > 0 && a + n <= |s.usage| && NoneFree(s.pages, a, n)
    requires s'.zoneSize == s.zoneSize && s'.zones == s.zones && s'.spare == s.spare && s'.large == s.large
    requires s'.pages == PageFree(s.pages, a, n)
    requires |s'.usage| == |s.usage| && forall k :: 0 <= k < |s.usage| && !(a <= k < a + n) ==> s'.usage[k] == s.usage[k]
    ensures UsageOk(s') && LargeOk(s') && PagesOk(s')
  {
    FreePages(s.pages, a, n);
    SameZones(s, s');
    forall b: nat | Zoned(s', b)
      ensures Tagged(s', b)
    {
      assert Zoned(s, b) && Tagged(s, b);
    }
    forall b | b in s.large
      ensures s'.usage[b] == Large(s.large[b]) && NoneFree(s'.pages, b, s.large[b])
    {
    }
  }

  lemma TrimKeeps(s: Slab)
    requires Sound(s) && |s.spare| <= ZONE_RELEASE_THRESH + 1
    ensures Inv(Trim(s)) && SameHoldings(s, Trim(s))
  {
    if |s.spare| > ZONE_RELEASE_THRESH {
      var b := s.spare[0];
      var s1 := s.(spare := s.spare[1..]);
      TailDistinct(s.spare);
      assert b in s.spare && Zoned(s, b) && Tagged(s, b);
      ZonePagesPositive(s);
      SpareApart(s, s1, b);
      GivePages(s1, Trim(s), b, ZonePages(s));
      hide ZoneOk, UsageOk, LargeOk, PagesOk, Distinct, ListsOk, Tagged;
      assert forall x :: x in s.spare[1..] ==> x in s.spare;
    }
  }

  /** Two zones share no page, because a page knows its place in one only. */
  lemma ZonesApart(s: Slab, b: nat, x: nat)
    requires UsageOk(s) && SizeOk(s) && Zoned(s, b) && Zoned(s, x) && b != x
    ensures b + ZonePages(s) <= x || x + ZonePages(s) <= b
  {
    ZonePagesPositive(s);
    assert Tagged(s, b) && Tagged(s, x);
    var p := if b < x then x else b;
    assert b <= p < b + ZonePages(s) ==> s.usage[p] == Small(p - b);
    assert x <= p < x + ZonePages(s) ==> s.usage[p] == Small(p - x);
  }

  lemma SpareApart(s: Slab, s1: Slab, b: nat)
    requires Sound(s) && s.spare != [] && b == s.spare[0] && s1 == s.(spare := s.spare[1..])
    ensures UsageOk(s1) && LargeOk(s1) && PagesOk(s1) && ApartFrom(s1, b, ZonePages(s))
  {
    TailDistinct(s.spare);
    assert b in s.spare && Zoned(s, b);
    forall x: nat | Zoned(s1, x)
      ensures Tagged(s1, x) && Zoned(s, x) && (b + ZonePages(s) <= x || x + ZonePages(s) <= b)
    {
      assert Zoned(s, x) && Tagged(s, x);
      ZonesApart(s, b, x);
    }
  }

  /** A large block that is given up stands apart from what remains. */
  lemma LargeApart(s: Slab, p: nat)
    requires Sound(s) && p in s.large
    ensures var s1 := s.(large := s.large - {p}); UsageOk(s1) && LargeOk(s1) && PagesOk(s1) && ApartFrom(s1, p, s.large[p])
  {
    var s1 := s.(large := s.large - {p});
    SameZones(s, s1);
    forall b: nat | Zoned(s1, b)
      ensures Tagged(s1, b)
    {
      assert Tagged(s, b);
    }
  }

  lemma FreeLargeKeeps(s: Slab, p: nat)
    requires Inv(s) && p in s.large
    ensures Inv(Free(s, Pages(p))) && Returned(s, Free(s, Pages(p)), Pages(p))
  {
    var n := s.large[p];
    var s1 := s.(large := s.large - {p});
    LargeApart(s, p);
    var s' := Free(s, Pages(p));
    GivePages(s1, s', p, n);
    hide ZoneOk, UsageOk, LargeOk, PagesOk, Distinct, ListsOk, Tagged;
    LargeReturned(s, s', p);
  }

  lemma LargeReturned(s: Slab, s': Slab, p: nat)
    requires p in s.large && s'.zones == s.zones && s'.large == s.large - {p}
    ensures Returned(s, s', Pages(p))
  {
  }

  /** Every call of rt_free on a live grant keeps the allocator sound and takes back just that grant. */
  lemma FreeKeeps(s: Slab, g: Grant)
    requires Inv(s) && Live(s, g)
    ensures Inv(Free(s, g)) && Returned(s, Free(s, g), g)
  {
    match g
    case Pages(p) => FreeLargeKeeps(s, p);
    case Chunk(b, i) =>
      ZoneChunk(s, b);
      PutChunkKeeps(s, b, i);
      var s1 := PutChunk(s, b, i);
      var z := s1.zones[b];
      hide Sound, Returned, Trim, Retire, PutChunk;
      if z.nfree == z.nmax && |s1.lists[z.index]| > 1 {
        RetireKeeps(s1, b);
        TrimKeeps(Retire(s1, b));
        ReturnedThen(s, s1, Retire(s1, b), Trim(Retire(s1, b)), g);
      }
  }

  lemma ReturnedThen(s: Slab, s1: Slab, s2: Slab, s3: Slab, g: Grant)
    requires Returned(s, s1, g) && SameHoldings(s1, s2) && SameHoldings(s2, s3)
    ensures Returned(s, s3, g)
  {
    hide Start, Size;
  }

  // ---- addresses ----

  /** The pages that hold a live grant: first and count. */
  function Span(s: Slab, g: Grant): (nat, nat)
    requires Live(s, g)
  {
    match g
    case Pages(p) => (p, s.large[p])
    case Chunk(b, i) => (b, ZonePages(s))
  }

  lemma ChunkInside(zoneSize: nat, z: Zone, i: nat)
    requires ZoneOk(zoneSize, z) && i <= z.uindex
    ensures ZONE_HEADER <= z.off && z.off + i * z.chunk + z.chunk <= zoneSize && z.chunk > 0
  {
    ScaleStep(i, z.nmax, z.chunk);
  }

  /** Every grant lies inside its pages; a chunk also lies behind its zone's header. */
  ghost predicate Inside(s: Slab, g: Grant)
    requires Live(s, g)
  {
    var (p, n) := Span(s, g);
    && p * PAGE <= Start(s, g) && Start(s, g) + Size(s, g) <= (p + n) * PAGE && Size(s, g) > 0
    && (g.Chunk? ==> g.zone * PAGE + ZONE_HEADER <= Start(s, g))
  }

  lemma ChunkSpan(s: Slab, b: nat, i: nat, offset: nat)
    requires SizeOk(s) && Live(s, Chunk(b, i)) && offset == i * s.zones[b].chunk
    requires ZONE_HEADER <= s.zones[b].off && s.zones[b].off + offset + s.zones[b].chunk <= s.zoneSize && s.zones[b].chunk > 0
    ensures Inside(s, Chunk(b, i))
  {
    ZonePagesPositive(s);
    hide ZonePages, SizeOk;
    assert Start(s, Chunk(b, i)) == b * PAGE + s.zones[b].off + offset;
    hide Start;
  }

  lemma InSpan(s: Slab, g: Grant)
    requires Inv(s) && Live(s, g)
    ensures Inside(s, g)
  {
    match g
    case Pages(p) => hide ZonesOk, ListsOk, UsageOk, PagesOk, SpareOk;
    case Chunk(b, i) =>
      assert ZoneOk(s.zoneSize, s.zones[b]);
      hide ZoneOk, ListsOk, UsageOk, PagesOk, SpareOk, LargeOk, Inside;
      ChunkInside(s.zoneSize, s.zones[b], i);
      ChunkSpan(s, b, i, i * s.zones[b].chunk);
  }

  /** Every grant starts at a multiple of eight. */
  lemma GrantsAligned(s: Slab, g: Grant)
    requires Inv(s) && Live(s, g)
    ensures Start(s, g) % 8 == 0
  {
    match g
    case Pages(p) =>
      hide Inv;
      EightfoldSum(p, 0, 0, 0);
    case Chunk(b, i) =>
      ZoneChunkEightfold(s, b);
      hide Inv;
      EightfoldSum(b, s.zones[b].off, i, s.zones[b].chunk);
  }

  /** Adding multiples of `c` leaves the remainder alone. */
  lemma SameRemainder(x: nat, k: nat, c: nat)
    requires c > 0
    ensures (x + k * c) % c == x % c
  {
    var q, r := x / c, x % c;
    assert x == q * c + r && x + k * c == (q + k) * c + r;
    Remainder((q + k) * c + r, q + k, r, c);
  }

  lemma Remainder(x: nat, q: nat, r: nat, c: nat)
    requires x == q * c + r && r < c
    ensures x % c == r
  {
    var p, t := x / c, x % c;
    assert x == p * c + t;
    if p < q {
      ScaleStep(p, q, c);
    } else if q < p {
      ScaleStep(q, p, c);
    }
  }

  /** On a heap that starts at a page, a chunk with a power of two for its size starts at a multiple of it if
      and only if the chunk is no larger than a page or its zone starts at such a multiple. */
  lemma PowerAligned(s: Slab, b: nat, i: nat, heapStart: nat)
    requires Inv(s) && Live(s, Chunk(b, i)) && PowerOfTwo(s.zones[b].chunk) && heapStart % PAGE == 0
    ensures var c := s.zones[b].chunk;
      (heapStart + Start(s, Chunk(b, i))) % c == 0 <==> c <= PAGE || (heapStart + b * PAGE) % c == 0
  {
    var z, x := s.zones[b], heapStart + b * PAGE;
    assert ZoneOk(s.zoneSize, z) && OffAligned(z);
    hide Inv, ZoneOk, OffAligned, PowerOfTwo;
    Shifted(x, z.off, i, z.chunk);
    if z.chunk <= PAGE {
      PageSum(heapStart, b);
      PageMultiple(x, z.chunk);
    }
  }

  lemma PageSum(a: nat, b: nat)
    requires a % PAGE == 0
    ensures (a + b * PAGE) % PAGE == 0
  {
  }

  lemma Shifted(x: nat, off: nat, i: nat, c: nat)
    requires c > 0 && off % c == 0
    ensures (x + off + i * c) % c == x % c
  {
    var k := off / c;
    assert off == k * c;
    assert off + i * c == (k + i) * c;
    SameRemainder(x, k + i, c);
  }

  lemma PageMultiple(x: nat, c: nat)
    requires x % PAGE == 0 && PowerOfTwo(c) && c <= PAGE
    ensures x % c == 0
  {
    var k, m := x / PAGE, PAGE / c;
    assert PAGE == m * c;
    assert x == (k * m) * c;
    Multiple(k * m, c);
  }

  /** A first request of 8191 bytes on a heap of 1024 pages gets a chunk of 8192 bytes at 12288. */
  lemma LargeChunkMisaligned(usage: seq<Usage>)
    requires |usage| == 1024
    ensures Inv(Init(usage)) && PowerOfTwo(ZoneIndex(8191).chunk)
    ensures var (s, g) := Malloc(Init(usage), 8191);
      g == Some(Chunk(1, 0)) && Live(s, Chunk(1, 0)) && Start(s, Chunk(1, 0)) % s.zones[1].chunk == 4096 && s.zones[1].chunk == 8192
  {
    InitInv(usage);
    var s := Init(usage);
    assert s.pages == [PagesSpec.Run(1, 1023)] by {
      assert PageFree([], 0, 1024) == [PagesSpec.Run(0, 1024)];
    }
    assert s.zoneSize == 0x8000 && ZonePages(s) == 8;
    assert ZoneIndex(8191).chunk == 8192;
    hide Inv;
    assert PageAlloc(s.pages, 8).1 == Some(1);
  }

  lemma ZoneChunkEightfold(s: Slab, b: nat)
    requires Inv(s) && b in s.zones
    ensures s.zones[b].off % 8 == 0 && s.zones[b].chunk % 8 == 0
  {
    assert ZoneOk(s.zoneSize, s.zones[b]);
    hide Inv;
    ZoneEightfold(s.zoneSize, s.zones[b]);
  }

  lemma ZoneEightfold(zoneSize: nat, z: Zone)
    requires ZoneOk(zoneSize, z)
    ensures z.off % 8 == 0 && z.chunk % 8 == 0
  {
    hide ChunkOf;
    ChunkEightfold(z.index);
  }

  lemma EightfoldSum(b: nat, off: nat, i: nat, chunk: nat)
    requires off % 8 == 0 && chunk % 8 == 0
    ensures (b * PAGE + off + i * chunk) % 8 == 0
  {
    var m := chunk / 8;
    var x := i * m;
    assert i * chunk == 8 * x;
  }

  /** Different grants never overlap. */
  lemma LiveApart(s: Slab, g: Grant, h: Grant)
    requires Inv(s) && Live(s, g) && Live(s, h) && g != h
    ensures Start(s, g) + Size(s, g) <= Start(s, h) || Start(s, h) + Size(s, h) <= Start(s, g)
  {
    if g.Chunk? && h.Chunk? && g.zone == h.zone {
      var c := s.zones[g.zone].chunk;
      if g.index < h.index {
        ScaleStep(g.index, h.index, c);
      } else {
        ScaleStep(h.index, g.index, c);
      }
    } else {
      InSpan(s, g);
      InSpan(s, h);
      if g.Chunk? && h.Chunk? {
        ZonesApart(s, g.zone, h.zone);
      } else if g.Chunk? {
        assert Zoned(s, g.zone);
      } else if h.Chunk? {
        assert Zoned(s, h.zone);
      }
      hide Inv, Start, Size;
    }
  }

  /** How rt_free reads an address: the page's entry in memusage leads to the zone. */
  function Owner(s: Slab, addr: nat): Option<Grant> {
    var p := addr / PAGE;
    if p >= |s.usage| then None else
    match s.usage[p]
    case Unused => None
    case Large(_) => Some(Pages(p))
    case Small(k) =>
      if k <= p && p - k in s.zones && s.zones[p-k].chunk > 0 && (p - k) * PAGE + s.zones[p-k].off <= addr
      then Some(Chunk(p - k, (addr - (p - k) * PAGE - s.zones[p-k].off) / s.zones[p-k].chunk)) else None
  }

  lemma PageOf(addr: nat, b: nat, n: nat)
    requires b * PAGE <= addr < (b + n) * PAGE
    ensures b <= addr / PAGE < b + n
  {
  }

  lemma IndexOf(i: nat, c: nat)
    requires c > 0
    ensures i * c / c == i
  {
    var q := i * c / c;
    assert i * c == q * c + i * c % c;
    if q < i {
      ScaleStep(q, i, c);
    } else if i < q {
      ScaleStep(i, q, c);
    }
  }

  /** rt_free finds the grant that an address belongs to. */
  lemma OwnerFound(s: Slab, g: Grant)
    requires Inv(s) && Live(s, g)
    ensures Owner(s, Start(s, g)) == Some(g)
    ensures g.Pages? ==> Start(s, g) % PAGE == 0
  {
    if g.Chunk? {
      ChunkOwner(s, g.zone, g.index);
    } else {
      InSpan(s, g);
    }
  }

  lemma ChunkOwner(s: Slab, b: nat, i: nat)
    requires Inv(s) && Live(s, Chunk(b, i))
    ensures Owner(s, Start(s, Chunk(b, i))) == Some(Chunk(b, i))
  {
    var z, addr := s.zones[b], Start(s, Chunk(b, i));
    InSpan(s, Chunk(b, i));
    assert ZoneOk(s.zoneSize, z) && Zoned(s, b) && Tagged(s, b);
    hide Inv, Zoned, Start, ZoneOk;
    PageOf(addr, b, ZonePages(s));
    assert s.usage[addr / PAGE] == Small(addr / PAGE - b);
    hide Tagged, ZonePages, Owner;
    TagLeads(s, b, i, addr);
  }

  /** The tag of a page of zone `b` leads to the chunk. */
  lemma TagLeads(s: Slab, b: nat, i: nat, addr: nat)
    requires b in s.zones && s.zones[b].chunk > 0 && addr == b * PAGE + s.zones[b].off + i * s.zones[b].chunk
    requires b <= addr / PAGE < |s.usage| && s.usage[addr / PAGE] == Small(addr / PAGE - b)
    ensures Owner(s, addr) == Some(Chunk(b, i))
  {
    var p, offset := addr / PAGE, addr - b * PAGE - s.zones[b].off;
    assert p - (p - b) == b;
    IndexOf(i, s.zones[b].chunk);
    assert offset == i * s.zones[b].chunk;
  }

  // ---- start and runs ----

  /** The zone size for a heap of `limsize` bytes. */
  function ZoneSizeFor(limsize: nat): nat {
    if 0x1_0000 >= limsize / 1024 then 0x8000 else if 0x2_0000 >= limsize / 1024 then 0x1_0000 else 0x2_0000
  }

  /** rt_system_heap_init: all pages free but those of memusage, whose entries are not initialised. */
  function Init(usage: seq<Usage>): Slab {
    var n := |usage|;
    var list := PageFree([], 0, n);
    Slab(ZoneSizeFor(n * PAGE), PageAlloc(list, (4 * n + PAGE - 1) / PAGE).0, map[], seq(NZONES, i => []), [], usage, map[])
  }

  lemma InitInv(usage: seq<Usage>)
    requires usage != []
    ensures Inv(Init(usage))
  {
    var n := |usage|;
    FreePages([], 0, n);
    var list := PageFree([], 0, n);
    AllocPages(list, (4 * n + PAGE - 1) / PAGE);
  }

  datatype Op = DoMalloc(size: nat) | DoFree(g: Grant)

  function Step(s: Slab, op: Op): Slab
    requires Inv(s)
  {
    match op
    case DoMalloc(size) => if size < WORD then Malloc(s, size).0 else s
    case DoFree(g) => if Live(s, g) then Free(s, g) else s
  }

  lemma StepInv(s: Slab, op: Op)
    requires Inv(s)
    ensures Inv(Step(s, op))
  {
    match op
    case DoMalloc(size) => if size < WORD { MallocKeeps(s, size); }
    case DoFree(g) => if Live(s, g) { FreeKeeps(s, g); }
  }

  function Run(s: Slab, ops: seq<Op>): (r: Slab)
    requires Inv(s)
    ensures Inv(r)
    decreases |ops|
  {
    if ops == [] then s else
    StepInv(s, ops[0]);
    Run(Step(s, ops[0]), ops[1..])
  }

  /** Over every run: chunks in use and free chunks account for every zone, zone_array lists the
      zones with free chunks, at most two free zones are kept, and no two grants overlap. */
  lemma RunSound(usage: seq<Usage>, ops: seq<Op>, g: Grant, h: Grant)
    requires usage != []
    ensures Inv(Init(usage))
    ensures var s := Run(Init(usage), ops);
      && |s.spare| <= ZONE_RELEASE_THRESH
      && (forall b :: b in s.zones ==> ZoneOk(s.zoneSize, s.zones[b])) && ListsOk(s)
      && (Live(s, g) && Live(s, h) && g != h ==> Start(s, g) + Size(s, g) <= Start(s, h) || Start(s, h) + Size(s, h) <= Start(s, g))
  {
    InitInv(usage);
    var s := Run(Init(usage), ops);
    if Live(s, g) && Live(s, h) && g != h {
      LiveApart(s, g, h);
    }
  }
}

/** slab.c: the chunk allocator over the page list.  Addresses count from heap_start. */
module SlabHeap {
  import opened Lists
  import opened Pages
  import opened PagesSpec
  import opened RtDef
  import opened SlabSpec
  import opened ZoneSizes
  import C = Chains
  import LT = LinkTable
  import ZT = ZoneTable

  /** The zone size doubles while it is small for the heap. */
  method ChooseZoneSize(limsize: nat) returns (zone: nat)
    ensures zone == ZoneSizeFor(limsize)
  {
    zone := 0x8000;
    while zone < 0x2_0000 && zone * 2 < limsize / 1024
      invariant zone == 0x8000 || (zone == 0x1_0000 && 0x1_0000 < limsize / 1024) || (zone == 0x2_0000 && 0x2_0000 < limsize / 1024)
      decreases 0x2_0000 - zone
    {
      zone := zone * 2;
    }
  }

  /** rt_page_init, and the pages of memusage taken from the list. */
  method InitPages(npages: nat) returns (list: RtPageList)
    requires npages > 0
    ensures list.Valid() && list.next.Length == npages && fresh(list) && fresh(list.next) && fresh(list.page)
    ensures list.runs == PagesSpec.PageAlloc(PagesSpec.PageFree([], 0, npages), (4 * npages + PAGE - 1) / PAGE).0
  {
    hide Canonical, Threaded, PagesSpec.PageFree, PagesSpec.PageAlloc;
    list := new RtPageList(npages);
    list.PageFree(0, npages);
    var usagePages := list.PageAlloc((4 * npages + PAGE - 1) / PAGE);
  }

  /** The page list, empty zone lists and no zones. */
  method InitTables(npages: nat) returns (list: RtPageList, lists: LT.RtLinkTable, zones: ZT.RtZoneTable)
    requires npages > 0
    ensures list.Valid() && list.next.Length == npages && fresh(list) && fresh(list.next) && fresh(list.page)
    ensures list.runs == PagesSpec.PageAlloc(PagesSpec.PageFree([], 0, npages), (4 * npages + PAGE - 1) / PAGE).0
    ensures lists.Valid() && lists.lists == seq(NZONES + 1, _ => []) && lists.heads.Length == NZONES + 1 && lists.next.Length == npages
    ensures zones.Valid() && zones.zones == map[] && zones.link.Length == npages * PAGE
    ensures fresh(lists) && fresh(lists.heads) && fresh(lists.next) && fresh(zones) && fresh(zones.link)
    ensures list.next != lists.heads && list.next != lists.next && list.next != zones.link
    ensures zones.link != lists.heads && zones.link != lists.next
  {
    hide PagesSpec.PageFree, PagesSpec.PageAlloc, Canonical, Threaded, LT.Threaded, ZT.Says;
    list := InitPages(npages);
    lists := new LT.RtLinkTable(NZONES + 1, npages);
    zones := new ZT.RtZoneTable(npages * PAGE);
  }

  /** zone_array, and zone_free behind it. */
  ghost function Classes(lists: seq<seq<nat>>): seq<seq<nat>> {
    if |lists| == NZONES + 1 then lists[..NZONES] else []
  }

  ghost function Spares(lists: seq<seq<nat>>): seq<nat> {
    if |lists| == NZONES + 1 then lists[NZONES] else []
  }

  lemma ListSet(lists: seq<seq<nat>>, i: nat, q: seq<nat>)
    requires |lists| == NZONES + 1 && i <= NZONES
    ensures Classes(lists[i := q]) == if i < NZONES then Classes(lists)[i := q] else Classes(lists)
    ensures Spares(lists[i := q]) == if i < NZONES then Spares(lists) else q
  {
  }

  lemma NoLists(lists: seq<seq<nat>>)
    requires lists == seq(NZONES + 1, _ => [])
    ensures Classes(lists) == seq(NZONES, i => []) && Spares(lists) == []
  {
  }

  class RtSlab {
    const zoneSize: nat
    const pageList: RtPageList
    const memusage: array<Usage>
    const zoneLists: LT.RtLinkTable
    const zones: ZT.RtZoneTable
    var zoneFreeCnt: nat
    ghost var large: map<nat, nat>

    ghost function State(): Slab
      reads this, pageList, memusage, zoneLists, zones
    {
      Slab(zoneSize, pageList.runs, zones.zones, Classes(zoneLists.lists), Spares(zoneLists.lists), memusage[..], large)
    }

    ghost predicate Valid()
      reads this, pageList, pageList.next, pageList.page, memusage, zoneLists, zoneLists.heads, zoneLists.next, zones, zones.link
    {
      Inv(State()) && Rest() && Tables() && zoneFreeCnt == |Spares(zoneLists.lists)|
    }

    ghost predicate Rest()
      reads pageList, pageList.next, pageList.page
    {
      pageList.Valid() && memusage.Length == pageList.next.Length
    }

    ghost predicate Tables()
      reads zoneLists, zoneLists.heads, zoneLists.next, zones, zones.link
    {
      && zoneLists.Valid() && zones.Valid()
      && |zoneLists.lists| == zoneLists.heads.Length == NZONES + 1
      && zoneLists.next.Length == memusage.Length && zones.link.Length == memusage.Length * PAGE
      && pageList.next != zoneLists.heads && pageList.next != zoneLists.next && pageList.next != zones.link
      && zones.link != zoneLists.heads && zones.link != zoneLists.next
    }

    ghost function Repr(): set<object> {
      {pageList, pageList.next, pageList.page, memusage, zoneLists, zoneLists.heads, zoneLists.next, zones, zones.link}
    }

    /** rt_system_heap_init over `npages` pages. */
    constructor (npages: nat)
      requires npages > 0
      ensures Valid() && State() == Init(memusage[..]) && memusage.Length == npages
      ensures fresh(Repr())
    {
      hide Inv, PagesSpec.PageFree, PagesSpec.PageAlloc, Canonical, Threaded, ZoneSizeFor, LT.Threaded, ZT.Says;
      var size := ChooseZoneSize(npages * PAGE);
      var list, lists, table := InitTables(npages);
      zoneSize, pageList, zoneLists, zones := size, list, lists, table;
      memusage := new Usage[npages];
      zoneFreeCnt, large := 0, map[];
      new;
      NoLists(zoneLists.lists);
      InitIs(State());
    }

    /** Tags the pages of a zone with their place in it, or as unused. */
    method SetUsage(b: nat, n: nat, small: bool)
      requires b + n <= memusage.Length
      modifies memusage
      ensures memusage[..] == TagPages(old(memusage[..]), b, n, small)
    {
      ghost var was := memusage[..];
      var off := 0;
      while off < n
        invariant off <= n && memusage[..] == TagPages(was, b, off, small)
      {
        memusage[b + off] := if small then Small(off) else Unused;
        off := off + 1;
      }
    }

    /** The part of rt_malloc for whole pages. */
    method MallocLarge(size: nat) returns (ptr: Option<nat>)
      requires Valid() && size < WORD
      modifies this, pageList, pageList.next, pageList.page, memusage
      ensures Valid()
      ensures var (s', g) := SlabSpec.MallocLarge(old(State()), size); State() == s' && (ptr.None? <==> g.None?) && (g.Some? ==> ptr == Some(g.value.page * PAGE))
    {
      hide Inv, Granted, PagesFor, LT.Threaded, ZT.Says, Threaded;
      ghost var s := State();
      MallocLargeKeeps(s, size);
      LargeFits(s, PagesFor(size));
      var chunk := pageList.PageAlloc(PagesFor(size));
      match chunk
      case None => ptr := None;
      case Some(p) =>
        memusage[p] := Large(PagesFor(size));
        large := large[p := PagesFor(size)];
        ptr := Some(p * PAGE);
    }

    /** The first zone of a list gives a chunk, and leaves the list with its last one. */
    method TakeChunk(b: nat) returns (ptr: nat)
      requires Tables() && b in zones.zones && zones.zones[b].index < NZONES && zones.zones[b].nfree > 0
      requires zoneLists.lists[zones.zones[b].index] != [] && zoneLists.lists[zones.zones[b].index][0] == b
      requires zones.zones[b].uindex + 1 == zones.zones[b].nmax ==> zones.zones[b].free != []
      modifies zoneLists, zoneLists.heads, zones
      ensures Tables() && Spares(zoneLists.lists) == old(Spares(zoneLists.lists))
      ensures var (s', g) := SlabSpec.TakeChunk(old(State()), b);
        State() == s' && g.Some? && ptr == ZT.ChunkAddr(b, old(zones.zones)[b].off, old(zones.zones)[b].chunk, g.value.index)
    {
      hide LT.Threaded, ZT.Says, ZT.ChunkAddr, Classes, Spares;
      TableParts();
      var z := zones.headers[b];
      ghost var lists := zoneLists.lists;
      if z.nfree == 1 {
        var x := zoneLists.Pop(z.index);
        assert zoneLists.lists[z.index] == lists[z.index][1..];
        ListSet(lists, z.index, lists[z.index][1..]);
      }
      ptr := zones.Give(b);
    }

    /** What the link words and headers give. */
    lemma TableParts()
      requires Tables()
      ensures Classes(zoneLists.lists) == zoneLists.lists[..NZONES] && |Classes(zoneLists.lists)| == NZONES
      ensures Spares(zoneLists.lists) == zoneLists.lists[NZONES]
      ensures zones.headers.Keys == zones.zones.Keys
      ensures forall b :: b in zones.zones && b in zones.headers ==>
        var h, z := zones.headers[b], zones.zones[b];
        h.index == z.index && h.chunk == z.chunk && h.off == z.off && h.nmax == z.nmax && h.nfree == z.nfree && h.uindex == z.uindex
    {
      assert forall b :: b in zones.zones ==> ZT.Says(zones.headers[b], b, zones.zones[b], zones.link[..]);
    }

    /** Sets a zone up for chunks of class `c`, and gives its first chunk. */
    method OpenZone(b: nat, c: Class) returns (ptr: nat)
      requires Tables() && c.chunk > 0 && 0 <= c.index < NZONES && b < memusage.Length && LT.Unlisted(zoneLists.lists, b)
      modifies zoneLists, zoneLists.heads, zoneLists.next, zones
      ensures Tables() && Spares(zoneLists.lists) == old(Spares(zoneLists.lists))
      ensures |old(State()).lists| == NZONES && State() == SlabSpec.OpenZone(old(State()), b, c).0
      ensures ptr == b * PAGE + NewZone(zoneSize, c).off
    {
      hide NewZone, LT.Threaded, ZT.Says, Classes, Spares;
      TableParts();
      NewZoneIndex(zoneSize, c);
      var z := NewZone(zoneSize, c);
      zones.Open(b, z);
      ghost var lists := zoneLists.lists;
      zoneLists.Push(c.index, b);
      ListSet(lists, c.index, [b] + lists[c.index]);
      ptr := b * PAGE + z.off;
    }

    /** Pages for a new zone, tagged with their place in it. */
    method FreshZone() returns (z: Option<nat>)
      requires Inv(State()) && Rest() && Tables()
      modifies pageList, pageList.next, pageList.page, memusage
      ensures Rest() && Tables()
      ensures var s := old(State());
        var (pages, r) := PagesSpec.PageAlloc(s.pages, ZonePages(s));
        z == r && State() == if r.None? then s else s.(pages := pages, usage := TagPages(s.usage, r.value, ZonePages(s), true))
    {
      hide Inv, LT.Threaded, ZT.Says, Threaded;
      ghost var s := State();
      LargeFits(s, ZonePages(s));
      z := pageList.PageAlloc(zoneSize / PAGE);
      if z.Some? {
        SetUsage(z.value, zoneSize / PAGE, true);
      }
    }

    /** The part of rt_malloc for chunks. */
    method MallocSmall(size: nat) returns (ptr: Option<nat>)
      requires Valid() && 0 < size < Limit(State())
      modifies this, pageList, pageList.next, pageList.page, memusage, zoneLists, zoneLists.heads, zoneLists.next, zones
      ensures Valid() && 0 <= ZoneIndex(size).index < NZONES && ZoneIndex(size).chunk > 0
      ensures var (s', g) := SlabSpec.MallocSmall(old(State()), ZoneIndex(size)); State() == s' && Granting(s', g, ptr)
    {
      hide Inv, ZoneIndex, NewZone, Granted, SlabSpec.TakeChunk, SlabSpec.OpenZone, ZonePages, Limit, Rest;
      hide LT.Threaded, LT.Unlisted, ZT.Says, Classes, Spares;
      SmallestPositive(State(), size);
      var c := ZoneIndex(size);
      var zi: nat := c.index;
      ghost var s := State();
      MallocSmallKeeps(s, size);
      TableParts();
      var none := zoneLists.IsEmpty(zi);
      var noSpare := zoneLists.IsEmpty(NZONES);
      if !none {
        FirstOfList(s, zi);
        var b := zoneLists.First(zi);
        var p := TakeChunk(b);
        TakeStart(s, b, p);
        ptr := Some(p);
      } else if !noSpare {
        SpareUnlisted(s, zoneLists.lists);
        var b := PopSpare();
        OpenStart(State(), b, c);
        var p := OpenZone(b, c);
        ptr := Some(p);
      } else {
        ptr := None;
        var z := FreshZone();
        if z.Some? {
          FreshUnlisted(s, z.value, zoneLists.lists);
          OpenStart(State(), z.value, c);
          var p := OpenZone(z.value, c);
          ptr := Some(p);
        }
      }
    }

    /** Takes the newest zone off zone_free. */
    method PopSpare() returns (b: nat)
      requires Tables() && Spares(zoneLists.lists) != [] && zoneFreeCnt == |Spares(zoneLists.lists)|
      modifies this`zoneFreeCnt, zoneLists, zoneLists.heads
      ensures Tables() && zoneFreeCnt == |Spares(zoneLists.lists)|
      ensures var s := old(State()); s.spare != [] && b == s.spare[0] && State() == s.(spare := s.spare[1..])
      ensures |old(zoneLists.lists)| == NZONES + 1 && zoneLists.lists == old(zoneLists.lists)[NZONES := old(zoneLists.lists)[NZONES][1..]]
    {
      hide LT.Threaded, ZT.Says, Classes, Spares;
      TableParts();
      ghost var lists := zoneLists.lists;
      b := zoneLists.Pop(NZONES);
      assert zoneLists.lists[NZONES] == lists[NZONES][1..];
      ListSet(lists, NZONES, lists[NZONES][1..]);
      zoneFreeCnt := zoneFreeCnt - 1;
    }

    method RtMalloc(size: nat) returns (ptr: Option<nat>)
      requires Valid() && size < WORD
      modifies this, pageList, pageList.next, pageList.page, memusage, zoneLists, zoneLists.heads, zoneLists.next, zones
      ensures Valid()
      ensures var (s', g) := Malloc(old(State()), size); State() == s' && Granting(s', g, ptr)
    {
      hide Inv, ZoneIndex, SlabSpec.MallocSmall, SlabSpec.MallocLarge, Granting, LT.Threaded, ZT.Says, Threaded;
      ptr := None;
      if size == 0 {
        NothingGranted(State());
      } else if size >= ZoneLimit(zoneSize) {
        ghost var s := State();
        ptr := MallocLarge(size);
        LargeStart(s, size, ptr);
      } else {
        ptr := MallocSmall(size);
      }
    }

    // ---- rt_free ----

    /** The chunk at `ptr` goes back to its zone, which joins its list again if it had left it. */
    method PutChunk(b: nat, ghost i: nat, ptr: nat)
      requires Tables() && b in zones.zones && zones.zones[b].index < NZONES && b < memusage.Length
      requires ptr == ZT.ChunkAddr(b, zones.zones[b].off, zones.zones[b].chunk, i)
      requires ptr < zones.link.Length && ZT.Untouched(zones.zones, ptr)
      requires zones.zones[b].nfree == 0 ==> LT.Unlisted(zoneLists.lists, b)
      modifies zoneLists, zoneLists.heads, zoneLists.next, zones, zones.link
      ensures Tables() && Spares(zoneLists.lists) == old(Spares(zoneLists.lists))
      ensures |old(State()).lists| == NZONES && State() == SlabSpec.PutChunk(old(State()), b, i)
    {
      hide LT.Threaded, LT.Unlisted, ZT.Says, ZT.ChunkAddr, ZT.Untouched, Classes, Spares;
      TableParts();
      var z := zones.headers[b];
      zones.Put(b, i, ptr);
      ghost var lists := zoneLists.lists;
      if z.nfree == 0 {
        zoneLists.Push(z.index, b);
        ListSet(lists, z.index, [b] + lists[z.index]);
      }
    }

    /** Sets a zone without live chunks aside. */
    method Retire(b: nat)
      requires Tables() && b in zones.zones && zones.zones[b].index < NZONES && b < memusage.Length
      requires b in zoneLists.lists[zones.zones[b].index]
      modifies this`zoneFreeCnt, zoneLists, zoneLists.heads, zoneLists.next, zones
      ensures Tables() && zoneFreeCnt == old(zoneFreeCnt) + 1
      ensures |old(State()).lists| == NZONES && State() == SlabSpec.Retire(old(State()), b)
    {
      hide LT.Threaded, ZT.Says, Classes, Spares, Without;
      TableParts();
      var i := zones.headers[b].index;
      ghost var lists := zoneLists.lists;
      RemovedUnlisted(zoneLists.heads[..], zoneLists.next[..], lists, i, b);
      zoneLists.Remove(i, b);
      ListSet(lists, i, Without(lists[i], b));
      ghost var less := zoneLists.lists;
      zoneLists.Push(NZONES, b);
      ListSet(less, NZONES, [b] + less[NZONES]);
      zones.Drop(b);
      zoneFreeCnt := zoneFreeCnt + 1;
    }

    /** Gives the newest spare zone back when there are too many. */
    method Trim()
      requires Sound(State()) && Rest() && Tables() && zoneFreeCnt == |Spares(zoneLists.lists)|
      modifies this`zoneFreeCnt, zoneLists, zoneLists.heads, pageList, pageList.next, pageList.page, memusage
      ensures Rest() && Tables() && zoneFreeCnt == |Spares(zoneLists.lists)|
      ensures State() == SlabSpec.Trim(old(State()))
    {
      hide Sound, LT.Threaded, ZT.Says, Threaded;
      if zoneFreeCnt > ZONE_RELEASE_THRESH {
        SpareTagged(State());
        var z := PopSpare();
        SetUsage(z, zoneSize / PAGE, false);
        pageList.PageFree(z, zoneSize / PAGE);
      }
    }

    /** rt_free of NULL, or of a live grant. */
    method RtFree(ptr: Option<nat>, ghost g: Grant)
      requires Valid() && (ptr.Some? ==> Live(State(), g) && ptr.value == Start(State(), g))
      modifies this, pageList, pageList.next, pageList.page, memusage, zoneLists, zoneLists.heads, zoneLists.next, zones, zones.link
      ensures Valid() && State() == if ptr.None? then old(State()) else Free(old(State()), g)
    {
      hide Inv, Start, LT.Threaded, ZT.Says, Threaded;
      if ptr.Some? {
        Release(ptr.value, g);
      }
    }

    /** rt_free past its NULL check: the grant is found again from its address. */
    method Release(ptr: nat, ghost g: Grant)
      requires Valid() && Live(State(), g) && ptr == Start(State(), g)
      modifies this, pageList, pageList.next, pageList.page, memusage, zoneLists, zoneLists.heads, zoneLists.next, zones, zones.link
      ensures Valid() && State() == Free(old(State()), g)
    {
      hide Inv, Start, Returned, LT.Threaded, ZT.Says, Threaded;
      ghost var s := State();
      FreeKeeps(s, g);
      OwnerFound(s, g);
      var p := ptr / PAGE;
      match memusage[p] {
        case Large(size) =>
          LargeTagged(s, p);
          memusage[p] := Large(0);
          large := large - {p};
          pageList.PageFree(p, size);
        case Small(k) =>
          FreeChunk(p - k, g.index, ptr);
        case Unused =>
      }
    }

    method FreeChunk(b: nat, ghost i: nat, ptr: nat)
      requires Valid() && Live(State(), Chunk(b, i)) && ptr == Start(State(), Chunk(b, i))
      modifies this, pageList, pageList.next, pageList.page, memusage, zoneLists, zoneLists.heads, zoneLists.next, zones, zones.link
      ensures Valid() && State() == Free(old(State()), Chunk(b, i))
    {
      hide Inv, Sound, Returned, Rest, SlabSpec.PutChunk, SlabSpec.Retire, SlabSpec.Trim, SameHoldings;
      hide LT.Threaded, LT.Unlisted, ZT.Says, ZT.Untouched, Classes, Spares;
      ghost var s := State();
      FreeKeeps(s, Chunk(b, i));
      ZoneChunk(s, b);
      TableParts();
      PutChunkKeeps(s, b, i);
      FreeSpot(s, b, i);
      FullUnlisted(s, b, zoneLists.lists);
      PutChunk(b, i, ptr);
      ghost var s1 := State();
      SpareSame(s, b, i);
      TableParts();
      var z := zones.headers[b];
      var other := zoneLists.HasOther(z.index, b);
      if z.nfree == z.nmax && other {
        RetireKeeps(s1, b);
        Retire(b);
        Trim();
      }
    }
  }

  /** Only the zones with free chunks are in a list of zone_array, and only the others' pages in zone_free. */
  lemma ListedZones(s: Slab, lists: seq<seq<nat>>, b: nat)
    requires Inv(s) && |lists| == NZONES + 1 && lists[..NZONES] == s.lists && lists[NZONES] == s.spare
    ensures LT.Unlisted(lists, b) <==> b !in s.spare && (b in s.zones ==> s.zones[b].nfree == 0)
  {
    if b in s.zones {
      assert ZoneOk(s.zoneSize, s.zones[b]);
      hide ZoneOk;
      var i := s.zones[b].index;
      assert s.lists[i] == lists[i];
    }
    forall j | 0 <= j < |lists| && b in lists[j]
      ensures b in s.spare || (b in s.zones && s.zones[b].nfree > 0)
    {
      assert j < NZONES ==> lists[j] == s.lists[j];
    }
  }

  lemma FullUnlisted(s: Slab, b: nat, lists: seq<seq<nat>>)
    requires Inv(s) && b in s.zones && |lists| == NZONES + 1 && lists[..NZONES] == s.lists && lists[NZONES] == s.spare
    ensures s.zones[b].nfree == 0 ==> LT.Unlisted(lists, b)
    ensures b < |s.usage|
  {
    ListedZones(s, lists, b);
    assert Zoned(s, b) && Tagged(s, b);
    ZonePagesPositive(s);
  }

  lemma SpareUnlisted(s: Slab, lists: seq<seq<nat>>)
    requires Inv(s) && s.spare != [] && |lists| == NZONES + 1 && lists[..NZONES] == s.lists && lists[NZONES] == s.spare
    ensures LT.Unlisted(lists[NZONES := lists[NZONES][1..]], s.spare[0]) && s.spare[0] < |s.usage|
  {
    var b := s.spare[0];
    assert b in s.spare && Zoned(s, b) && Tagged(s, b);
    ZonePagesPositive(s);
    TailDistinct(s.spare);
    forall j | 0 <= j < NZONES
      ensures b !in lists[j]
    {
      assert lists[j] == s.lists[j];
    }
  }

  lemma FreshUnlisted(s: Slab, b: nat, lists: seq<seq<nat>>)
    requires Inv(s) && PagesSpec.PageAlloc(s.pages, ZonePages(s)).1 == Some(b)
    requires |lists| == NZONES + 1 && lists[..NZONES] == s.lists && lists[NZONES] == s.spare
    ensures LT.Unlisted(lists, b) && b < |s.usage|
  {
    LargeFits(s, ZonePages(s));
    AllocPages(s.pages, ZonePages(s));
    FreeApart(s, b, ZonePages(s));
    ZonePagesPositive(s);
    assert !Zoned(s, b);
    ListedZones(s, lists, b);
  }

  /** Once a node is out of the one list it was in, it is in none. */
  lemma RemovedUnlisted(heads: seq<C.Word>, next: seq<C.Word>, lists: seq<seq<nat>>, i: nat, b: nat)
    requires LT.Threaded(heads, next, lists) && i < |lists| && b in lists[i]
    ensures LT.Unlisted(lists[i := Without(lists[i], b)], b)
  {
    assert LT.OnlyIn(lists, b, i);
    WithoutMembers(lists[i], b);
  }

  /** A live chunk is in no list of free chunks, and lies inside the heap. */
  lemma FreeSpot(s: Slab, b: nat, i: nat)
    requires Inv(s) && Live(s, Chunk(b, i))
    ensures Start(s, Chunk(b, i)) == ZT.ChunkAddr(b, s.zones[b].off, s.zones[b].chunk, i) < |s.usage| * PAGE
    ensures ZT.Untouched(s.zones, Start(s, Chunk(b, i)))
  {
    var ptr := Start(s, Chunk(b, i));
    ChunkWithin(s, b, i);
    forall x | x in s.zones
      ensures ptr !in ZT.Addrs(x, s.zones[x])
    {
      SpotApart(s, b, i, x);
    }
  }

  /** A chunk that has been in use lies in the pages of its zone. */
  lemma ChunkWithin(s: Slab, b: nat, i: nat)
    requires Inv(s) && b in s.zones && i <= s.zones[b].uindex
    ensures var z := s.zones[b]; var a := ZT.ChunkAddr(b, z.off, z.chunk, i);
      b * PAGE <= a < (b + ZonePages(s)) * PAGE && b + ZonePages(s) <= |s.usage| && z.chunk > 0
  {
    hide Inv, ZonePages, ZoneOk;
    ZoneParts(s, b);
    ChunkInside(s.zoneSize, s.zones[b], i);
    InPages(b, ZonePages(s), s.zones[b].off, i * s.zones[b].chunk, s.zones[b].chunk);
  }

  lemma ZoneParts(s: Slab, b: nat)
    requires Inv(s) && b in s.zones
    ensures ZoneOk(s.zoneSize, s.zones[b]) && b + ZonePages(s) <= |s.usage| && ZonePages(s) * PAGE == s.zoneSize
  {
    ZonePagesPositive(s);
    assert Zoned(s, b) && Tagged(s, b);
  }

  lemma InPages(b: nat, n: nat, off: nat, offset: nat, chunk: nat)
    requires off + offset + chunk <= n * PAGE && chunk > 0
    ensures b * PAGE <= b * PAGE + off + offset < (b + n) * PAGE
  {
  }

  lemma SpotApart(s: Slab, b: nat, i: nat, x: nat)
    requires Inv(s) && Live(s, Chunk(b, i)) && x in s.zones
    ensures Start(s, Chunk(b, i)) !in ZT.Addrs(x, s.zones[x])
  {
    var z, free := s.zones[x], ZT.Addrs(x, s.zones[x]);
    assert ZoneOk(s.zoneSize, z);
    ChunkWithin(s, b, i);
    if x != b {
      assert Zoned(s, b) && Zoned(s, x);
      ZonesApart(s, b, x);
    }
    hide Inv, ZonePages;
    forall k | 0 <= k < |free|
      ensures free[k] != Start(s, Chunk(b, i))
    {
      var j := z.free[k];
      assert j in z.free;
      if x == b {
        IndexOf(i, z.chunk);
        IndexOf(j, z.chunk);
      } else {
        ChunkWithin(s, x, j);
      }
    }
  }

  /** `ptr` is the address of what is granted, or null. */
  ghost predicate Granting(s: Slab, g: Option<Grant>, ptr: Option<nat>) {
    match g
    case None => ptr == None
    case Some(g) => Live(s, g) && ptr == Some(Start(s, g))
  }

  lemma SpareTagged(s: Slab)
    requires Sound(s) && s.spare != []
    ensures ZonePages(s) == s.zoneSize / PAGE > 0
    ensures s.spare[0] + ZonePages(s) <= |s.usage| && NoneFree(s.pages, s.spare[0], ZonePages(s))
  {
    assert s.spare[0] in s.spare && Zoned(s, s.spare[0]) && Tagged(s, s.spare[0]);
    ZonePagesPositive(s);
  }

  lemma LargeTagged(s: Slab, p: nat)
    requires Inv(s) && Live(s, Pages(p))
    ensures p + s.large[p] <= |s.usage| && s.usage[p] == Large(s.large[p]) && s.large[p] > 0 && NoneFree(s.pages, p, s.large[p])
  {
  }

  lemma SpareSame(s: Slab, b: nat, i: nat)
    requires b in s.zones && s.zones[b].index < |s.lists|
    ensures var s1 := SlabSpec.PutChunk(s, b, i);
      s1.spare == s.spare && b in s1.zones && s1.zones[b].index == s.zones[b].index && |s1.lists| == |s.lists| && s1.zoneSize == s.zoneSize
  {
  }

  lemma NothingGranted(s: Slab)
    ensures Granting(s, None, None)
  {
  }

  lemma LargeStart(s: Slab, size: nat, ptr: Option<nat>)
    requires Inv(s) && size < WORD
    requires var (s', g) := SlabSpec.MallocLarge(s, size); (ptr.None? <==> g.None?) && (g.Some? ==> ptr == Some(g.value.page * PAGE))
    ensures var (s', g) := SlabSpec.MallocLarge(s, size); Granting(s', g, ptr)
  {
    MallocLargeKeeps(s, size);
  }

  lemma SmallestPositive(s: Slab, n: nat)
    requires Inv(s) && 0 < n < Limit(s)
    ensures 0 <= ZoneIndex(n).index < NZONES && ZoneIndex(n).chunk > 0
  {
    SmallestFit(n);
  }

  lemma TakeStart(s: Slab, b: nat, p: nat)
    requires Inv(s) && b in s.zones && s.zones[b].nfree > 0 && s.zones[b].index < |s.lists| && s.lists[s.zones[b].index] != []
    requires s.lists[s.zones[b].index][0] == b
    requires s.zones[b].uindex + 1 == s.zones[b].nmax ==> s.zones[b].free != []
    requires var g := SlabSpec.TakeChunk(s, b).1; g.Some? ==> p == b * PAGE + s.zones[b].off + g.value.index * s.zones[b].chunk
    ensures var (s', g) := SlabSpec.TakeChunk(s, b); Granting(s', g, Some(p))
  {
    TakeChunkGrants(s, b);
  }

  lemma OpenStart(s: Slab, b: nat, c: Class)
    requires c.chunk > 0 && 0 <= c.index < |s.lists|
    ensures var (s', g) := SlabSpec.OpenZone(s, b, c); Granting(s', g, Some(b * PAGE + NewZone(s.zoneSize, c).off))
  {
    NewZoneIndex(s.zoneSize, c);
    hide NewZone;
  }

  /** The start state, field by field. */
  lemma InitIs(s: Slab)
    requires s.usage != [] && s.zoneSize == ZoneSizeFor(|s.usage| * PAGE) && s.zones == map[] && s.spare == [] && s.large == map[]
    requires s.lists == seq(NZONES, i => [])
    requires s.pages == PagesSpec.PageAlloc(PagesSpec.PageFree([], 0, |s.usage|), (4 * |s.usage| + PAGE - 1) / PAGE).0
    ensures s == Init(s.usage) && Inv(s)
  {
    hide Inv, PagesSpec.PageFree, PagesSpec.PageAlloc, ZoneSizeFor;
    InitInv(s.usage);
  }

  lemma LargeFits(s: Slab, n: nat)
    requires Inv(s)
    ensures var r := PagesSpec.PageAlloc(s.pages, n).1; r.Some? ==> r.value + n <= |s.usage| && n > 0
    ensures PagesSpec.PageAlloc(s.pages, n).1.None? ==> PagesSpec.PageAlloc(s.pages, n).0 == s.pages
  {
    AllocPages(s.pages, n);
    var r := PagesSpec.PageAlloc(s.pages, n).1;
    if r.Some? {
      FreeApart(s, r.value, n);
    }
  }
}
