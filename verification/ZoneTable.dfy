/** slab.c: the headers of the zones, and the free chunks of each zone linked through their own memory. */
module ZoneTable {
  import opened Chains
  import opened Lists
  import opened SlabSpec

  /** A slab_zone; `free` is z_freechunk. */
  datatype Header = Header(index: nat, chunk: nat, off: nat, nmax: nat, nfree: nat, uindex: nat, free: Word)

  /** Where chunk `i` of the zone at page `b` starts. */
  function ChunkAddr(b: nat, off: nat, chunk: nat, i: nat): nat {
    b * PAGE + off + i * chunk
  }

  /** The addresses of the free chunks. */
  ghost function Addrs(b: nat, z: Zone): (r: seq<nat>)
    ensures |r| == |z.free|
  {
    seq(|z.free|, k requires 0 <= k < |z.free| => ChunkAddr(b, z.off, z.chunk, z.free[k]))
  }

  /** The header at page `b` says what the zone is, and leads along its free chunks. */
  ghost predicate Says(h: Header, b: nat, z: Zone, link: seq<Word>) {
    && h.index == z.index && h.chunk == z.chunk && h.off == z.off && h.nmax == z.nmax && h.nfree == z.nfree && h.uindex == z.uindex
    && Chain(link, h.free, Addrs(b, z))
  }

  ghost predicate Table(headers: map<nat, Header>, zones: map<nat, Zone>, link: seq<Word>) {
    headers.Keys == zones.Keys && forall b :: b in zones ==> Says(headers[b], b, zones[b], link)
  }

  lemma Updated(headers: map<nat, Header>, zones: map<nat, Zone>, link: seq<Word>, b: nat, h: Header, z: Zone)
    requires Table(headers, zones, link) && Says(h, b, z, link)
    ensures Table(headers[b := h], zones[b := z], link)
  {
    hide Says;
  }

  /** The header once the zone gave a chunk that was never used. */
  lemma SaysNext(h: Header, b: nat, z: Zone, link: seq<Word>)
    requires Says(h, b, z, link) && z.nfree > 0
    ensures Says(h.(nfree := h.nfree - 1, uindex := h.uindex + 1), b, z.(nfree := z.nfree - 1, uindex := z.uindex + 1), link)
  {
    assert Addrs(b, z.(nfree := z.nfree - 1, uindex := z.uindex + 1)) == Addrs(b, z);
  }

  /** The header once the zone gave its first free chunk. */
  lemma SaysRest(h: Header, b: nat, z: Zone, link: seq<Word>)
    requires Says(h, b, z, link) && z.nfree > 0 && z.free != []
    ensures h.free == Next(ChunkAddr(b, z.off, z.chunk, z.free[0])) && h.free.number < |link|
    ensures Says(h.(nfree := h.nfree - 1, free := link[h.free.number]), b, z.(nfree := z.nfree - 1, free := z.free[1..]), link)
  {
    hide ChunkAddr;
    assert Addrs(b, z.(nfree := z.nfree - 1, free := z.free[1..])) == Addrs(b, z)[1..];
  }

  ghost predicate Untouched(zones: map<nat, Zone>, ptr: nat) {
    forall b :: b in zones ==> ptr !in Addrs(b, zones[b])
  }

  class RtZoneTable {
    const link: array<Word>          // c_next, by address
    var headers: map<nat, Header>    // by first page
    ghost var zones: map<nat, Zone>

    ghost predicate Valid()
      reads this, link
    {
      Table(headers, zones, link[..])
    }

    constructor (bytes: nat)
      ensures Valid() && zones == map[] && link.Length == bytes && fresh(link)
    {
      link := new Word[bytes];
      headers, zones := map[], map[];
    }

    /** A zone without free chunks below `uindex` is set up. */
    method Open(b: nat, z: Zone)
      requires Valid() && z.free == []
      modifies this
      ensures Valid() && zones == old(zones)[b := z]
    {
      headers := headers[b := Header(z.index, z.chunk, z.off, z.nmax, z.nfree, z.uindex, End)];
      zones := zones[b := z];
    }

    /** The zone gives a chunk: the next one that was never used, else the first free one. */
    method Give(b: nat) returns (ptr: nat)
      requires Valid() && b in zones && zones[b].nfree > 0 && (zones[b].uindex + 1 == zones[b].nmax ==> zones[b].free != [])
      modifies this
      ensures Valid()
      ensures var z := old(zones[b]);
        if z.uindex + 1 != z.nmax
        then zones == old(zones)[b := z.(nfree := z.nfree - 1, uindex := z.uindex + 1)] && ptr == ChunkAddr(b, z.off, z.chunk, z.uindex + 1)
        else zones == old(zones)[b := z.(nfree := z.nfree - 1, free := z.free[1..])] && ptr == ChunkAddr(b, z.off, z.chunk, z.free[0])
    {
      hide ChunkAddr, Table;
      ghost var z := zones[b];
      HeaderAt(b);
      var h := headers[b];
      if h.uindex + 1 != h.nmax {
        SaysNext(h, b, z, link[..]);
        h := h.(nfree := h.nfree - 1, uindex := h.uindex + 1);
        ptr := ChunkAddr(b, h.off, h.chunk, h.uindex);
        z := z.(nfree := z.nfree - 1, uindex := z.uindex + 1);
      } else {
        SaysRest(h, b, z, link[..]);
        ptr := h.free.number;
        h := h.(nfree := h.nfree - 1, free := link[ptr]);
        z := z.(nfree := z.nfree - 1, free := z.free[1..]);
      }
      Updated(headers, zones, link[..], b, h, z);
      headers := headers[b := h];
      zones := zones[b := z];
    }

    lemma HeaderAt(b: nat)
      requires Valid() && b in zones
      ensures b in headers && Says(headers[b], b, zones[b], link[..])
    {
    }

    /** The chunk at `ptr` goes to the front of the free ones. */
    method Put(b: nat, ghost i: nat, ptr: nat)
      requires Valid() && b in zones && ptr == ChunkAddr(b, zones[b].off, zones[b].chunk, i)
      requires ptr < link.Length && Untouched(zones, ptr)
      modifies this, link
      ensures Valid() && zones == old(zones)[b := old(zones[b]).(free := [i] + old(zones[b]).free, nfree := old(zones[b]).nfree + 1)]
    {
      hide ChunkAddr;
      ghost var z, link0 := zones[b], link[..];
      var h := headers[b];
      link[ptr] := h.free;
      forall x | x in zones
        ensures Says(headers[x], x, zones[x], link[..])
      {
        ChainFrame(link0, headers[x].free, Addrs(x, zones[x]), link[..]);
      }
      h := h.(free := Next(ptr), nfree := h.nfree + 1);
      headers := headers[b := h];
      zones := zones[b := z.(free := [i] + z.free, nfree := z.nfree + 1)];
      assert Addrs(b, zones[b]) == [ptr] + Addrs(b, z);
      assert Addrs(b, zones[b])[1..] == Addrs(b, z);
    }

    method Drop(b: nat)
      requires Valid()
      modifies this
      ensures Valid() && zones == old(zones) - {b}
    {
      headers := headers - {b};
      zones := zones - {b};
    }
  }
}
