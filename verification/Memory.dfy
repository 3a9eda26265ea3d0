/** The copy routines of kservice.c on one byte-addressed memory, and what a copy leaves alone. */
module Memory {
  import opened BlockList

  /** The `n` bytes at `dst` of `now` are those that `before` had at `src`. */
  ghost predicate Copied(before: seq<bv8>, now: seq<bv8>, src: nat, dst: nat, n: nat) {
    src + n <= |before| && dst + n <= |now| && now[dst..dst + n] == before[src..src + n]
  }

  /** Only the `n` bytes at `dst` may differ. */
  ghost predicate SameOutside(before: seq<bv8>, now: seq<bv8>, dst: nat, n: nat) {
    |now| == |before| && forall x :: 0 <= x < |now| && !(dst <= x < dst + n) ==> now[x] == before[x]
  }

  /** The payload of every live block other than the one at `ptr` reads the same. */
  ghost predicate Kept(before: seq<bv8>, now: seq<bv8>, bs: seq<Block>, h: nat, ptr: nat) {
    |now| == |before| && forall b :: b in Live(bs) && b.off + h != ptr && b.off + h + b.size <= |now| ==>
      now[b.off + h..b.off + h + b.size] == before[b.off + h..b.off + h + b.size]
  }

  lemma KeptApart(before: seq<bv8>, now: seq<bv8>, bs: seq<Block>, h: nat, ptr: nat, dst: nat, n: nat)
    requires SameOutside(before, now, dst, n)
    requires forall b :: b in Live(bs) ==> b.off + h + b.size <= dst || dst + n <= b.off + h
    ensures Kept(before, now, bs, h, ptr)
  {
  }

  lemma KeptSame(bytes: seq<bv8>, bs: seq<Block>, h: nat, ptr: nat)
    ensures Kept(bytes, bytes, bs, h, ptr)
  {
  }

  /** The first `k` bytes of a copy are in place. */
  ghost predicate CopiedTo(before: seq<bv8>, now: seq<bv8>, src: nat, dst: nat, k: nat) {
    && src + k <= |before| && dst + k <= |now| && SameOutside(before, now, dst, k)
    && forall x :: dst <= x < dst + k ==> now[x] == before[x - dst + src]
  }

  /** Copies the next word. */
  method CopyWord(data: array<bv8>, dst: nat, src: nat, k: nat, ghost before: seq<bv8>)
    requires CopiedTo(before, data[..], src, dst, k) && dst + k + 4 <= data.Length && src + k + 4 <= data.Length
    requires dst + k + 4 <= src || src + k + 4 <= dst
    modifies data
    ensures CopiedTo(before, data[..], src, dst, k + 4)
  {
    var d, s := dst + k, src + k;
    ghost var now := data[..];
    assert now[s] == before[s] && now[s+1] == before[s+1] && now[s+2] == before[s+2] && now[s+3] == before[s+3];
    data[d], data[d+1], data[d+2], data[d+3] := data[s], data[s+1], data[s+2], data[s+3];
  }

  /** Copies the next byte. */
  method CopyByte(data: array<bv8>, dst: nat, src: nat, k: nat, ghost before: seq<bv8>)
    requires CopiedTo(before, data[..], src, dst, k) && dst + k + 1 <= data.Length && src + k + 1 <= data.Length
    requires dst + k + 1 <= src || src + k + 1 <= dst
    modifies data
    ensures CopiedTo(before, data[..], src, dst, k + 1)
  {
    ghost var now := data[..];
    assert now[src + k] == before[src + k];
    data[dst + k] := data[src + k];
  }

  lemma CopyStart(bytes: seq<bv8>, src: nat, dst: nat)
    requires src <= |bytes| && dst <= |bytes|
    ensures CopiedTo(bytes, bytes, src, dst, 0)
  {
  }

  lemma CopyDone(before: seq<bv8>, now: seq<bv8>, src: nat, dst: nat, n: nat)
    requires CopiedTo(before, now, src, dst, n)
    ensures Copied(before, now, src, dst, n) && SameOutside(before, now, dst, n)
  {
  }

  /** rt_memcpy between areas that do not overlap: word by word when both are aligned. */
  method RtMemcpy(data: array<bv8>, dst: nat, src: nat, count: nat)
    requires dst + count <= data.Length && src + count <= data.Length && (dst + count <= src || src + count <= dst)
    modifies data
    ensures Copied(old(data[..]), data[..], src, dst, count) && SameOutside(old(data[..]), data[..], dst, count)
  {
    hide CopiedTo, Copied, SameOutside;
    ghost var before := data[..];
    var len, k := count, 0;
    CopyStart(before, src, dst);
    if len >= 16 && dst % 4 == 0 && src % 4 == 0 {
      while len >= 16
        invariant k + len == count && CopiedTo(before, data[..], src, dst, k)
      {
        CopyWord(data, dst, src, k, before);
        CopyWord(data, dst, src, k + 4, before);
        CopyWord(data, dst, src, k + 8, before);
        CopyWord(data, dst, src, k + 12, before);
        len, k := len - 16, k + 16;
      }
      while len >= 4
        invariant k + len == count && CopiedTo(before, data[..], src, dst, k)
      {
        CopyWord(data, dst, src, k, before);
        len, k := len - 4, k + 4;
      }
    }
    while len != 0
      invariant k + len == count && CopiedTo(before, data[..], src, dst, k)
    {
      CopyByte(data, dst, src, k, before);
      len, k := len - 1, k + 1;
    }
    CopyDone(before, data[..], src, dst, count);
  }

  /** rt_memmove: the copy is right however the two areas overlap. */
  method RtMemmove(data: array<bv8>, dest: nat, src: nat, n: nat)
    requires dest + n <= data.Length && src + n <= data.Length
    modifies data
    ensures Copied(old(data[..]), data[..], src, dest, n) && SameOutside(old(data[..]), data[..], dest, n)
  {
    if src < dest < src + n {
      var k := n;
      while k > 0
        invariant 0 <= k <= n
        invariant forall x :: dest + k <= x < dest + n ==> data[x] == old(data[x - dest + src])
        invariant forall x :: 0 <= x < data.Length && !(dest + k <= x < dest + n) ==> data[x] == old(data[x])
      {
        k := k - 1;
        data[dest + k] := data[src + k];
      }
    } else {
      var k := 0;
      while k < n
        invariant k <= n
        invariant forall x :: dest <= x < dest + k ==> data[x] == old(data[x - dest + src])
        invariant forall x :: 0 <= x < data.Length && !(dest <= x < dest + k) ==> data[x] == old(data[x])
      {
        data[dest + k] := data[src + k];
        k := k + 1;
      }
    }
  }
}
