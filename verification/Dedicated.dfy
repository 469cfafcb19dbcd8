/** The dedicated area of src/v5/dynshm.rs: regions of one allocation each, carved downwards from
    the end of the segment, reused once freed, and trimmed off the low end once their pages have
    been handed back. */
module Dedicated {
  import opened Common
  import opened Wrappers

  const PUNCHED: int := -1

  /** A payload and its header in whole blocks; zero for a size the wire format cannot describe. */
  function RegionSize(size: nat): (r: nat)
    ensures size <= I32_MAX ==> size + BUFFER_HEADER_SIZE <= r < size + BUFFER_HEADER_SIZE + MAX_BLOCK_SIZE
    ensures r % MAX_BLOCK_SIZE == 0
    ensures r == 0 <==> size > I32_MAX
  {
    if size > I32_MAX then 0
    else (size + BUFFER_HEADER_SIZE + MAX_BLOCK_SIZE - 1) / MAX_BLOCK_SIZE * MAX_BLOCK_SIZE
  }

  /** One region with the header at its start: `name` is the header's `offset` field, which is zero
      while the region is free. */
  datatype Region = Region(offset: nat, size: nat, name: int, len: nat, cap: nat, updated: int) {
    predicate Freed() { name == 0 }

    /** A region is at least a block; a busy one is named by its own offset and holds its payload; a
        punched one is free. */
    predicate Sane() {
      && offset > 0 && size >= MAX_BLOCK_SIZE
      && (name == 0 || (name == offset && len <= cap && cap + BUFFER_HEADER_SIZE == size))
      && (updated == PUNCHED ==> name == 0)
    }

    predicate SamePlace(r: Region) { offset == r.offset && size == r.size && name == r.name }
  }

  /** Where the region carved before the `k`-th starts, which is where the `k`-th ends. */
  function Ceiling(regions: seq<Region>, total: nat, k: nat): nat
    requires k <= |regions|
  {
    if k == 0 then total else regions[k - 1].offset
  }

  predicate Fitted(regions: seq<Region>, total: nat, k: nat)
    requires k < |regions|
  {
    regions[k].Sane() && regions[k].offset + regions[k].size == Ceiling(regions, total, k)
  }

  /** The regions fill the range from the last one's start up to `total`, without a gap. */
  predicate Tiled(regions: seq<Region>, total: nat) {
    forall k: nat | k < |regions| :: Fitted(regions, total, k)
  }

  lemma {:induction false} CarvedDownwards(regions: seq<Region>, total: nat, j: nat, k: nat)
    requires Tiled(regions, total) && j <= k < |regions|
    ensures j < k ==> regions[k].offset + regions[k].size <= regions[j].offset
    ensures regions[j].offset + regions[j].size <= total && regions[k].size >= MAX_BLOCK_SIZE
    decreases k
  {
    assert Fitted(regions, total, k);
    if k == 0 {
    } else if j == k {
      CarvedDownwards(regions, total, k - 1, k - 1);
    } else {
      assert Fitted(regions, total, k - 1);
      CarvedDownwards(regions, total, j, k - 1);
    }
  }

  /** Tiling means that every byte between the lowest region and the end is in exactly one region. */
  lemma {:induction false} TilesExactly(regions: seq<Region>, total: nat, x: nat)
    requires Tiled(regions, total) && Ceiling(regions, total, |regions|) <= x < total
    ensures exists k | 0 <= k < |regions| :: regions[k].offset <= x < regions[k].offset + regions[k].size
    ensures forall j, k | 0 <= j < |regions| && 0 <= k < |regions|
                          && regions[j].offset <= x < regions[j].offset + regions[j].size
                          && regions[k].offset <= x < regions[k].offset + regions[k].size :: j == k
    decreases |regions|
  {
    var last := |regions| - 1;
    assert Fitted(regions, total, last);
    if x < regions[last].offset + regions[last].size {
      assert regions[last].offset <= x;
    } else {
      var rest := regions[..last];
      PrefixTiled(regions, total, last);
      TilesExactly(rest, total, x);
      var k :| 0 <= k < |rest| && rest[k].offset <= x < rest[k].offset + rest[k].size;
      assert regions[k] == rest[k];
    }
    forall j, k | 0 <= j < k < |regions|
      ensures regions[k].offset + regions[k].size <= regions[j].offset
    {
      CarvedDownwards(regions, total, j, k);
    }
  }

  /** Region `k` could be reused for a payload that needs `need` bytes. */
  predicate Fits(r: Region, need: nat) {
    r.Freed() && need <= r.size <= need + MAX_BLOCK_SIZE
  }

  /** Region `k` was changed or added, and every other region is as before. */
  predicate OnlyAt(k: nat, before: seq<Region>, after: seq<Region>) {
    && |before| <= |after| && k <= |before|
    && forall j | 0 <= j < |after| && j != k :: j < |before| && before[j] == after[j]
  }

  /** Dropping regions off the low end leaves the rest tiled. */
  lemma PrefixTiled(regions: seq<Region>, total: nat, n: nat)
    requires Tiled(regions, total) && n <= |regions|
    ensures Tiled(regions[..n], total)
  {
    forall k: nat | k < n ensures Fitted(regions[..n], total, k) {
      assert Fitted(regions, total, k);
    }
  }

  /** So does changing what regions hold, but not where they are. */
  lemma StillTiled(before: seq<Region>, after: seq<Region>, total: nat)
    requires Tiled(before, total) && |before| == |after|
    requires forall k | 0 <= k < |before| ::
               before[k].offset == after[k].offset && before[k].size == after[k].size && (before[k].Sane() ==> after[k].Sane())
    ensures Tiled(after, total) && Ceiling(after, total, |after|) == Ceiling(before, total, |before|)
  {
    forall k: nat | k < |after| ensures Fitted(after, total, k) {
      assert Fitted(before, total, k);
    }
  }

  /** And so does carving one more right below the lowest. */
  lemma GrownTiled(regions: seq<Region>, r: Region, total: nat)
    requires Tiled(regions, total) && r.Sane() && r.offset + r.size == Ceiling(regions, total, |regions|)
    ensures Tiled(regions + [r], total)
  {
    forall k: nat | k < |regions| + 1 ensures Fitted(regions + [r], total, k) {
      assert k < |regions| ==> Fitted(regions, total, k);
    }
  }

  class Area {
    /** End of the shared area, which no dedicated region may reach into. */
    const floor: nat
    /** End of the segment. */
    const total: nat
    /** Every region carved and not trimmed, the lowest last. */
    var regions: seq<Region>
    /** Where the lowest region starts, and the segment's end when there is none. */
    var offset: nat

    ghost predicate Valid()
      reads this
    {
      && 0 < floor <= offset <= total
      && offset == Ceiling(regions, total, |regions|)
      && Tiled(regions, total)
    }

    /** A buffer in use starts at `x`. */
    ghost predicate InUse(x: int)
      reads this
    {
      exists k | 0 <= k < |regions| :: regions[k].offset == x && !regions[k].Freed()
    }

    constructor (floor: nat, total: nat)
      ensures Valid() <==> 0 < floor <= total
      ensures regions == [] && offset == total && this.floor == floor && this.total == total
    {
      this.floor, this.total := floor, total;
      regions, offset := [], total;
    }

    /** The first freed region of about the right size. */
    method FindReusable(need: nat) returns (r: Option<nat>)
      ensures r.Some? ==> r.value < |regions| && Fits(regions[r.value], need)
      ensures r.None? ==> forall k | 0 <= k < |regions| :: !Fits(regions[k], need)
    {
      for k := 0 to |regions|
        invariant forall j | 0 <= j < k :: !Fits(regions[j], need)
      {
        if Fits(regions[k], need) { return Some(k); }
      }
      return None;
    }

    /** Serve a payload from a region of its own: a freed region of about the right size if there is
        one, a new one off the low end otherwise. It fails exactly when neither is possible. The
        buffer handed out was not in use, every other region keeps its place and its state, and the
        region is at least as large as payload and header, wasting less than two blocks. */
    method Alloc(size: nat, now: int) returns (r: Option<nat>)
      requires Valid() && now > 0
      modifies this
      ensures Valid()
      ensures r.Some? <==>
                && size <= I32_MAX
                && ((exists k | 0 <= k < |old(regions)| :: Fits(old(regions)[k], RegionSize(size)))
                    || old(offset) - RegionSize(size) >= floor)
      ensures r.None? ==> regions == old(regions)
      ensures r.Some? ==> !old(InUse(r.value)) && forall x :: InUse(x) <==> old(InUse(x)) || x == r.value
      ensures r.Some? ==>
                exists k | 0 <= k < |regions| ::
                  && regions[k].offset == r.value && regions[k].len == size && regions[k].name == r.value
                  && size + BUFFER_HEADER_SIZE <= regions[k].size < size + BUFFER_HEADER_SIZE + 2 * MAX_BLOCK_SIZE
                  && OnlyAt(k, old(regions), regions)
    {
      var need := RegionSize(size);
      if need == 0 { return None; }
      var found := FindReusable(need);
      if found.Some? {
        var k := found.value;
        var was := regions[k];
        assert Fitted(regions, total, k);
        regions := regions[k := Region(was.offset, was.size, was.offset, size, was.size - BUFFER_HEADER_SIZE, now)];
        StillTiled(old(regions), regions, total);
        JustOneMore(old(regions), regions, total, k);
        return Some(was.offset);
      }
      if offset < need || offset - need < floor { return None; }
      offset := offset - need;
      regions := regions + [Region(offset, need, offset, size, need - BUFFER_HEADER_SIZE, now)];
      GrownTiled(old(regions), regions[|old(regions)|], total);
      JustOneMore(old(regions), regions, total, |old(regions)|);
      return Some(offset);
    }

    /** Free the region that starts at `x`: it succeeds exactly for a buffer in use, which then is
        not in use, and a refusal changes nothing. */
    method Free(x: int, now: int) returns (ok: bool)
      requires Valid() && now > 0
      modifies this
      ensures Valid()
      ensures ok <==> old(InUse(x))
      ensures ok ==> forall y :: InUse(y) <==> old(InUse(y)) && y != x
      ensures !ok ==> regions == old(regions)
      ensures offset == old(offset)
    {
      var k := 0;
      while k < |regions| && regions[k].offset != x
        invariant 0 <= k <= |regions| && forall j | 0 <= j < k :: regions[j].offset != x
      {
        k := k + 1;
      }
      if k == |regions| { return false; }
      forall j | 0 <= j < |regions| && j != k ensures regions[j].offset != x {
        CarvedDownwards(regions, total, if j < k then j else k, if j < k then k else j);
      }
      assert Fitted(regions, total, k);
      if regions[k].Freed() { return false; }
      regions := regions[k := regions[k].(name := 0, updated := now)];
      StillTiled(old(regions), regions, total);
      return true;
    }

    /** Stamp every region idle for `maxAge` as punched. */
    method Stamp(now: int, maxAge: int)
      requires Valid()
      modifies this`regions
      ensures Valid() && |regions| == |old(regions)|
      ensures forall k | 0 <= k < |regions| :: regions[k] == Pruned(old(regions)[k], now, maxAge)
    {
      for k := 0 to |regions|
        invariant |regions| == |old(regions)|
        invariant forall j | 0 <= j < k :: regions[j] == Pruned(old(regions)[j], now, maxAge)
        invariant forall j | k <= j < |regions| :: regions[j] == old(regions)[j]
      {
        if regions[k].updated <= 0 || !regions[k].Freed() { continue; }
        if now - regions[k].updated >= maxAge {
          regions := regions[k := regions[k].(updated := PUNCHED)];
        }
      }
      StillTiled(old(regions), regions, total);
    }

    /** Hand back the pages of idle regions and trim punched ones off the low end. Every buffer in
        use stays in use: what is trimmed is exactly the longest run of punched regions at the low
        end, and nothing else moves or is freed. */
    method Prune(now: int, maxAge: int)
      requires Valid()
      modifies this
      ensures Valid()
      ensures forall x :: InUse(x) <==> old(InUse(x))
      ensures |regions| <= |old(regions)|
      ensures forall k | 0 <= k < |regions| :: regions[k] == Pruned(old(regions)[k], now, maxAge)
      ensures forall k | |regions| <= k < |old(regions)| :: Pruned(old(regions)[k], now, maxAge).updated == PUNCHED
      ensures regions != [] ==> regions[|regions| - 1].updated != PUNCHED
    {
      Stamp(now, maxAge);
      ghost var stamped := regions;
      while regions != [] && regions[|regions| - 1].updated == PUNCHED
        invariant |regions| <= |stamped| && regions == stamped[..|regions|]
        invariant forall k | |regions| <= k < |stamped| :: stamped[k].updated == PUNCHED
        decreases |regions|
      {
        regions := regions[..|regions| - 1];
      }
      offset := if regions == [] then total else regions[|regions| - 1].offset;
      PrefixTiled(stamped, total, |regions|);
      BusyAreKept(old(regions), regions, stamped, total, now, maxAge);
      FloorKept(stamped, |regions|, total);
    }
  }

  /** Idle long enough for its pages to be handed back. */
  predicate Due(r: Region, now: int, maxAge: int) {
    r.updated > 0 && r.Freed() && now - r.updated >= maxAge
  }

  /** What pruning leaves of a region it does not trim. */
  function Pruned(r: Region, now: int, maxAge: int): (p: Region)
    ensures p.SamePlace(r) && (r.Sane() ==> p.Sane())
  {
    if Due(r, now, maxAge) then r.(updated := PUNCHED) else r
  }

  /** No busy region is among the trimmed. */
  lemma BusyAreKept(before: seq<Region>, after: seq<Region>, stamped: seq<Region>, total: nat, now: int, maxAge: int)
    requires Tiled(stamped, total) && |stamped| == |before| && |after| <= |before| && after == stamped[..|after|]
    requires forall k | 0 <= k < |before| :: stamped[k] == Pruned(before[k], now, maxAge)
    requires forall k | |after| <= k < |stamped| :: stamped[k].updated == PUNCHED
    ensures forall k | 0 <= k < |before| && !before[k].Freed() :: k < |after| && after[k].SamePlace(before[k])
  {
    forall k | 0 <= k < |before| && !before[k].Freed() ensures k < |after| {
      assert Fitted(stamped, total, k);
    }
  }

  /** Trimming moves the low end up. */
  lemma FloorKept(regions: seq<Region>, n: nat, total: nat)
    requires Tiled(regions, total) && n <= |regions|
    ensures Ceiling(regions, total, |regions|) <= Ceiling(regions, total, n) <= total
  {
    if 0 < n {
      CarvedDownwards(regions, total, n - 1, |regions| - 1);
    } else if regions != [] {
      CarvedDownwards(regions, total, |regions| - 1, |regions| - 1);
    }
  }

  /** Setting one region busy adds exactly its offset to the buffers in use. */
  lemma JustOneMore(before: seq<Region>, after: seq<Region>, total: nat, k: nat)
    requires Tiled(after, total) && OnlyAt(k, before, after) && k < |after| && !after[k].Freed()
    requires k < |before| ==> before[k].Freed() && before[k].offset == after[k].offset
    ensures forall j | 0 <= j < |after| && j != k :: after[j].offset != after[k].offset
    ensures forall j | 0 <= j < |before| && before[j].offset == after[k].offset :: before[j].Freed()
  {
    forall j | 0 <= j < |after| && j != k ensures after[j].offset != after[k].offset {
      CarvedDownwards(after, total, if j < k then j else k, if j < k then k else j);
    }
  }
}
