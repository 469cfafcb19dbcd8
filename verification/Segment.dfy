/** The owning side of a segment, src/v5/dynshm.rs: the release queue, then equally sized shared
    regions, then the dedicated area, which grows down from the end. */
module Segment {
  import opened Common
  import opened Wrappers
  import opened BlockMath
  import opened Tiling
  import opened Buddy
  import opened Region
  import D = Dedicated

  const MAX_AGE: int := 30_000_000_000

  /** The region the `k`-th attempt of a round-robin pass looks at. */
  function Turn(start: nat, k: nat, n: nat): (i: nat)
    requires n > 0
    ensures i < n
  {
    (start + k) % n
  }

  /** A round-robin pass from any start visits every index. */
  lemma {:induction false} RoundRobin(start: nat, n: nat, j: nat)
    requires j < n
    ensures exists k: nat | k < n :: Turn(start, k, n) == j
    decreases start
  {
    hide Turn;
    if start < n {
      FirstLap(start, n, j);
    } else {
      RoundRobin(start - n, n, j);
      var k: nat :| k < n && Turn(start - n, k, n) == j;
      LaterLap(start, n, k);
    }
  }

  lemma FirstLap(start: nat, n: nat, j: nat)
    requires start < n && j < n
    ensures exists k: nat | k < n :: Turn(start, k, n) == j
  {
    SmallMod(j, n);
    ModShift(j, n);
    if start <= j {
      assert Turn(start, j - start, n) == j;
    } else {
      assert Turn(start, j - start + n, n) == j;
    }
  }

  lemma LaterLap(start: nat, n: nat, k: nat)
    requires 0 < n <= start
    ensures Turn(start, k, n) == Turn(start - n, k, n)
  {
    ModShift(start - n + k, n);
  }

  /** Equal regions laid out from the end of the release queue, with nothing allocated. */
  ghost predicate Assembled(shared: seq<SharedRegion>, g: Geometry)
    reads shared, set i | 0 <= i < |shared| :: shared[i].allocator, set i | 0 <= i < |shared| :: shared[i].arena
  {
    && (forall i | 0 <= i < |shared| ::
          && shared[i].offset == RQ_SIZE + i * SHARED_REGION_SIZE && shared[i].arena.Length == SHARED_REGION_SIZE
          && shared[i].allocator.g == g && shared[i].Valid() && shared[i].allocator.live == map[])
    && (forall i, j | 0 <= i < j < |shared| ::
          shared[i] != shared[j] && shared[i].allocator != shared[j].allocator && shared[i].arena != shared[j].arena)
  }

  lemma OneMoreRegion(shared: seq<SharedRegion>, region: SharedRegion, g: Geometry)
    requires Assembled(shared, g) || shared == []
    requires region.offset == RQ_SIZE + |shared| * SHARED_REGION_SIZE && region.arena.Length == SHARED_REGION_SIZE
    requires region.allocator.g == g && region.Valid() && region.allocator.live == map[]
    requires forall r <- shared :: r != region && r.allocator != region.allocator && r.arena != region.arena
    ensures Assembled(shared + [region], g)
  {
    hide SharedRegion.Valid;
  }

  lemma ApartInside(r: SharedRegion, x: int, y: int)
    requires r.Valid() && r.InUse(x) && r.InUse(y) && x < y
    ensures x + r.allocator.g.Size(r.allocator.live[x - r.offset - ALLOCATOR_HEADER_SIZE]) <= y
  {
    hide BuddyAllocator.Honest, BuddyAllocator.Valid;
    r.allocator.LiveApart(r.arena, x - r.offset - ALLOCATOR_HEADER_SIZE, y - r.offset - ALLOCATOR_HEADER_SIZE);
  }

  class LocalManager {
    const total: nat
    const shared: seq<SharedRegion>
    /** Regions below this index are never punched. */
    const pinned: nat
    const dedicated: D.Area
    var closed: bool
    /** Round-robin cursor over the pinned regions, a 32-bit counter. */
    var cursor: nat
    /** Offsets the peer has finished with. */
    var releases: seq<int>

    /** Put a manager together from regions that have nothing allocated. It is sound exactly when the
        regions leave the dedicated area a start inside the segment. */
    constructor (total: nat, shared: seq<SharedRegion>, pinned: nat, dedicated: D.Area)
      requires pinned <= |shared| && total < TWO_63 && dedicated.regions == [] && dedicated.offset == total
      requires dedicated.floor == RQ_SIZE + |shared| * SHARED_REGION_SIZE && dedicated.total == total
      requires Assembled(shared, if shared == [] then Geometry(0, 0, 0) else shared[0].allocator.g)
      ensures Valid() <==> RQ_SIZE + |shared| * SHARED_REGION_SIZE <= total
      ensures !closed && releases == [] && forall x :: !InUse(x)
      ensures this.total == total && this.shared == shared && this.pinned == pinned && this.dedicated == dedicated
    {
      this.total, this.shared, this.pinned, this.dedicated := total, shared, pinned, dedicated;
      closed, cursor, releases := false, 0, [];
    }

    ghost function Footprint(): set<object> {
      (set i | 0 <= i < |shared| :: shared[i] as object)
      + (set i | 0 <= i < |shared| :: shared[i].allocator as object)
      + (set i | 0 <= i < |shared| :: shared[i].arena as object)
    }

    /** Equal regions right behind the release queue, then the dedicated area. */
    ghost predicate Layout() {
      && pinned <= |shared| && total < TWO_63
      && dedicated.floor == RQ_SIZE + |shared| * SHARED_REGION_SIZE && dedicated.total == total
      && (forall i | 0 <= i < |shared| ::
            && shared[i].offset == RQ_SIZE + i * SHARED_REGION_SIZE
            && shared[i].arena.Length == SHARED_REGION_SIZE
            && shared[i].allocator.g == shared[0].allocator.g)
      && (forall i, j | 0 <= i < j < |shared| ::
            shared[i] != shared[j] && shared[i].allocator != shared[j].allocator && shared[i].arena != shared[j].arena)
    }

    ghost predicate Valid()
      reads this, dedicated, Footprint()
    {
      && Layout() && dedicated.Valid() && cursor < TWO_32
      && forall i | 0 <= i < |shared| :: shared[i].Valid()
    }

    /** A buffer handed out and not yet released starts at global offset `x`. */
    ghost predicate InUse(x: int)
      reads dedicated, Footprint()
    {
      (exists i | 0 <= i < |shared| :: shared[i].InUse(x)) || dedicated.InUse(x)
    }

    /** The buffer in use at `x`, header included, ends at `end`. */
    ghost predicate Spans(x: int, end: int)
      reads dedicated, Footprint()
    {
      || (exists i | 0 <= i < |shared| :: SpansShared(i, x, end))
      || (exists k | 0 <= k < |dedicated.regions| :: SpansDedicated(k, x, end))
    }

    ghost predicate SpansShared(i: nat, x: int, end: int)
      requires i < |shared|
      reads Footprint()
    {
      var r := shared[i];
      r.InUse(x) && end == x - ALLOCATOR_HEADER_SIZE + r.allocator.g.Size(r.allocator.live[x - r.offset - ALLOCATOR_HEADER_SIZE])
    }

    ghost predicate SpansDedicated(k: nat, x: int, end: int)
      reads dedicated
    {
      && k < |dedicated.regions| && !dedicated.regions[k].Freed()
      && x == dedicated.regions[k].offset && end == x + dedicated.regions[k].size
    }

    /** A shared buffer lies inside its own region. */
    lemma SharedInside(i: nat, x: int, end: int)
      requires Valid() && i < |shared| && SpansShared(i, x, end)
      ensures RQ_SIZE + i * SHARED_REGION_SIZE < x < end <= RQ_SIZE + (i + 1) * SHARED_REGION_SIZE
    {
      hide BuddyAllocator.Honest, BuddyAllocator.Valid;
      var r := shared[i];
      r.allocator.LiveFacts(r.arena, x - r.offset - ALLOCATOR_HEADER_SIZE);
      Pow2Monotone(r.allocator.g.shift, r.allocator.g.shift + r.allocator.live[x - r.offset - ALLOCATOR_HEADER_SIZE]);
    }

    lemma DedicatedInside(k: nat, x: int, end: int)
      requires Valid() && SpansDedicated(k, x, end)
      ensures dedicated.floor <= x < end <= total
    {
      D.CarvedDownwards(dedicated.regions, total, k, |dedicated.regions| - 1);
      D.CarvedDownwards(dedicated.regions, total, k, k);
      assert dedicated.floor <= dedicated.offset;
    }

    lemma Inside(x: int, end: int)
      requires Valid() && Spans(x, end)
      ensures RQ_SIZE < x < end <= total || RQ_SIZE <= dedicated.floor <= x < end <= total
    {
      if i :| 0 <= i < |shared| && SpansShared(i, x, end) {
        SharedInside(i, x, end);
      } else {
        var k :| 0 <= k < |dedicated.regions| && SpansDedicated(k, x, end);
        DedicatedInside(k, x, end);
      }
    }

    lemma SharedApart(i: nat, x: int, endX: int, j: nat, y: int, endY: int)
      requires Valid() && i < |shared| && j < |shared| && SpansShared(i, x, endX) && SpansShared(j, y, endY) && x < y
      ensures endX <= y
    {
      hide SharedRegion.Valid, Pow2;
      SharedInside(i, x, endX);
      SharedInside(j, y, endY);
      if i == j { ApartInside(shared[i], x, y); }
    }

    /** No two buffers in use overlap. */
    lemma BuffersApart(x: int, endX: int, y: int, endY: int)
      requires Valid() && Spans(x, endX) && Spans(y, endY) && x < y
      ensures endX <= y
    {
      hide SharedRegion.Valid, SpansShared;
      if i :| 0 <= i < |shared| && SpansShared(i, x, endX) {
        SharedInside(i, x, endX);
        if j :| 0 <= j < |shared| && SpansShared(j, y, endY) {
          SharedApart(i, x, endX, j, y, endY);
        } else {
          var k :| 0 <= k < |dedicated.regions| && SpansDedicated(k, y, endY);
          DedicatedInside(k, y, endY);
        }
      } else {
        var k :| 0 <= k < |dedicated.regions| && SpansDedicated(k, x, endX);
        DedicatedInside(k, x, endX);
        if j :| 0 <= j < |shared| && SpansShared(j, y, endY) {
          SharedInside(j, y, endY);
        } else {
          var m :| 0 <= m < |dedicated.regions| && SpansDedicated(m, y, endY);
          D.CarvedDownwards(dedicated.regions, total, if k < m then k else m, if k < m then m else k);
        }
      }
    }

    /** The shared region an offset falls in. */
    function SharedByOffset(x: int): (r: Option<nat>)
      ensures r.Some? ==> RQ_SIZE + r.value * SHARED_REGION_SIZE <= x < RQ_SIZE + (r.value + 1) * SHARED_REGION_SIZE
      ensures r.Some? ==> r.value < |shared|
      ensures r.None? <==> !(RQ_SIZE <= x < RQ_SIZE + |shared| * SHARED_REGION_SIZE)
    {
      if x < RQ_SIZE || x >= RQ_SIZE + |shared| * SHARED_REGION_SIZE then None
      else Some((x - RQ_SIZE) / SHARED_REGION_SIZE)
    }

    /** A buffer in use belongs to the region its offset falls in, or else to the dedicated area. */
    lemma Routed(x: int)
      requires Valid()
      ensures SharedByOffset(x).Some? ==> !dedicated.InUse(x)
      ensures forall i | 0 <= i < |shared| && shared[i].InUse(x) :: SharedByOffset(x) == Some(i)
    {
      hide SharedRegion.Valid;
      forall i | 0 <= i < |shared| && shared[i].InUse(x) ensures SharedByOffset(x) == Some(i) {
        SharedInside(i, x, x - ALLOCATOR_HEADER_SIZE
          + shared[i].allocator.g.Size(shared[i].allocator.live[x - shared[i].offset - ALLOCATOR_HEADER_SIZE]));
      }
      if dedicated.InUse(x) {
        var k :| 0 <= k < |dedicated.regions| && dedicated.regions[k].offset == x && !dedicated.regions[k].Freed();
        DedicatedInside(k, x, x + dedicated.regions[k].size);
      }
    }

    /** Hand one offset back to whichever region owns it. The offset is the peer's word and may be
        anything: the buffer in use at `x`, if there is one, stops being in use, and no other does. */
    method FreeAt(x: int, now: int)
      requires Valid() && now > 0
      modifies dedicated, Footprint()
      ensures Valid()
      ensures forall y :: InUse(y) <==> old(InUse(y)) && y != x
    {
      hide SharedRegion.Valid;
      Routed(x);
      var owner := SharedByOffset(x);
      if owner.Some? {
        var i := owner.value;
        var freed := shared[i].FreeAt(x);
        assert forall j | 0 <= j < |shared| && j != i :: shared[j].Valid();
        return;
      }
      var freed := dedicated.Free(x, now);
    }

    /** Reclaim everything the peer has released. */
    method DrainReleases(now: int)
      requires Valid() && now > 0
      modifies this`releases, dedicated, Footprint()
      ensures Valid() && releases == []
      ensures forall y :: InUse(y) <==> old(InUse(y)) && y !in old(releases)
    {
      hide SharedRegion.Valid, InUse;
      ghost var done: seq<int> := [];
      while releases != []
        invariant Valid() && done + releases == old(releases)
        invariant forall y :: InUse(y) <==> old(InUse(y)) && y !in done
        decreases |releases|
      {
        FreeAt(releases[0], now);
        done := done + [releases[0]];
        releases := releases[1..];
      }
    }

    /** The buffer at `x` was free before, is in use now, holds header and payload, and no other
        buffer came or went. */
    twostate predicate Handed(x: int, size: nat)
      reads dedicated, Footprint()
    {
      && !old(InUse(x)) && (forall y :: InUse(y) <==> old(InUse(y)) || y == x)
      && exists end :: Spans(x, end) && x + BUFFER_HEADER_SIZE + size <= end
    }

    /** Ask one shared region, whose buffers in use are then those before and the new one. */
    method AskRegion(i: nat, size: nat, now: int) returns (r: Option<int>, ghost end: int)
      requires Valid() && i < |shared| && now > 0
      modifies shared[i], shared[i].allocator, shared[i].arena
      ensures Valid()
      ensures r.None? ==> !shared[i].CanServe(size)
      ensures forall y :: shared[i].InUse(y) <==> old(shared[i].InUse(y)) || r == Some(y)
      ensures r.Some? ==> !old(InUse(r.value)) && SpansShared(i, r.value, end) && r.value + BUFFER_HEADER_SIZE + size <= end
    {
      hide SharedRegion.Valid;
      r := shared[i].Alloc(size, now);
      if r.None? { return None, 0; }
      ghost var local := r.value - shared[i].offset - ALLOCATOR_HEADER_SIZE;
      end := r.value - ALLOCATOR_HEADER_SIZE + shared[i].allocator.g.Size(shared[i].allocator.live[local]);
      Routed(r.value);
      assert forall j | 0 <= j < |shared| && j != i :: !old(shared[j].InUse(r.value));
    }

    /** Ask one shared region. */
    method TryRegion(i: nat, size: nat, now: int) returns (r: Option<int>)
      requires Valid() && i < |shared| && now > 0
      modifies shared[i], shared[i].allocator, shared[i].arena
      ensures Valid()
      ensures r.None? ==> !shared[i].CanServe(size) && forall y :: InUse(y) <==> old(InUse(y))
      ensures r.Some? ==> Handed(r.value, size)
    {
      hide SharedRegion.Valid, SpansShared, SharedRegion.CanServe;
      ghost var end;
      r, end := AskRegion(i, size, now);
      assert forall j, y | 0 <= j < |shared| && j != i :: shared[j].InUse(y) <==> old(shared[j].InUse(y));
      hide SharedRegion.InUse;
      assert forall y :: InUse(y) <==> old(InUse(y)) || r == Some(y);
      assert r.Some? ==> Spans(r.value, end);
    }

    /** Try the pinned regions in round-robin order. */
    method AllocPinned(size: nat, now: int) returns (r: Option<int>)
      requires Valid() && now > 0 && pinned > 0
      modifies this`cursor, Footprint()
      ensures Valid()
      ensures r.Some? ==> Handed(r.value, size)
      ensures r.None? ==> forall i | 0 <= i < pinned :: !shared[i].CanServe(size)
      ensures r.None? ==> forall y :: InUse(y) <==> old(InUse(y))
    {
      hide SharedRegion.Valid, SharedRegion.CanServe, InUse, Spans, Turn;
      cursor := (cursor + 1) % TWO_32;
      var start := cursor;
      for k := 0 to pinned
        invariant Valid() && forall y :: InUse(y) <==> old(InUse(y))
        invariant forall m: nat | m < k :: !shared[Turn(start, m, pinned)].CanServe(size)
      {
        r := TryRegion(Turn(start, k, pinned), size, now);
        if r.Some? { return; }
      }
      forall i | 0 <= i < pinned ensures !shared[i].CanServe(size) {
        RoundRobin(start, pinned, i);
      }
      return None;
    }

    /** Try the pinned regions, then the others in turn. It fails only when no region could serve
        the request. */
    method AllocShared(size: nat, now: int) returns (r: Option<int>)
      requires Valid() && now > 0
      modifies this`cursor, Footprint()
      ensures Valid()
      ensures r.Some? ==> Handed(r.value, size)
      ensures r.None? ==> forall i | 0 <= i < |shared| :: !shared[i].CanServe(size)
      ensures r.None? ==> forall y :: InUse(y) <==> old(InUse(y))
    {
      hide SharedRegion.Valid, SharedRegion.CanServe, InUse, Spans;
      if pinned > 0 {
        r := AllocPinned(size, now);
        if r.Some? { return; }
      }
      for k := pinned to |shared|
        invariant Valid() && forall y :: InUse(y) <==> old(InUse(y))
        invariant forall i | 0 <= i < k :: !shared[i].CanServe(size)
      {
        r := TryRegion(k, size, now);
        if r.Some? { return; }
      }
      return None;
    }

    /** The largest payload a shared region can serve. */
    function MaxSharedPayload(): nat {
      if shared == [] then 0
      else
        var g := shared[0].allocator.g;
        SaturatingSub(g.Size(g.top), ALLOCATOR_HEADER_SIZE + BUFFER_HEADER_SIZE)
    }

    /** Neither a freed dedicated region nor the room above the shared area fits the payload. */
    ghost predicate NoDedicated(size: nat)
      reads dedicated
    {
      || size > I32_MAX
      || (dedicated.offset - D.RegionSize(size) < dedicated.floor
          && forall k | 0 <= k < |dedicated.regions| :: !D.Fits(dedicated.regions[k], D.RegionSize(size)))
    }

    /** Serve a payload too large for any shared block. */
    method AllocDedicated(size: nat, now: int) returns (r: Option<int>)
      requires Valid() && now > 0
      modifies dedicated
      ensures Valid()
      ensures r.Some? ==> Handed(r.value, size)
      ensures r.None? ==> NoDedicated(size) && forall y :: InUse(y) <==> old(InUse(y))
    {
      hide SharedRegion.Valid;
      var x := dedicated.Alloc(size, now);
      if x.None? { return None; }
      ghost var k :| 0 <= k < |dedicated.regions| && dedicated.regions[k].offset == x.value && dedicated.regions[k].name == x.value
                     && size + BUFFER_HEADER_SIZE <= dedicated.regions[k].size;
      assert D.Fitted(dedicated.regions, total, k);
      assert SpansDedicated(k, x.value, x.value + dedicated.regions[k].size);
      Routed(x.value);
      assert forall i, y | 0 <= i < |shared| :: shared[i].InUse(y) <==> old(shared[i].InUse(y));
      assert Spans(x.value, x.value + dedicated.regions[k].size);
      return Some(x.value);
    }

    /** Allocate room for `size` payload bytes, after reclaiming what the peer has handed back when
        this thread gets to (`drain`). The buffers in use afterwards are those before, less what was
        reclaimed, plus the new one; `NoSpace` for a size above zero means that no region could have
        served it. */
    method Alloc(size: nat, now: int, drain: bool) returns (r: Result<int, ManagerError>)
      requires Valid() && now > 0
      modifies this, dedicated, Footprint()
      ensures Valid()
      ensures r == Err(Closed) <==> old(closed)
      ensures r == Err(Closed) || size == 0 ==> releases == old(releases) && forall y :: InUse(y) <==> old(InUse(y))
      ensures size == 0 ==> r.Err?
      ensures !old(closed) && size > 0 ==>
                && releases == (if drain then [] else old(releases))
                && (forall y :: InUse(y) <==> (old(InUse(y)) && !(drain && y in old(releases))) || r == Ok(y))
      ensures r.Ok? ==> !(old(InUse(r.value)) && !(drain && r.value in old(releases)))
      ensures r.Ok? ==> exists end :: Spans(r.value, end) && r.value + BUFFER_HEADER_SIZE + size <= end
      ensures r == Err(NoSpace) && 0 < size <= MaxSharedPayload() ==> forall i | 0 <= i < |shared| :: !shared[i].CanServe(size)
      ensures r == Err(NoSpace) && size > MaxSharedPayload() ==> NoDedicated(size)
    {
      hide SharedRegion.Valid, SharedRegion.CanServe, InUse, Spans, NoDedicated;
      if closed { return Err(Closed); }
      if size == 0 { return Err(NoSpace); }
      if releases != [] && drain { DrainReleases(now); }
      var x;
      if size > MaxSharedPayload() {
        x := AllocDedicated(size, now);
      } else {
        x := AllocShared(size, now);
      }
      if x.None? { return Err(NoSpace); }
      return Ok(x.value);
    }

    /** Hand back one shared region's pages if it has been idle long enough. */
    method PruneRegion(i: nat, now: int, released: bool)
      requires Valid() && i < |shared|
      modifies shared[i], shared[i].arena
      ensures Valid() && forall y :: InUse(y) <==> old(InUse(y))
    {
      hide SharedRegion.Valid;
      var punched := shared[i].PunchIfIdle(now, MAX_AGE, released);
      assert forall j, y | 0 <= j < |shared| :: shared[j].InUse(y) <==> old(shared[j].InUse(y));
    }

    /** Hand back the pages of every region idle long enough; `released[i]` is what the kernel did
        with shared region `i`. No buffer in use is lost, and pinned regions are left alone. */
    method PruneIdle(now: int, released: seq<bool>)
      requires Valid() && |released| == |shared|
      modifies dedicated, Footprint()
      ensures Valid()
      ensures forall y :: InUse(y) <==> old(InUse(y))
      ensures forall i | 0 <= i < pinned :: unchanged(shared[i]) && unchanged(shared[i].arena)
      ensures closed ==> unchanged(dedicated) && forall i | 0 <= i < |shared| :: unchanged(shared[i])
    {
      hide SharedRegion.Valid, InUse;
      if closed { return; }
      for k := pinned to |shared|
        invariant Valid() && forall y :: InUse(y) <==> old(InUse(y))
        invariant forall i | 0 <= i < pinned :: unchanged(shared[i]) && unchanged(shared[i].arena)
      {
        PruneRegion(k, now, released[k]);
      }
      PruneDedicated(now);
    }

    method PruneDedicated(now: int)
      requires Valid()
      modifies dedicated
      ensures Valid() && forall y :: InUse(y) <==> old(InUse(y))
    {
      hide SharedRegion.Valid;
      dedicated.Prune(now, MAX_AGE);
      assert forall i, y | 0 <= i < |shared| :: shared[i].InUse(y) <==> old(shared[i].InUse(y));
    }
  }

  predicate DividesRegion(block: nat) {
    0 < block <= SHARED_REGION_SIZE && SHARED_REGION_SIZE % block == 0
  }

  /** Build the shared regions of a segment: a fresh arena and allocator each, laid out in order. */
  method BuildRegions(count: nat, minBlock: nat, maxBlock: nat) returns (r: Option<seq<SharedRegion>>)
    requires RQ_SIZE + count * SHARED_REGION_SIZE < TWO_63 && maxBlock < TWO_64
    requires Log2(minBlock).Some? && Log2(maxBlock).Some? && minBlock <= maxBlock
    ensures r.Some? <==> count == 0 || (ALLOCATOR_HEADER_SIZE < minBlock && DividesRegion(maxBlock))
    ensures r.Some? ==> |r.value| == count
    ensures r.Some? && count > 0 ==> Assembled(r.value, GeometryOf(SHARED_REGION_SIZE, minBlock, maxBlock))
    ensures r.Some? ==> forall s <- r.value :: fresh(s) && fresh(s.allocator) && fresh(s.arena)
  {
    hide SharedRegion.Valid, BuddyAllocator.Valid, GeometryOf, Log2, Assembled;
    var regions: seq<SharedRegion> := [];
    for k := 0 to count
      invariant |regions| == k
      invariant k > 0 ==> ALLOCATOR_HEADER_SIZE < minBlock && DividesRegion(maxBlock)
      invariant k > 0 ==> Assembled(regions, GeometryOf(SHARED_REGION_SIZE, minBlock, maxBlock))
      invariant forall s <- regions :: fresh(s) && fresh(s.allocator) && fresh(s.arena)
    {
      var built := NewWithBlockSize(SHARED_REGION_SIZE, minBlock, maxBlock);
      if built.Err? { return None; }
      var arena := new byte[SHARED_REGION_SIZE](i => 0);
      var region := new SharedRegion(built.value, arena, RQ_SIZE + k * SHARED_REGION_SIZE);
      OneMoreRegion(regions, region, built.value.g);
      regions := regions + [region];
    }
    return Some(regions);
  }

  /** Build a segment. The source checks that one shared region fits, and not that all of them do: what
      it builds is a sound manager exactly when every shared region ends inside the segment. */
  method NewWithSize(total: nat, pinnedShared: nat, sharedCap: nat, minBlock: nat, maxBlock: nat)
    returns (r: Option<LocalManager>)
    requires total < TWO_63 && RQ_SIZE + sharedCap < TWO_63 && maxBlock < TWO_64
    ensures r.Some? <==>
              && total >= RQ_SIZE + SHARED_REGION_SIZE && sharedCap >= pinnedShared
              && Log2(minBlock).Some? && Log2(maxBlock).Some? && minBlock <= maxBlock
              && (sharedCap < SHARED_REGION_SIZE || (ALLOCATOR_HEADER_SIZE < minBlock && DividesRegion(maxBlock)))
    ensures r.Some? ==> fresh(r.value) && fresh(r.value.dedicated) && fresh(r.value.Footprint())
    ensures r.Some? ==> r.value.total == total && forall x :: !r.value.InUse(x)
    ensures r.Some? ==> (r.value.Valid() <==> forall s <- r.value.shared :: s.offset + s.arena.Length <= total)
    ensures r.Some? ==> |r.value.shared| == sharedCap / SHARED_REGION_SIZE && r.value.pinned == pinnedShared / SHARED_REGION_SIZE
    ensures r.Some? ==> forall i | 0 <= i < |r.value.shared| ::
              r.value.shared[i].offset == RQ_SIZE + i * SHARED_REGION_SIZE && r.value.shared[i].arena.Length == SHARED_REGION_SIZE
  {
    hide SharedRegion.Valid, GeometryOf, DividesRegion, Log2;
    if total < RQ_SIZE + SHARED_REGION_SIZE || sharedCap < pinnedShared { return None; }
    if Log2(minBlock).None? || Log2(maxBlock).None? || minBlock > maxBlock { return None; }
    var count := sharedCap / SHARED_REGION_SIZE;
    var regions := BuildRegions(count, minBlock, maxBlock);
    if regions.None? { return None; }
    var area := new D.Area(RQ_SIZE + count * SHARED_REGION_SIZE, total);
    var manager := new LocalManager(total, regions.value, pinnedShared / SHARED_REGION_SIZE, area);
    assert forall s <- regions.value :: s.offset + s.arena.Length <= RQ_SIZE + count * SHARED_REGION_SIZE;
    assert count > 0 ==> regions.value[count - 1].offset + regions.value[count - 1].arena.Length == RQ_SIZE + count * SHARED_REGION_SIZE;
    return Some(manager);
  }

  /** The default block sizes are powers of two that divide a region. */
  lemma DefaultBlocks()
    ensures Log2(MIN_BLOCK_SIZE).Some? && Log2(MAX_BLOCK_SIZE).Some? && DividesRegion(MAX_BLOCK_SIZE)
  {
    Log2OfPow2(14);
    Log2OfPow2(18);
    assert Pow2(14) == MIN_BLOCK_SIZE && Pow2(18) == MAX_BLOCK_SIZE;
  }

  /** A segment with room for one shared region and a cap of two is built, and its second region lies
      behind the end of the segment. */
  method RegionBehindTheEnd() returns (r: Option<LocalManager>)
    ensures r.Some? && !r.value.Valid() && |r.value.shared| == 2 && r.value.shared[1].offset == r.value.total
  {
    hide Log2, DividesRegion, LocalManager.Valid, LocalManager.Footprint, LocalManager.InUse;
    DefaultBlocks();
    r := NewWithSize(RQ_SIZE + SHARED_REGION_SIZE, 0, 2 * SHARED_REGION_SIZE, MIN_BLOCK_SIZE, MAX_BLOCK_SIZE);
    assert r.value.shared[1] in r.value.shared;
  }
}
