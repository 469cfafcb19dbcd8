/** The buddy allocator of src/v5/buddy.rs. */
module Buddy {
  import opened Common
  import opened Wrappers
  import opened Sequences
  import opened BlockMath
  import opened Tiling
  import opened FreeLists
  import opened Arena

  /** `Some(k)` exactly for `n == 2^k`: `is_power_of_two` together with `trailing_zeros`. */
  function Log2(n: nat): (r: Option<nat>)
    ensures r.Some? ==> n == Pow2(r.value)
  {
    if n == 1 then Some(0)
    else if n == 0 || n % 2 == 1 then None
    else
      var half := Log2(n / 2);
      if half.None? then None else Some(half.value + 1)
  }

  lemma {:induction false} Log2OfPow2(k: nat)
    ensures Log2(Pow2(k)) == Some(k)
  {
    if k > 0 { Log2OfPow2(k - 1); }
  }

  /** Replacing two adjacent entries of one order by one entry of the next. */
  lemma MergeLists(free: seq<seq<nat>>, order: nat, a: seq<nat>, left: nat, right: nat, b: seq<nat>)
    requires order + 1 < |free| && free[order] == a + [left, right] + b && Ascending(free[order])
    ensures FreeSet(free[order := a + b][order + 1 := free[order + 1] + [left]])
         == FreeSet(free) - {Block(order, left), Block(order, right)} + {Block(order + 1, left)}
    ensures Ascending(a + b)
  {
    var free' := free[order := a + b][order + 1 := free[order + 1] + [left]];
    var l := free[order];
    assert a == l[..|a|] && b == l[|a| + 2..] && l[|a|] == left && l[|a| + 1] == right;
    forall x ensures x in a + b <==> x in l && x != left && x != right {
      if x in l && x != left && x != right {
        var i :| 0 <= i < |l| && l[i] == x;
        assert i < |a| || (i >= |a| + 2 && b[i - |a| - 2] == x);
      }
    }
    forall c ensures c in FreeSet(free')
                 <==> c in FreeSet(free) - {Block(order, left), Block(order, right)} + {Block(order + 1, left)} {
      InFree(free, c);
      InFree(free', c);
    }
  }

  /** Every block of `live` carries its own header. */
  ghost predicate StampedWith(arena: array<byte>, g: Geometry, live: map<nat, nat>)
    reads arena
  {
    arena.Length == g.arena && forall x <- live :: ReadHeader(arena, x) == Some((MAGIC, live[x]))
  }

  /** The magic is set at no block boundary but those of `live`. */
  ghost predicate CleanBut(arena: array<byte>, g: Geometry, live: map<nat, nat>)
    reads arena
  {
    && arena.Length == g.arena
    && forall x: nat | Multiple(x, g.Size(0)) && x + ALLOCATOR_HEADER_SIZE <= arena.Length && Word(arena, x) == MAGIC ::
         x in live
  }

  class BuddyAllocator {
    const g: Geometry
    /** Free block offsets per order. */
    var free: seq<seq<nat>>
    /** Set when a block below the top order was freed. */
    var needsCoalesce: bool
    /** The blocks handed out and not yet released: offset to order. */
    ghost var live: map<nat, nat>

    /** Free and live blocks partition the arena, each aligned to its own size. */
    ghost predicate Partition()
      reads this
    {
      && g.Sound() && g.Size(0) > ALLOCATOR_HEADER_SIZE && g.top < TWO_32
      && |free| == g.top + 1
      && (forall o | 0 <= o <= g.top :: Distinct(free[o]))
      && Partitions(g, free, live)
    }

    /** A partition in which a clear flag means no two free buddies are left to merge. */
    ghost predicate Valid()
      reads this
    {
      Partition() && (!needsCoalesce ==> NoPairs(g, free))
    }

    /** One round of `coalesce_until`: replace every pair of buddies of one order by one entry of
        the next. */
    method MergeOrder(order: nat)
      requires Partition() && order < g.top
      modifies this`free
      ensures Partition() && |free| == |old(free)|
      ensures NoPairAt(g, free, order)
      ensures forall o | 0 <= o < |free| && o != order && o != order + 1 :: free[o] == old(free)[o]
    {
      if |free[order]| < 2 {
        assert forall x <- free[order] :: x == free[order][0];
        return;
      }
      SortSpec(free[order]);
      var list := Sort(free[order]);
      ghost var lists := free[order := list];
      assert FreeSet(lists) == FreeSet(free) by {
        forall b ensures b in FreeSet(lists) <==> b in FreeSet(free) { InFree(free, b); InFree(lists, b); }
      }
      var kept, merged := MergeScan(g, order, list, free[order + 1], lists, live);
      free := free[order := kept][order + 1 := merged];
      assert free == Rescanned(lists, order, kept, merged);
    }

    /** `coalesce_until`: afterwards no two free buddies are left below `target`. */
    method CoalesceUntil(target: nat)
      requires Partition() && target <= g.top
      modifies this`free
      ensures Partition() && forall o | 0 <= o < target :: NoPairAt(g, free, o)
    {
      for order := 0 to target
        invariant Partition() && forall o | 0 <= o < order :: NoPairAt(g, free, o)
      {
        ghost var before := free;
        MergeOrder(order);
        forall o | 0 <= o < order ensures NoPairAt(g, free, o) {
          assert NoPairAt(g, before, o) && free[o] == before[o];
        }
      }
    }

    /** The lowest order from `order` up that has a free block. */
    method Find(order: nat) returns (found: Option<nat>)
      requires |free| == g.top + 1 && order <= g.top
      ensures found.Some? ==> order <= found.value <= g.top && free[found.value] != []
      ensures found.None? ==> forall o | order <= o <= g.top :: free[o] == []
    {
      for o := order to g.top + 1
        invariant forall p | order <= p < o :: free[p] == []
      {
        if free[o] != [] { return Some(o); }
      }
      return None;
    }

    /** Pop a block of order `found` and split it down to `order`, keeping the upper halves. */
    method Take(found: nat, order: nat) returns (offset: nat)
      requires Partition() && order <= found <= g.top && free[found] != []
      modifies this`free
      ensures Holding(g, free, live, Block(order, offset))
      ensures offset in old(free)[found]
      ensures NoPairs(g, old(free)) ==> NoPairs(g, free)
    {
      hide Holding, NoPairs, Partitions, Distinct;
      var lists: seq<seq<nat>> := free;
      var n := |lists[found]| - 1;
      offset := lists[found][n];
      TakeStarts(g, lists, live, found);
      lists := lists[found := lists[found][..n]];
      var f := found;
      while f > order
        invariant order <= f <= found && |lists| == g.top + 1
        invariant Holding(g, lists, live, Block(f, offset))
        invariant free == old(free) && (NoPairs(g, free) ==> NoPairs(g, lists))
      {
        f := f - 1;
        TakeSplits(g, lists, live, f, offset);
        lists := lists[f := lists[f] + [offset + g.Size(f)]];
      }
      free := lists;
    }

    // ---------------------------------------------------------------- headers in the arena

    /** Every live block carries its own header. */
    ghost predicate Stamped(arena: array<byte>)
      reads this, arena
    {
      StampedWith(arena, g, live)
    }

    /** The magic is set at no block boundary but those where a live block starts. */
    ghost predicate Clean(arena: array<byte>)
      reads this, arena
    {
      CleanBut(arena, g, live)
    }

    /** Whether `dataOffset` sits one header past a minimum-block boundary. */
    predicate IsValidOffset(dataOffset: nat) {
      && dataOffset >= ALLOCATOR_HEADER_SIZE
      && dataOffset - ALLOCATOR_HEADER_SIZE < g.arena
      && Multiple(dataOffset - ALLOCATOR_HEADER_SIZE, g.Size(0))
    }

    /** The order a block's header claims, when it is one this arena could have produced. */
    function LiveOrder(arena: array<byte>, blockOffset: nat): Result<nat, Error>
      reads arena
    {
      var header := ReadHeader(arena, blockOffset);
      if header.None? then Err(Error.InvalidOffset)
      else if header.value.0 != MAGIC then Err(Error.NotAllocated)
      else if header.value.1 > g.top then Err(CorruptMetadata)
      else if !Multiple(blockOffset, g.Size(header.value.1)) then Err(CorruptMetadata)
      else Ok(header.value.1)
    }

    /** The list half of `alloc`: find a block, coalescing if that is what it takes, and split it
        down. It fails exactly when no aligned range of this order is wholly free. */
    method Carve(order: nat) returns (offset: Option<nat>)
      requires Valid() && order <= g.top
      modifies this
      ensures Valid()
      ensures offset.Some? <==> Room(g, old(live), order)
      ensures offset.None? ==> live == old(live)
      ensures offset.Some? ==>
                && IsBlock(g, Block(order, offset.value)) && FreeRange(g, LiveSet(old(live)), Block(order, offset.value))
                && offset.value !in old(live) && live == old(live)[offset.value := order]
    {
      var found := Find(order);
      if found.None? && needsCoalesce {
        CoalesceUntil(order);
        found := Find(order);
        if found.None? {
          needsCoalesce := false;
          NoHighPairs(g, free, order);
        }
      }
      if found.None? {
        NoRoom(g, free, live, order);
        return None;
      }
      var x := Take(found.value, order);
      HeldIsFree(g, free, live, Block(order, x));
      HeldGoesLive(g, free, live, Block(order, x));
      live := live[x := order];
      return Some(x);
    }

    /** Carve out a block for `size` bytes and stamp its header. */
    method Alloc(arena: array<byte>, size: nat) returns (r: Option<Allocation>)
      requires Valid()
      modifies this, arena
      ensures Valid()
      ensures r.Some? <==>
                && arena.Length == g.arena && 0 < size <= g.Size(g.top) - ALLOCATOR_HEADER_SIZE
                && Room(g, old(live), OrderFor(g, size + ALLOCATOR_HEADER_SIZE))
      ensures r.None? ==> live == old(live) && arena[..] == old(arena[..])
      ensures r.Some? ==>
                var order := OrderFor(g, size + ALLOCATOR_HEADER_SIZE);
                && Describes(g, order, size, r.value)
                && FreeRange(g, LiveSet(old(live)), Block(order, r.value.blockOffset))
                && r.value.blockOffset !in old(live) && live == old(live)[r.value.blockOffset := order]
                && ReadHeader(arena, r.value.blockOffset) == Some((MAGIC, order))
                && (forall i | 0 <= i < arena.Length && !(r.value.blockOffset <= i < r.value.dataOffset) ::
                      arena[i] == old(arena[i]))
                && (forall j: nat | j + 4 <= arena.Length && (j + 4 <= r.value.blockOffset || r.value.dataOffset <= j) ::
                      Word(arena, j) == old(Word(arena, j)))
      ensures r.None? ==> forall j: nat | j + 4 <= arena.Length :: Word(arena, j) == old(Word(arena, j))
      ensures old(Stamped(arena)) ==> Stamped(arena)
      ensures old(Clean(arena)) ==> Clean(arena)
      ensures old(Honest(arena)) ==> Honest(arena)
    {
      if arena.Length != g.arena || size == 0 || size > g.Size(g.top) - ALLOCATOR_HEADER_SIZE {
        return None;
      }
      var order := OrderFor(g, size + ALLOCATOR_HEADER_SIZE);
      OrderForSpec(g, size + ALLOCATOR_HEADER_SIZE);
      var offset := Carve(order);
      if offset.None? { return None; }
      StampBlock(arena, offset.value, order, old(live));
      return Some(Allocation(offset.value, offset.value + ALLOCATOR_HEADER_SIZE, size, g.Size(order) - ALLOCATOR_HEADER_SIZE));
    }

    /** Stamp the header of a block that has just joined the blocks of `before`. */
    method StampBlock(arena: array<byte>, x: nat, order: nat, ghost before: map<nat, nat>)
      requires Valid() && arena.Length == g.arena && order <= g.top && x !in before && live == before[x := order]
      requires IsBlock(g, Block(order, x)) && FreeRange(g, LiveSet(before), Block(order, x))
      modifies arena
      ensures ReadHeader(arena, x) == Some((MAGIC, order))
      ensures forall i | 0 <= i < arena.Length && !(x <= i < x + ALLOCATOR_HEADER_SIZE) :: arena[i] == old(arena[i])
      ensures forall j: nat | j + 4 <= arena.Length && (j + 4 <= x || x + ALLOCATOR_HEADER_SIZE <= j) ::
                Word(arena, j) == old(Word(arena, j))
      ensures old(StampedWith(arena, g, before)) ==> Stamped(arena)
      ensures old(CleanBut(arena, g, before)) ==> Clean(arena)
      ensures x + g.Size(order) <= g.arena && g.Size(order) > ALLOCATOR_HEADER_SIZE
    {
      hide Partitions, NoPairs, Word, Pow2, Tiles, LiveSet;
      EndsInside(g, Block(order, x));
      Pow2Monotone(g.shift, g.shift + order);
      WriteHeader(arena, x, order);
      ApartFromLive(g, before, Block(order, x));
      BoundariesApart(g, Block(order, x));
    }

    /** The block at `x` is live with this order, and the arena says so. */
    ghost predicate Known(arena: array<byte>, x: nat, order: nat)
      reads this, arena
    {
      Valid() && Stamped(arena) && x in live && live[x] == order
    }

    /** The arena shows exactly the live blocks: each is stamped and no other boundary is. */
    ghost predicate Honest(arena: array<byte>)
      reads this, arena
    {
      Valid() && Stamped(arena) && Clean(arena)
    }

    lemma HonestFacts(arena: array<byte>)
      requires Honest(arena)
      ensures Valid() && arena.Length == g.arena && g.Size(0) > ALLOCATOR_HEADER_SIZE
    {
    }

    lemma LiveFacts(arena: array<byte>, x: nat)
      requires Honest(arena) && x in live
      ensures Multiple(x, g.Size(0)) && live[x] <= g.top && x + g.Size(live[x]) <= g.arena && x + g.Size(0) <= g.arena
    {
      LiveIsValid(g, free, live, x);
      EndsInside(g, Block(live[x], x));
      Pow2Monotone(g.shift, g.shift + live[x]);
    }

    /** Two live blocks do not overlap. */
    lemma LiveApart(arena: array<byte>, x: nat, y: nat)
      requires Honest(arena) && x in live && y in live && x < y
      ensures x + g.Size(live[x]) <= y
    {
      var b, c := Block(live[x], x), Block(live[y], y);
      InLive(live, b);
      InLive(live, c);
      assert !Meets(g, b, c);
    }

    /** The first sixteen bytes of a live block are its own, and those of no other. */
    lemma LiveGap(arena: array<byte>, x: nat, y: nat)
      requires Honest(arena) && x in live && y in live
      ensures x + 16 <= g.arena && (x != y ==> x + 16 <= y || y + 16 <= x)
    {
      hide Honest, Valid, Pow2, Geometry.Size;
      LiveWidth(arena, x);
      LiveWidth(arena, y);
      if x < y { LiveApart(arena, x, y); }
      if y < x { LiveApart(arena, y, x); }
    }

    /** A live block is sixteen bytes or more away from every other block boundary. */
    lemma FarFrom(arena: array<byte>, y: nat, x: nat)
      requires Honest(arena) && y in live && Multiple(x, g.Size(0)) && x != y
      ensures x + 16 <= y || y + 16 <= x
    {
      LiveFacts(arena, y);
      Pow2AboveEight(g.shift);
      if x < y < x + g.Size(0) { MultiplesApart(x, y, g.Size(0)); }
      if y < x < y + g.Size(0) { MultiplesApart(y, x, g.Size(0)); }
    }

    lemma LiveWidth(arena: array<byte>, x: nat)
      requires Honest(arena) && x in live
      ensures g.Size(live[x]) >= g.Size(0) >= 16 && x + g.Size(live[x]) <= g.arena
    {
      LiveFacts(arena, x);
      Pow2Monotone(g.shift, g.shift + live[x]);
      Pow2AboveEight(g.shift);
    }

    lemma MinBlockInside(dataOffset: nat)
      requires Valid() && IsValidOffset(dataOffset)
      ensures dataOffset - ALLOCATOR_HEADER_SIZE + g.Size(0) <= g.arena && g.Size(0) >= 16
    {
      Pow2AboveEight(g.shift);
      EndsInside(g, Block(0, dataOffset - ALLOCATOR_HEADER_SIZE));
    }

    /** Clear a block's magic, then put it on its order's list. */
    method Retire(arena: array<byte>, blockOffset: nat, order: nat)
      requires blockOffset + ALLOCATOR_HEADER_SIZE <= arena.Length && order < |free| == g.top + 1
      modifies this, arena
      ensures Word(arena, blockOffset) == 0
      ensures forall i | 0 <= i < arena.Length && !(blockOffset <= i < blockOffset + 4) :: arena[i] == old(arena[i])
      ensures forall j: nat | j + 4 <= arena.Length && (j + 4 <= blockOffset || blockOffset + 4 <= j) ::
                Word(arena, j) == old(Word(arena, j))
      ensures free == old(free)[order := old(free)[order] + [blockOffset]]
      ensures needsCoalesce == (old(needsCoalesce) || order < g.top)
      ensures live == old(live) - {blockOffset}
    {
      ClearMagic(arena, blockOffset);
      free := free[order := free[order] + [blockOffset]];
      needsCoalesce := needsCoalesce || order < g.top;
      live := live - {blockOffset};
    }

    /** Retire a validated block; what that keeps when the block was live. */
    method Release(arena: array<byte>, blockOffset: nat, order: nat)
      requires blockOffset + ALLOCATOR_HEADER_SIZE <= arena.Length && order < |free| == g.top + 1
      modifies this, arena
      ensures Word(arena, blockOffset) == 0
      ensures forall i | 0 <= i < arena.Length && !(blockOffset <= i < blockOffset + 4) :: arena[i] == old(arena[i])
      ensures forall j: nat | j + 4 <= arena.Length && (j + 4 <= blockOffset || blockOffset + 4 <= j) ::
                Word(arena, j) == old(Word(arena, j))
      ensures free == old(free)[order := old(free)[order] + [blockOffset]]
      ensures needsCoalesce == (old(needsCoalesce) || order < g.top)
      ensures live == old(live) - {blockOffset}
      ensures old(Known(arena, blockOffset, order)) ==> Valid() && Stamped(arena)
      ensures old(Known(arena, blockOffset, order)) && old(Clean(arena)) ==> Clean(arena)
    {
      if Known(arena, blockOffset, order) {
        LiveIsBlock(g, free, live, blockOffset);
        ReleasedKeepsPartition(g, free, live, blockOffset);
        ReleasedKeepsHeaders(g, free, live, blockOffset);
        BoundariesApart(g, Block(order, blockOffset));
      }
      Retire(arena, blockOffset, order);
    }

    /** Return a block named only by the offset of its data, the way a peer reports a release.
        A refused free changes nothing. Over an honest arena exactly the live blocks can be freed. */
    method FreeAt(arena: array<byte>, dataOffset: nat) returns (r: Result<(), Error>)
      requires Valid()
      modifies this, arena
      ensures r.Ok? <==> arena.Length == g.arena && IsValidOffset(dataOffset)
                         && old(LiveOrder(arena, dataOffset - ALLOCATOR_HEADER_SIZE)).Ok?
      ensures r.Err? ==> unchanged(this) && arena[..] == old(arena[..])
      ensures r.Ok? ==> live == old(live) - {dataOffset - ALLOCATOR_HEADER_SIZE}
      ensures r.Ok? ==> forall i | 0 <= i < arena.Length && !(dataOffset - 8 <= i < dataOffset - 4) ::
                          arena[i] == old(arena[i])
      ensures forall j: nat | j + 4 <= arena.Length && (j + 12 <= dataOffset || dataOffset <= j + 4) ::
                Word(arena, j) == old(Word(arena, j))
      ensures old(Honest(arena)) ==>
                && Honest(arena)
                && (r.Ok? <==> dataOffset >= ALLOCATOR_HEADER_SIZE && dataOffset - ALLOCATOR_HEADER_SIZE in old(live))
                && (r.Err? ==> r.error == if IsValidOffset(dataOffset) then Error.NotAllocated else Error.InvalidOffset)
    {
      if arena.Length != g.arena { return Err(InvalidArenaSize); }
      if dataOffset >= ALLOCATOR_HEADER_SIZE && dataOffset - ALLOCATOR_HEADER_SIZE in live {
        LiveIsValid(g, free, live, dataOffset - ALLOCATOR_HEADER_SIZE);
      }
      if !IsValidOffset(dataOffset) { return Err(Error.InvalidOffset); }
      var blockOffset := dataOffset - ALLOCATOR_HEADER_SIZE;
      EndsInside(g, Block(0, blockOffset));
      var order := LiveOrder(arena, blockOffset);
      if order.Err? { return Err(order.error); }
      Release(arena, blockOffset, order.value);
      return Ok(());
    }

    /** Return a block described by the allocation the allocator handed out. A description whose
        capacity contradicts the block's header is refused, and a refusal changes nothing. */
    method Free(arena: array<byte>, allocation: Allocation) returns (r: Result<(), Error>)
      requires Valid()
      modifies this, arena
      ensures r.Err? ==> unchanged(this) && arena[..] == old(arena[..])
      ensures r.Ok? ==> live == old(live) - {allocation.blockOffset}
      ensures old(Honest(arena)) ==>
                && Honest(arena)
                && (r.Ok? <==>
                     && allocation.blockOffset in old(live) && allocation.len <= allocation.cap
                     && allocation.dataOffset == allocation.blockOffset + ALLOCATOR_HEADER_SIZE
                     && allocation.cap + ALLOCATOR_HEADER_SIZE == g.Size(old(live)[allocation.blockOffset]))
    {
      hide Pow2, OrderForCapacity, Multiple, Word;
      if arena.Length != g.arena { return Err(InvalidArenaSize); }
      if allocation.blockOffset in live {
        LiveIsValid(g, free, live, allocation.blockOffset);
        OrderForCapacitySpec(g, live[allocation.blockOffset]);
      }
      if || allocation.blockOffset >= g.arena
         || allocation.dataOffset != allocation.blockOffset + ALLOCATOR_HEADER_SIZE
         || allocation.dataOffset >= g.arena {
        return Err(Error.InvalidOffset);
      }
      if allocation.len > allocation.cap { return Err(CorruptMetadata); }
      var claimed := OrderForCapacity(g, allocation.cap);
      if claimed.None? { return Err(CorruptMetadata); }
      var order := LiveOrder(arena, allocation.blockOffset);
      if order.Err? { return Err(order.error); }
      if claimed.value != order.value { return Err(CorruptMetadata); }
      AlignedToMin(g, order.value, allocation.blockOffset);
      Release(arena, allocation.blockOffset, order.value);
      return Ok(());
    }

    /** Hand the whole arena back: the lists are rebuilt and the arena is not written. */
    method Reset(arena: array<byte>) returns (r: Result<(), Error>)
      requires Valid()
      modifies this
      ensures r == if arena.Length != g.arena then Err(InvalidArenaSize) else Ok(())
      ensures r.Err? ==> unchanged(this)
      ensures r.Ok? ==> Valid() && live == map[] && !needsCoalesce && forall o | 0 <= o < g.top :: free[o] == []
      ensures r.Ok? && old(live) == map[] && old(Clean(arena)) ==> Clean(arena)
    {
      if arena.Length != g.arena { return Err(InvalidArenaSize); }
      var top := TopList(g);
      free := seq(g.top + 1, o => if o == g.top then top else []);
      needsCoalesce := false;
      live := map[];
      FreshTiles(g, free);
      return Ok(());
    }

    constructor (g: Geometry, top: seq<nat>)
      requires g.Sound() && g.Size(0) > ALLOCATOR_HEADER_SIZE && g.top < TWO_32
      requires Distinct(top) && forall x: nat :: x in top <==> x < g.arena && Multiple(x, g.Size(g.top))
      ensures Valid() && live == map[] && this.g == g && !needsCoalesce
    {
      this.g := g;
      free := seq(g.top + 1, o => if o == g.top then top else []);
      needsCoalesce := false;
      live := map[];
      new;
      FreshTiles(g, free);
    }
  }

  /** Offsets of the top-order blocks, in order: the initial free list. */
  method TopList(g: Geometry) returns (top: seq<nat>)
    requires g.Sound()
    ensures Ascending(top) && forall x: nat :: x in top <==> x < g.arena && Multiple(x, g.Size(g.top))
  {
    top := [];
    var offset := 0;
    while offset < g.arena
      invariant offset <= g.arena && Multiple(offset, g.Size(g.top))
      invariant TopUpTo(top, offset, g.Size(g.top))
      decreases g.arena - offset
    {
      EndsInside(g, Block(g.top, offset));
      OneMoreTop(top, offset, g.Size(g.top));
      top := top + [offset];
      offset := offset + g.Size(g.top);
    }
  }

  ghost predicate TopUpTo(top: seq<nat>, end: nat, size: nat)
    requires size > 0
  {
    Ascending(top) && forall x: nat :: x in top <==> x < end && Multiple(x, size)
  }

  lemma OneMoreTop(top: seq<nat>, end: nat, size: nat)
    requires size > 0 && Multiple(end, size) && TopUpTo(top, end, size)
    ensures TopUpTo(top + [end], end + size, size) && Multiple(end + size, size)
  {
    forall x: nat | end <= x < end + size && Multiple(x, size) ensures x == end {
      MultiplesApart(end, x, size);
    }
    assert Multiple(end + size - size, size);
    assert forall i | 0 <= i < |top| :: top[i] in top;
  }

  /** The shift and the top order two block sizes stand for. */
  function GeometryOf(arenaSize: nat, minBlock: nat, maxBlock: nat): (g: Geometry)
    requires Log2(minBlock).Some? && Log2(maxBlock).Some? && 0 < minBlock <= maxBlock <= arenaSize
    requires arenaSize % maxBlock == 0 && maxBlock < TWO_64
    ensures g.Sound() && g.arena == arenaSize && g.Size(0) == minBlock && g.Size(g.top) == maxBlock && g.top < TWO_32
  {
    var lo, hi := Log2(minBlock).value, Log2(maxBlock).value;
    GeometryFacts(arenaSize, lo, hi);
    Geometry(arenaSize, lo, hi - lo)
  }

  lemma Pow2Of8()
    ensures Pow2(8) == 0x100
  {
  }

  lemma Pow2Of64()
    ensures Pow2(64) == TWO_64
  {
    hide Pow2;
    Pow2Of8();
    Pow2Add(8, 8);
    Pow2Add(16, 16);
    Pow2Add(32, 32);
  }

  lemma GeometryFacts(arenaSize: nat, lo: nat, hi: nat)
    requires Pow2(lo) <= Pow2(hi) <= arenaSize && arenaSize % Pow2(hi) == 0 && Pow2(hi) < TWO_64
    ensures lo <= hi < 64 && Multiple(arenaSize, Pow2(hi))
  {
    if hi < lo { Pow2Monotone(hi, lo); }
    Pow2Of64();
    if hi >= 64 { Pow2Monotone(64, hi); }
    MultipleIsMod(arenaSize, Pow2(hi));
  }

  /** Build an allocator over `arenaSize` bytes with blocks between `minBlock` and `maxBlock`. */
  method NewWithBlockSize(arenaSize: nat, minBlock: nat, maxBlock: nat) returns (r: Result<BuddyAllocator, Error>)
    requires maxBlock < TWO_64
    ensures r.Ok? <==>
              && Log2(minBlock).Some? && Log2(maxBlock).Some? && ALLOCATOR_HEADER_SIZE < minBlock <= maxBlock <= arenaSize
              && arenaSize % maxBlock == 0
    ensures r.Ok? ==> fresh(r.value) && r.value.Valid() && r.value.live == map[] && r.value.g.arena == arenaSize
    ensures r.Ok? ==> r.value.g == GeometryOf(arenaSize, minBlock, maxBlock)
  {
    if Log2(minBlock).None? || Log2(maxBlock).None? { return Err(BlockSizeNotPowerOfTwo); }
    if minBlock > maxBlock { return Err(InvalidBlockSizeOrder); }
    if minBlock <= ALLOCATOR_HEADER_SIZE { return Err(BlockTooSmallForHeader); }
    if arenaSize < maxBlock || arenaSize % maxBlock != 0 { return Err(InvalidArenaSize); }
    var g := GeometryOf(arenaSize, minBlock, maxBlock);
    var top := TopList(g);
    var allocator := new BuddyAllocator(g, top);
    return Ok(allocator);
  }

  /** `cur` has been taken off the free lists and not been handed out yet. */
  ghost predicate Holding(g: Geometry, free: seq<seq<nat>>, live: map<nat, nat>, cur: Block) {
    && g.Sound() && |free| == g.top + 1
    && (forall o | 0 <= o <= g.top :: Distinct(free[o]))
    && FreeSet(free) !! LiveSet(live)
    && cur !in FreeSet(free) && cur !in LiveSet(live)
    && Tiles(g, FreeSet(free) + LiveSet(live) + {cur})
  }

  lemma TakeStarts(g: Geometry, free: seq<seq<nat>>, live: map<nat, nat>, found: nat)
    requires g.Sound() && |free| == g.top + 1 && found <= g.top && free[found] != []
    requires (forall o | 0 <= o <= g.top :: Distinct(free[o])) && Partitions(g, free, live)
    ensures var n := |free[found]| - 1;
            var free' := free[found := free[found][..n]];
            && Holding(g, free', live, Block(found, free[found][n]))
            && (NoPairs(g, free) ==> NoPairs(g, free'))
  {
    var n := |free[found]| - 1;
    var free' := free[found := free[found][..n]];
    PopSpec(free, found);
    assert FreeSet(free') + LiveSet(live) + {Block(found, free[found][n])} == FreeSet(free) + LiveSet(live);
    if NoPairs(g, free) {
      forall o | 0 <= o < g.top ensures NoPairAt(g, free', o) {
        assert NoPairAt(g, free, o);
        assert forall y <- free'[o] :: y in free[o];
      }
    }
  }

  /** An upper half whose lower half is not free completes no pair. */
  lemma SplitAddsNoPair(g: Geometry, free: seq<seq<nat>>, f: nat, lower: nat)
    requires f < g.top < |free| && NoPairs(g, free) && lower !in free[f]
    requires Multiple(lower, g.Size(f + 1))
    ensures NoPairs(g, free[f := free[f] + [lower + g.Size(f)]])
  {
    var free' := free[f := free[f] + [lower + g.Size(f)]];
    HalvesAligned(lower, g.Size(f));
    forall o | 0 <= o < g.top ensures NoPairAt(g, free', o) {
      assert NoPairAt(g, free, o);
      if o == f {
        forall y <- free'[f] ensures !(Multiple(y, g.Size(f + 1)) && y + g.Size(f) in free'[f]) {
          if y in free[f] { assert y != lower; }
          else { assert y == lower + g.Size(f); }
        }
      }
    }
  }

  lemma TakeSplits(g: Geometry, free: seq<seq<nat>>, live: map<nat, nat>, f: nat, offset: nat)
    requires f < g.top && Holding(g, free, live, Block(f + 1, offset))
    ensures var free' := free[f := free[f] + [offset + g.Size(f)]];
            Holding(g, free', live, Block(f, offset)) && (NoPairs(g, free) ==> NoPairs(g, free'))
  {
    var cur, x := Block(f + 1, offset), offset + g.Size(f);
    var free' := free[f := free[f] + [x]];
    var all := FreeSet(free) + LiveSet(live) + {cur};
    SplitTiles(g, all, cur);
    PushSpec(free, f, x);
    InFree(free, Block(f, x));
    InFree(free, Lower(cur));
    assert all - {cur} + {Lower(cur), Upper(g, cur)} == FreeSet(free') + LiveSet(live) + {Lower(cur)};
    if NoPairs(g, free) {
      SplitAddsNoPair(g, free, f, offset);
    }
  }

  /** With nothing free at `order` or above and no buddies to merge below it, no aligned range of
      that order is wholly free. */
  lemma NoRoom(g: Geometry, free: seq<seq<nat>>, live: map<nat, nat>, order: nat)
    requires g.Sound() && |free| == g.top + 1 && order <= g.top && Partitions(g, free, live)
    requires forall o | order <= o <= g.top :: free[o] == []
    requires forall o | 0 <= o < order :: NoPairAt(g, free, o)
    ensures !Room(g, live, order)
  {
    forall b | b in FreeSet(free) ensures b.order < order { InFree(free, b); }
    forall b | BuddyPair(g, FreeSet(free), b) ensures b.order >= order { PairIsAt(g, free, b); }
    forall r: Block | r.order == order && IsBlock(g, r) ensures !FreeRange(g, LiveSet(live), r) {
      if FreeRange(g, LiveSet(live), r) { FreeRangeIsServed(g, FreeSet(free), LiveSet(live), r); }
    }
  }

  /** Some aligned range of this order touches no live block. */
  ghost predicate Room(g: Geometry, live: map<nat, nat>, order: nat) {
    exists r: Block :: r.order == order && IsBlock(g, r) && FreeRange(g, LiveSet(live), r)
  }

  /** A block held outside the lists touches no live one. */
  lemma HeldIsFree(g: Geometry, free: seq<seq<nat>>, live: map<nat, nat>, cur: Block)
    requires Holding(g, free, live, cur)
    ensures IsBlock(g, cur) && FreeRange(g, LiveSet(live), cur) && cur.offset !in live
  {
    assert cur in FreeSet(free) + LiveSet(live) + {cur};
    if cur.offset in live {
      InLive(live, Block(live[cur.offset], cur.offset));
      assert Meets(g, Block(live[cur.offset], cur.offset), cur);
    }
  }

  /** The xor scan over one order's sorted list: each adjacent pair whose exclusive or is the block
      size becomes an entry of the next order, the rest is compacted to the front and kept. */
  method MergeScan(g: Geometry, order: nat, sorted: seq<nat>, nextList: seq<nat>,
                   ghost lists: seq<seq<nat>>, ghost live: map<nat, nat>)
    returns (list: seq<nat>, merged: seq<nat>)
    requires Scannable(g, lists, live, order, sorted) && lists[order + 1] == nextList
    ensures var lists' := Rescanned(lists, order, list, merged);
            && Distinct(list) && Distinct(merged) && Partitions(g, lists', live) && NoPairAt(g, lists', order)
  {
    hide ScanInv, Partitions, NoPairAt, Xor, Geometry.Size;
    list, merged := sorted, nextList;
    var kept, i := 0, 0;
    ghost var front: seq<nat> := [];
    ScanStarts(g, lists, live, order, sorted);
    while i < |list|
      invariant kept <= i <= |list| == |sorted|
      invariant forall j | i <= j < |list| :: list[j] == sorted[j]
      invariant list[..kept] == front
      invariant ScanInv(g, lists, live, order, sorted, front, i, merged)
    {
      if i + 1 < |list| {
        var left := list[i];
        var right := list[i + 1];
        if Xor(left, g.Size(order)) == right {
          ScanMerges(g, lists, live, order, sorted, front, i, merged);
          merged := merged + [left];
          i := i + 2;
          continue;
        }
      }
      ScanKeeps(g, lists, live, order, sorted, front, i, merged);
      front := front + [list[i]];
      list := list[kept := list[i]];
      kept := kept + 1;
      i := i + 1;
    }
    list := list[..kept];
    ScanEnds(g, lists, live, order, sorted, front, merged);
  }

  /** The scan has kept `front`, moved `merged` to the next order and not yet seen `sorted[i..]`. */
  ghost predicate ScanInv(g: Geometry, lists: seq<seq<nat>>, live: map<nat, nat>, order: nat, sorted: seq<nat>,
                          front: seq<nat>, i: nat, merged: seq<nat>)
  {
    && order + 1 < |lists| && i <= |sorted|
    && Ascending(front + sorted[i..]) && Distinct(merged)
    && Partitions(g, Rescanned(lists, order, front + sorted[i..], merged), live)
    && (forall k | 0 <= k < |front| :: front[k] in sorted && Lonely(g, sorted, order, front[k]))
  }

  ghost function Rescanned(lists: seq<seq<nat>>, order: nat, list: seq<nat>, next: seq<nat>): seq<seq<nat>>
    requires order + 1 < |lists|
  {
    lists[order := list][order + 1 := next]
  }

  ghost predicate Partitions(g: Geometry, free: seq<seq<nat>>, live: map<nat, nat>) {
    FreeSet(free) !! LiveSet(live) && Tiles(g, FreeSet(free) + LiveSet(live))
  }

  /** The list the scan runs over holds blocks of its order only. */
  ghost predicate Scannable(g: Geometry, lists: seq<seq<nat>>, live: map<nat, nat>, order: nat, sorted: seq<nat>) {
    && g.Sound() && |lists| == g.top + 1 && order < g.top
    && lists[order] == sorted && Ascending(sorted) && Distinct(lists[order + 1])
    && Partitions(g, lists, live)
  }

  lemma ScanStarts(g: Geometry, lists: seq<seq<nat>>, live: map<nat, nat>, order: nat, sorted: seq<nat>)
    requires Scannable(g, lists, live, order, sorted)
    ensures ScanInv(g, lists, live, order, sorted, [], 0, lists[order + 1])
  {
    assert [] + sorted[0..] == sorted;
    assert Rescanned(lists, order, sorted, lists[order + 1]) == lists;
  }

  lemma ScanMerges(g: Geometry, lists: seq<seq<nat>>, live: map<nat, nat>, order: nat, sorted: seq<nat>,
                   front: seq<nat>, i: nat, merged: seq<nat>)
    requires Scannable(g, lists, live, order, sorted)
    requires ScanInv(g, lists, live, order, sorted, front, i, merged)
    requires i + 1 < |sorted| && Xor(sorted[i], g.Size(order)) == sorted[i + 1]
    ensures ScanInv(g, lists, live, order, sorted, front, i + 2, merged + [sorted[i]])
  {
    var cur := Rescanned(lists, order, front + sorted[i..], merged);
    Regroup(front, sorted, i);
    MergeStep(g, cur, live, order, front, sorted[i], sorted[i + 1], sorted[i + 2..]);
    assert cur[order := front + sorted[i + 2..]][order + 1 := merged + [sorted[i]]]
        == Rescanned(lists, order, front + sorted[i + 2..], merged + [sorted[i]]);
  }

  lemma ScanKeeps(g: Geometry, lists: seq<seq<nat>>, live: map<nat, nat>, order: nat, sorted: seq<nat>,
                  front: seq<nat>, i: nat, merged: seq<nat>)
    requires Scannable(g, lists, live, order, sorted)
    requires ScanInv(g, lists, live, order, sorted, front, i, merged)
    requires i < |sorted| && (i + 1 < |sorted| ==> Xor(sorted[i], g.Size(order)) != sorted[i + 1])
    ensures ScanInv(g, lists, live, order, sorted, front + [sorted[i]], i + 1, merged)
  {
    Regroup(front, sorted, i);
    AllBlocks(g, lists, live, order);
    KeepStep(g, sorted, order, i);
  }

  lemma ScanEnds(g: Geometry, lists: seq<seq<nat>>, live: map<nat, nat>, order: nat, sorted: seq<nat>,
                 front: seq<nat>, merged: seq<nat>)
    requires ScanInv(g, lists, live, order, sorted, front, |sorted|, merged)
    ensures var lists' := Rescanned(lists, order, front, merged);
            && Distinct(front) && Distinct(merged) && Partitions(g, lists', live) && NoPairAt(g, lists', order)
  {
    assert front + sorted[|sorted|..] == front;
    LonelyLists(g, sorted, order, Rescanned(lists, order, front, merged));
  }

  lemma AllBlocks(g: Geometry, free: seq<seq<nat>>, live: map<nat, nat>, order: nat)
    requires Tiles(g, FreeSet(free) + LiveSet(live)) && order < |free|
    ensures forall x <- free[order] :: IsBlock(g, Block(order, x))
  {
    forall x <- free[order] ensures IsBlock(g, Block(order, x)) {
      InFree(free, Block(order, x));
    }
  }

  /** An entry and its larger xor are the halves of a block of the next order. */
  lemma XorPair(g: Geometry, order: nat, left: nat, right: nat)
    requires Multiple(left, g.Size(order)) && Xor(left, g.Size(order)) == right && left < right
    ensures right == left + g.Size(order) && Multiple(left, g.Size(order + 1))
  {
    XorIsBuddy(left, g.shift + order);
  }

  /** The scan merges exactly buddies: the partition survives. */
  lemma MergeStep(g: Geometry, free: seq<seq<nat>>, live: map<nat, nat>, order: nat,
                  a: seq<nat>, left: nat, right: nat, b: seq<nat>)
    requires g.Sound() && |free| == g.top + 1 && order < g.top
    requires free[order] == a + [left, right] + b && Ascending(free[order]) && Distinct(free[order + 1])
    requires FreeSet(free) !! LiveSet(live) && Tiles(g, FreeSet(free) + LiveSet(live))
    requires Xor(left, g.Size(order)) == right
    ensures var free' := free[order := a + b][order + 1 := free[order + 1] + [left]];
            && Ascending(free'[order]) && Distinct(free'[order + 1])
            && FreeSet(free') !! LiveSet(live) && Tiles(g, FreeSet(free') + LiveSet(live))
  {
    hide Tiles, Pow2, FreeSet, LiveSet, Xor, Multiple;
    var lo, up, merged := Block(order, left), Block(order, right), Block(order + 1, left);
    AllBlocks(g, free, live, order);
    assert free[order][|a|] == left && free[order][|a| + 1] == right;
    XorPair(g, order, left, right);
    InFree(free, lo);
    InFree(free, up);
    InFree(free, merged);
    MergeTiles(g, FreeSet(free) + LiveSet(live), lo);
    MergeLists(free, order, a, left, right, b);
    assert FreeSet(free) - {lo, up} + {merged} + LiveSet(live) == FreeSet(free) + LiveSet(live) - {lo, up} + {merged};
  }

  /** `x` is no lower half of a buddy pair of the list. */
  ghost predicate Lonely(g: Geometry, list: seq<nat>, order: nat, x: nat) {
    !(Multiple(x, g.Size(order + 1)) && x + g.Size(order) in list)
  }

  lemma LonelyLists(g: Geometry, sorted: seq<nat>, order: nat, free: seq<seq<nat>>)
    requires order < |free|
    requires forall k | 0 <= k < |free[order]| :: free[order][k] in sorted && Lonely(g, sorted, order, free[order][k])
    ensures NoPairAt(g, free, order)
  {
  }

  lemma Regroup(front: seq<nat>, s: seq<nat>, i: nat)
    requires i < |s|
    ensures front + s[i..] == front + [s[i]] + s[i + 1..]
    ensures i + 1 < |s| ==> front + s[i..] == front + [s[i], s[i + 1]] + s[i + 2..]
  {
  }

  /** An entry the scan keeps has no buddy anywhere in the list. */
  lemma KeepStep(g: Geometry, sorted: seq<nat>, order: nat, i: nat)
    requires i < |sorted| && Ascending(sorted) && (forall x <- sorted :: Multiple(x, g.Size(order)))
    requires i + 1 < |sorted| ==> Xor(sorted[i], g.Size(order)) != sorted[i + 1]
    ensures Lonely(g, sorted, order, sorted[i])
  {
    assert sorted[i] in sorted;
    XorIsBuddy(sorted[i], g.shift + order);
    if Multiple(sorted[i], g.Size(order + 1)) && sorted[i] + g.Size(order) in sorted {
      AdjacentBuddies(g, sorted, order, i);
    }
  }

  /** In a sorted list of blocks of one order, the buddy of a lower half is the next entry. */
  lemma AdjacentBuddies(g: Geometry, sorted: seq<nat>, order: nat, i: nat)
    requires i < |sorted| && Ascending(sorted) && (forall x <- sorted :: Multiple(x, g.Size(order)))
    requires sorted[i] + g.Size(order) in sorted
    ensures i + 1 < |sorted| && sorted[i + 1] == sorted[i] + g.Size(order)
  {
    var j :| 0 <= j < |sorted| && sorted[j] == sorted[i] + g.Size(order);
    assert j > i;
    if j > i + 1 {
      MultiplesApart(sorted[i], sorted[i + 1], g.Size(order));
    }
  }

  /** Order of the smallest block that holds `bytes`. */
  function OrderFor(g: Geometry, bytes: nat): nat {
    if bytes <= g.Size(0) then 0 else BitsExceed(g.shift, bytes); BitLen(bytes - 1) - g.shift
  }

  lemma BitsExceed(shift: nat, bytes: nat)
    requires bytes > Pow2(shift)
    ensures BitLen(bytes - 1) > shift
  {
    BitLenBounds(bytes - 1);
    if BitLen(bytes - 1) <= shift { Pow2Monotone(BitLen(bytes - 1), shift); }
  }

  /** `OrderFor` is the least order whose block holds `bytes`. */
  lemma OrderForSpec(g: Geometry, bytes: nat)
    requires bytes <= g.Size(g.top)
    ensures OrderFor(g, bytes) <= g.top
    ensures bytes <= g.Size(OrderFor(g, bytes))
    ensures forall o: nat | o < OrderFor(g, bytes) :: g.Size(o) < bytes
  {
    if bytes > g.Size(0) {
      BitsExceed(g.shift, bytes);
      BitLenBounds(bytes - 1);
      BitLenMonotone(bytes - 1, g.shift + g.top);
      forall o: nat | o < OrderFor(g, bytes) ensures g.Size(o) < bytes {
        Pow2Monotone(g.shift + o, BitLen(bytes - 1) - 1);
      }
    }
  }

  /** The order an allocation's capacity implies, or `None` when no block has that capacity. */
  function OrderForCapacity(g: Geometry, cap: nat): (r: Option<nat>)
    ensures r.Some? ==> r.value <= g.top && g.Size(r.value) == cap + ALLOCATOR_HEADER_SIZE
  {
    var blockSize := cap + ALLOCATOR_HEADER_SIZE;
    var k := Log2(blockSize);
    if k.None? || blockSize < g.Size(0) || blockSize > g.Size(g.top) then None
    else Pow2Between(g, k.value); Some(k.value - g.shift)
  }

  lemma Pow2Between(g: Geometry, k: nat)
    requires g.Size(0) <= Pow2(k) <= g.Size(g.top)
    ensures g.shift <= k <= g.shift + g.top
  {
    if k < g.shift { Pow2Monotone(k, g.shift); }
    if k > g.shift + g.top { Pow2Monotone(g.shift + g.top, k); }
  }

  lemma OrderForCapacitySpec(g: Geometry, order: nat)
    requires order <= g.top && g.Size(0) > ALLOCATOR_HEADER_SIZE
    ensures g.Size(order) > ALLOCATOR_HEADER_SIZE
    ensures OrderForCapacity(g, g.Size(order) - ALLOCATOR_HEADER_SIZE) == Some(order)
    ensures forall o: nat | o <= g.top && g.Size(o) == g.Size(order) :: o == order
  {
    Pow2Monotone(g.shift, g.shift + order);
    Pow2Monotone(g.shift + order, g.shift + g.top);
    Log2OfPow2(g.shift + order);
    forall o: nat | o <= g.top && g.Size(o) == g.Size(order) ensures o == order {
      Log2OfPow2(g.shift + o);
    }
  }

  /** The allocation names a block of this order inside the arena, with room for `size`. */
  ghost predicate Describes(g: Geometry, order: nat, size: nat, a: Allocation) {
    && IsBlock(g, Block(order, a.blockOffset))
    && a.dataOffset == a.blockOffset + ALLOCATOR_HEADER_SIZE
    && a.len == size <= a.cap
    && a.cap + ALLOCATOR_HEADER_SIZE == g.Size(order)
    && a.dataOffset + a.cap <= g.arena
  }

  /** A freshly carved arena: one free block per top-order boundary. */
  lemma FreshTiles(g: Geometry, free: seq<seq<nat>>)
    requires g.Sound() && |free| == g.top + 1
    requires forall o | 0 <= o < g.top :: free[o] == []
    requires forall x: nat :: x in free[g.top] <==> x < g.arena && Multiple(x, g.Size(g.top))
    ensures Partitions(g, free, map[]) && NoPairs(g, free)
  {
    TopTiles(g, free);
    assert LiveSet(map[]) == {};
    assert FreeSet(free) + LiveSet(map[]) == FreeSet(free);
  }

  /** With nothing free at `order` or above there are no pairs there either. */
  lemma NoHighPairs(g: Geometry, free: seq<seq<nat>>, order: nat)
    requires |free| == g.top + 1
    requires forall o | order <= o <= g.top :: free[o] == []
    requires forall o | 0 <= o < order :: NoPairAt(g, free, o)
    ensures NoPairs(g, free)
  {
  }

  lemma HeldGoesLive(g: Geometry, free: seq<seq<nat>>, live: map<nat, nat>, cur: Block)
    requires Holding(g, free, live, cur) && cur.offset !in live
    ensures Partitions(g, free, live[cur.offset := cur.order])
  {
    LiveAddSpec(live, cur.offset, cur.order);
    assert FreeSet(free) + LiveSet(live[cur.offset := cur.order]) == FreeSet(free) + LiveSet(live) + {cur};
  }

  /** The header of a live block lies clear of a block that does not meet it. */
  lemma ApartFromLive(g: Geometry, live: map<nat, nat>, cur: Block)
    requires FreeRange(g, LiveSet(live), cur) && g.Size(0) > ALLOCATOR_HEADER_SIZE
    ensures forall x <- live :: x + ALLOCATOR_HEADER_SIZE <= cur.offset || cur.offset + ALLOCATOR_HEADER_SIZE <= x
  {
    forall x <- live ensures x + ALLOCATOR_HEADER_SIZE <= cur.offset || cur.offset + ALLOCATOR_HEADER_SIZE <= x {
      InLive(live, Block(live[x], x));
      Pow2Monotone(g.shift, g.shift + live[x]);
      Pow2Monotone(g.shift, g.shift + cur.order);
    }
  }

  lemma {:induction false} AlignedToMin(g: Geometry, order: nat, x: nat)
    requires Multiple(x, g.Size(order))
    ensures Multiple(x, g.Size(0))
    decreases order
  {
    if order > 0 {
      HalvesAligned(x, g.Size(order - 1));
      AlignedToMin(g, order - 1, x);
    }
  }

  /** Every other block boundary is more than a header away from a block's own. */
  lemma BoundariesApart(g: Geometry, b: Block)
    requires IsBlock(g, b) && g.Size(0) > ALLOCATOR_HEADER_SIZE
    ensures Multiple(b.offset, g.Size(0))
    ensures forall x: nat | Multiple(x, g.Size(0)) && x != b.offset ::
              x + ALLOCATOR_HEADER_SIZE <= b.offset || b.offset + ALLOCATOR_HEADER_SIZE <= x
  {
    var at := b.offset;
    AlignedToMin(g, b.order, at);
    forall x: nat | Multiple(x, g.Size(0)) && x != at
      ensures x + ALLOCATOR_HEADER_SIZE <= at || at + ALLOCATOR_HEADER_SIZE <= x
    {
      if x < at < x + g.Size(0) { MultiplesApart(x, at, g.Size(0)); }
      if at < x < at + g.Size(0) { MultiplesApart(at, x, g.Size(0)); }
    }
  }

  lemma LiveIsValid(g: Geometry, free: seq<seq<nat>>, live: map<nat, nat>, x: nat)
    requires Partitions(g, free, live) && g.Sound() && x in live && g.Size(0) > ALLOCATOR_HEADER_SIZE
    ensures IsBlock(g, Block(live[x], x)) && Multiple(x, g.Size(0)) && x + ALLOCATOR_HEADER_SIZE < g.arena
  {
    LiveIsBlock(g, free, live, x);
    EndsInside(g, Block(live[x], x));
    Pow2Monotone(g.shift, g.shift + live[x]);
    AlignedToMin(g, live[x], x);
  }

  lemma LiveIsBlock(g: Geometry, free: seq<seq<nat>>, live: map<nat, nat>, x: nat)
    requires Partitions(g, free, live) && x in live
    ensures IsBlock(g, Block(live[x], x))
  {
    InLive(live, Block(live[x], x));
  }

  lemma ReleasedKeepsPartition(g: Geometry, free: seq<seq<nat>>, live: map<nat, nat>, x: nat)
    requires Partitions(g, free, live) && x in live && |free| == g.top + 1 && live[x] <= g.top
    requires forall o | 0 <= o <= g.top :: Distinct(free[o])
    ensures var free' := free[live[x] := free[live[x]] + [x]];
            && Partitions(g, free', live - {x})
            && (forall o | 0 <= o <= g.top :: Distinct(free'[o]))
            && (live[x] == g.top && NoPairs(g, free) ==> NoPairs(g, free'))
  {
    var free' := free[live[x] := free[live[x]] + [x]];
    PushSpec(free, live[x], x);
    LiveRemoveSpec(live, x);
    InLive(live, Block(live[x], x));
    InFree(free, Block(live[x], x));
    assert FreeSet(free') + LiveSet(live - {x}) == FreeSet(free) + LiveSet(live);
    if live[x] == g.top && NoPairs(g, free) {
      forall o | 0 <= o < g.top ensures NoPairAt(g, free', o) { assert NoPairAt(g, free, o); }
    }
  }

  lemma ReleasedKeepsHeaders(g: Geometry, free: seq<seq<nat>>, live: map<nat, nat>, x: nat)
    requires Partitions(g, free, live) && x in live && g.Size(0) > ALLOCATOR_HEADER_SIZE
    ensures forall y <- live | y != x :: y + ALLOCATOR_HEADER_SIZE <= x || x + ALLOCATOR_HEADER_SIZE <= y
  {
    var rest := live - {x};
    LiveRemoveSpec(live, x);
    InLive(live, Block(live[x], x));
    ApartFromLive(g, rest, Block(live[x], x));
    forall y <- live | y != x ensures y + ALLOCATOR_HEADER_SIZE <= x || x + ALLOCATOR_HEADER_SIZE <= y {
      assert y in rest;
    }
  }
}
