/** A shared region of src/v5/region.rs: a buddy allocator over an arena, a buffer header
    `[offset:8][next:8][len:4][cap:4]` at the start of every block's data, a count of the blocks
    handed out, and a lazy reset after the region's pages have been handed back. */
module Region {
  import opened Common
  import opened Wrappers
  import opened BlockMath
  import opened Tiling
  import opened FreeLists
  import opened Arena
  import opened Buddy

  /** The `offset` field of the buffer header at `at`, as its low and high words. */
  function OffsetField(a: array<byte>, at: nat): (nat, nat)
    requires at + 8 <= a.Length
    reads a
  {
    (Word(a, at), Word(a, at + 4))
  }

  /** A global offset as low and high words; these are never negative here. */
  function Split(v: nat): (nat, nat) {
    (v % TWO_32, v / TWO_32)
  }

  const ZERO := (0, 0)

  function SaturatingSub(a: nat, b: nat): nat {
    if a >= b then a - b else 0
  }

  lemma ZeroWord(a: array<byte>, at: nat)
    requires at + 4 <= a.Length
    ensures Word(a, at) == 0 <==> forall i | at <= i < at + 4 :: a[i] == 0
  {
  }

  lemma ZeroField(a: array<byte>, at: nat)
    requires at + 8 <= a.Length
    ensures OffsetField(a, at) == ZERO <==> forall i | at <= i < at + 8 :: a[i] == 0
  {
    hide Word;
    ZeroWord(a, at);
    ZeroWord(a, at + 4);
  }

  /** The buffer header at `x` names its own global offset. */
  predicate Names(a: array<byte>, offset: nat, x: nat)
    reads a
  {
    x + 16 <= a.Length && OffsetField(a, x + ALLOCATOR_HEADER_SIZE) == Split(offset + x + ALLOCATOR_HEADER_SIZE)
  }

  /** Every block of `live` has room for both headers. */
  ghost predicate WideWith(g: Geometry, live: map<nat, nat>) {
    forall x <- live :: g.Size(live[x]) >= 32
  }

  lemma WideStays(g: Geometry, before: map<nat, nat>, x: nat, order: nat)
    requires WideWith(g, before) && g.Size(order) >= 32
    ensures WideWith(g, before[x := order])
  {
  }

  class SharedRegion {
    const offset: nat
    const allocator: BuddyAllocator
    const arena: array<byte>
    /** Blocks handed out and not yet released. */
    var allocs: nat
    /** When the allocator was last built over this range; zero before first use and after a punch. */
    var activatedAt: int
    /** A punch has retired the free lists. */
    var stale: bool

    /** The arena shows exactly the live blocks, the count is their number, a live block's buffer
        header names its own global offset, and an inactive region has none. */
    ghost predicate Valid()
      reads this, allocator, arena
    {
      && allocator.Honest(arena)
      && arena.Length == allocator.g.arena
      && Wide()
      && arena.Length < TWO_32 && offset + arena.Length < TWO_64
      && allocs == |allocator.live|
      && (activatedAt == 0 ==> allocator.live == map[])
      && Named()
    }

    /** Every block handed out has room for both headers, even where the smallest block has not. */
    ghost predicate Wide()
      reads allocator
    {
      WideWith(allocator.g, allocator.live)
    }

    ghost predicate Named()
      reads allocator, arena
    {
      forall x <- allocator.live :: Names(arena, offset, x)
    }

    ghost predicate NamedBut(x: nat)
      reads allocator, arena
    {
      forall y <- allocator.live | y != x :: Names(arena, offset, y)
    }

    /** `Valid`, but for the name in the buffer header at `x`. */
    ghost predicate ValidBut(x: nat)
      reads this, allocator, arena
    {
      && allocator.Honest(arena)
      && arena.Length == allocator.g.arena
      && Wide()
      && arena.Length < TWO_32 && offset + arena.Length < TWO_64
      && allocs == |allocator.live|
      && (activatedAt == 0 ==> allocator.live == map[])
      && NamedBut(x)
    }

    /** A block in use has its data at this global offset. */
    ghost predicate InUse(globalOffset: int)
      reads this, allocator
    {
      globalOffset >= offset + ALLOCATOR_HEADER_SIZE && globalOffset - offset - ALLOCATOR_HEADER_SIZE in allocator.live
    }

    constructor (allocator: BuddyAllocator, arena: array<byte>, offset: nat)
      requires allocator.Valid() && allocator.live == map[]
      requires arena.Length == allocator.g.arena < TWO_32 && offset + arena.Length < TWO_64
      requires forall i | 0 <= i < arena.Length :: arena[i] == 0
      ensures Valid() && this.allocator == allocator && this.arena == arena && this.offset == offset
      ensures allocs == 0 && activatedAt == 0 && !stale
    {
      this.allocator := allocator;
      this.arena := arena;
      this.offset := offset;
      allocs, activatedAt, stale := 0, 0, false;
    }

    /** Rebuild the lists a punch retired. Only an inactive region does this, and it has no block
        in use. */
    method Activate(now: int)
      requires Valid() && now > 0
      modifies this, allocator
      ensures Valid() && activatedAt != 0 && allocator.live == old(allocator.live)
    {
      if activatedAt == 0 {
        if stale {
          var r := allocator.Reset(arena);
          stale := false;
        }
        allocs := 0;
        activatedAt := now;
      }
    }

    /** The range of a word of the buffer header at `x` is clear of every other block's headers: the
        name lies inside the smallest block, the rest inside the block if it is live. */
    lemma HeaderIsClear(x: nat, at: nat)
      requires ValidBut(x) && Multiple(x, allocator.g.Size(0)) && InHeader(x, at)
      ensures forall y <- allocator.live :: y + 16 <= arena.Length && (y == x || y + 16 <= x || at + 4 <= y)
      ensures forall y: nat | Multiple(y, allocator.g.Size(0)) && y != at :: y + 4 <= at || at + 4 <= y
      ensures Multiple(at, allocator.g.Size(0)) ==> at == x + 16
    {
      hide BuddyAllocator.Honest, BuddyAllocator.Valid, Word, Pow2;
      var s := allocator.g.Size(0);
      allocator.HonestFacts(arena);
      Pow2AboveEight(allocator.g.shift);
      forall y <- allocator.live ensures y + 16 <= arena.Length && (y == x || y + 16 <= x || at + 4 <= y) {
        allocator.LiveFacts(arena, y);
        allocator.LiveGap(arena, y, y);
        if y != x { BoundaryGap(x, y, s); }
        if x < y && at + 4 > x + 16 { allocator.LiveApart(arena, x, y); }
      }
      forall y: nat | Multiple(y, s) && y != at ensures y + 4 <= at || at + 4 <= y {
        InnerBoundary(x, y, s);
      }
      if Multiple(at, s) { InnerBoundary(x, at, s); }
    }

    /** A word of the buffer header behind the boundary `x`: the name, or any word if `x` is live. */
    ghost predicate InHeader(x: nat, at: nat)
      reads allocator, arena
    {
      && (at == x + 8 || at == x + 12 || at == x + 16 || at == x + 20 || at == x + 24 || at == x + 28)
      && at + 4 <= arena.Length && (at >= x + 16 ==> x in allocator.live)
    }

    /** Write one word of a buffer header: no allocator header is hidden or forged, and no other block
        loses its name. A third word may be a block boundary, and must not look like a header. */
    method WriteHeaderWord(x: nat, at: nat, w: nat)
      requires ValidBut(x) && Multiple(x, allocator.g.Size(0)) && InHeader(x, at) && w < TWO_32
      requires at == x + 16 ==> w != MAGIC
      modifies arena
      ensures ValidBut(x) && Word(arena, at) == w
      ensures forall i | 0 <= i < arena.Length && !(at <= i < at + 4) :: arena[i] == old(arena[i])
      ensures forall j: nat | j + 4 <= arena.Length && (j + 4 <= at || at + 4 <= j) :: Word(arena, j) == old(Word(arena, j))
    {
      hide BuddyAllocator.Valid, Pow2, Word, WideWith;
      HeaderIsClear(x, at);
      ghost var g := allocator.g;
      WriteWord(arena, at, w);
      forall y <- allocator.live
        ensures ReadHeader(arena, y) == Some((MAGIC, allocator.live[y])) && (y != x ==> Names(arena, offset, y))
      {
        assert old(ReadHeader(arena, y)) == Some((MAGIC, allocator.live[y]));
        assert y != x ==> old(Names(arena, offset, y));
      }
      forall y: nat | Multiple(y, g.Size(0)) && y + ALLOCATOR_HEADER_SIZE <= arena.Length && Word(arena, y) == MAGIC
        ensures y in allocator.live
      {
        assert old(Word(arena, y)) == MAGIC;
      }
    }

    /** Store the `offset` field of the buffer header behind the block boundary `x`. */
    method WriteName(x: nat, v: nat)
      requires ValidBut(x) && Multiple(x, allocator.g.Size(0)) && x + 16 <= arena.Length && v < TWO_64
      modifies arena
      ensures ValidBut(x) && OffsetField(arena, x + ALLOCATOR_HEADER_SIZE) == Split(v)
      ensures forall i | 0 <= i < arena.Length && !(x + 8 <= i < x + 16) :: arena[i] == old(arena[i])
    {
      hide BuddyAllocator.Honest, BuddyAllocator.Valid, Pow2, Word, ValidBut;
      WriteHeaderWord(x, x + 8, v % TWO_32);
      WriteHeaderWord(x, x + 12, v / TWO_32);
    }

    /** Zero the `offset` field of the buffer header behind the block boundary `x`. */
    method ClearName(x: nat)
      requires Valid() && Multiple(x, allocator.g.Size(0)) && x + 16 <= arena.Length
      modifies arena
      ensures ValidBut(x)
      ensures x !in allocator.live ==> Valid()
      ensures arena[..] == old(arena[..]) <==> old(OffsetField(arena, x + ALLOCATOR_HEADER_SIZE)) == ZERO
    {
      hide BuddyAllocator.Honest, BuddyAllocator.Valid, Pow2, Word, OffsetField;
      ZeroField(arena, x + ALLOCATOR_HEADER_SIZE);
      ghost var was := arena[..];
      WriteName(x, 0);
      ZeroField(arena, x + ALLOCATOR_HEADER_SIZE);
      NameZeroed(was, arena[..], x + ALLOCATOR_HEADER_SIZE);
    }

    /** Fill in the buffer header of a block just handed out: its own offset, no next block, the
        payload length and the room behind the header. */
    method StampBuffer(x: nat, len: nat, cap: nat)
      requires ValidBut(x) && x in allocator.live && len < TWO_32 && cap < TWO_32
      modifies arena
      ensures Valid()
      ensures Names(arena, offset, x) && x + 32 <= arena.Length && OffsetField(arena, x + 16) == ZERO
      ensures Word(arena, x + 24) == len && Word(arena, x + 28) == cap
      ensures forall i | 0 <= i < arena.Length && !(x + 8 <= i < x + 32) :: arena[i] == old(arena[i])
    {
      hide BuddyAllocator.Honest, BuddyAllocator.Valid, Word, Pow2, WideWith, Geometry.Size, Multiple;
      LiveHasRoom(x);
      WriteName(x, offset + x + ALLOCATOR_HEADER_SIZE);
      StampWords(x, len, cap);
      assert Names(arena, offset, x);
    }

    /** The words behind the name: no next block, the length and the room. */
    method StampWords(x: nat, len: nat, cap: nat)
      requires ValidBut(x) && x in allocator.live && x + 32 <= arena.Length && Multiple(x, allocator.g.Size(0))
      requires len < TWO_32 && cap < TWO_32
      modifies arena
      ensures ValidBut(x) && OffsetField(arena, x + 8) == old(OffsetField(arena, x + 8))
      ensures OffsetField(arena, x + 16) == ZERO && Word(arena, x + 24) == len && Word(arena, x + 28) == cap
      ensures forall i | 0 <= i < arena.Length && !(x + 16 <= i < x + 32) :: arena[i] == old(arena[i])
    {
      hide ValidBut, Word, Pow2, Geometry.Size, Multiple;
      WriteHeaderWord(x, x + 16, 0);
      WriteHeaderWord(x, x + 20, 0);
      WriteHeaderWord(x, x + 24, len);
      WriteHeaderWord(x, x + 28, cap);
    }

    lemma LiveHasRoom(x: nat)
      requires ValidBut(x) && x in allocator.live
      ensures x + 32 <= arena.Length && Multiple(x, allocator.g.Size(0))
    {
      hide BuddyAllocator.Honest, BuddyAllocator.Valid, Word, Pow2;
      allocator.LiveFacts(arena, x);
      assert allocator.g.Size(allocator.live[x]) >= 32;
    }

    /** Block `x` has been handed out for `size` payload bytes, on top of the blocks of `before`: it
        met none of them, its header and room lie inside it, and its buffer header says so. */
    ghost predicate Handed(before: map<nat, nat>, x: nat, size: nat)
      reads this, allocator, arena
    {
      && Joined(before, x, size)
      && Names(arena, offset, x) && x + 32 <= arena.Length && OffsetField(arena, x + 16) == ZERO
      && Word(arena, x + 24) == size && Word(arena, x + 28) + 32 == allocator.g.Size(allocator.live[x])
    }

    /** Some request of this size can be served. */
    ghost predicate CanServe(size: nat)
      reads this, allocator
    {
      && BUFFER_HEADER_SIZE + size <= allocator.g.Size(allocator.g.top) - ALLOCATOR_HEADER_SIZE
      && Room(allocator.g, allocator.live, OrderFor(allocator.g, BUFFER_HEADER_SIZE + size + ALLOCATOR_HEADER_SIZE))
    }

    /** Allocate a block with room for `size` payload bytes and stamp its buffer header. It fails
        exactly when the size is past the largest block or no aligned range is free for it. */
    method Alloc(size: nat, now: int) returns (r: Option<nat>)
      requires Valid() && now > 0
      modifies this, allocator, arena
      ensures Valid()
      ensures r.Some? <==> old(CanServe(size))
      ensures r.None? ==> allocator.live == old(allocator.live)
      ensures r.Some? ==>
                && r.value >= offset + ALLOCATOR_HEADER_SIZE
                && Handed(old(allocator.live), r.value - offset - ALLOCATOR_HEADER_SIZE, size)
    {
      hide BuddyAllocator.Honest, BuddyAllocator.Valid, Word, Pow2, Handed;
      Activate(now);
      var x := AllocActive(size);
      if x.None? { return None; }
      return Some(offset + x.value + ALLOCATOR_HEADER_SIZE);
    }

    /** Block `x` of the order `size` needs has joined the blocks of `before`. */
    ghost predicate Joined(before: map<nat, nat>, x: nat, size: nat)
      reads this, allocator
    {
      var g := allocator.g;
      var order := OrderFor(g, BUFFER_HEADER_SIZE + size + ALLOCATOR_HEADER_SIZE);
      && x !in before && allocator.live == before[x := order]
      && FreeRange(g, LiveSet(before), Block(order, x))
      && 32 + size <= g.Size(order) && x + g.Size(order) <= arena.Length
    }

    /** Every byte, and every word, outside the first eight bytes of block `x` is as it was. */
    twostate predicate OutsideKept(x: nat)
      reads arena
    {
      && (forall i | 0 <= i < arena.Length && !(x <= i < x + 8) :: arena[i] == old(arena[i]))
      && (forall j: nat | j + 4 <= arena.Length && (j + 4 <= x || x + 8 <= j) :: Word(arena, j) == old(Word(arena, j)))
    }

    /** The allocator's half of an allocation. No block loses its name. */
    method CarveBlock(size: nat) returns (r: Option<Allocation>)
      requires Valid() && activatedAt != 0
      modifies allocator, arena
      ensures r.Some? <==> old(CanServe(size))
      ensures allocator.Honest(arena)
      ensures r.None? ==> allocator.live == old(allocator.live) && Named()
      ensures r.Some? ==>
                && Joined(old(allocator.live), r.value.blockOffset, size) && OutsideKept(r.value.blockOffset)
                && NamedBut(r.value.blockOffset)
                && r.value.cap + ALLOCATOR_HEADER_SIZE == allocator.g.Size(allocator.live[r.value.blockOffset])
    {
      hide BuddyAllocator.Honest, BuddyAllocator.Valid, Word, Pow2, OrderFor, Room, FreeRange, LiveSet, IsBlock, WideWith, Split;
      allocator.HonestFacts(arena);
      r := allocator.Alloc(arena, BUFFER_HEADER_SIZE + size);
      forall y <- old(allocator.live) ensures Names(arena, offset, y) {
        assert old(Names(arena, offset, y));
        if r.Some? { allocator.LiveGap(arena, y, r.value.blockOffset); }
      }
    }

    /** The allocator's half, and the count. */
    method CountBlock(size: nat) returns (r: Option<Allocation>)
      requires Valid() && activatedAt != 0
      modifies this, allocator, arena
      ensures r.Some? <==> old(CanServe(size))
      ensures r.None? ==> Valid() && allocator.live == old(allocator.live)
      ensures r.Some? ==>
                && ValidBut(r.value.blockOffset)
                && Joined(old(allocator.live), r.value.blockOffset, size) && OutsideKept(r.value.blockOffset)
                && r.value.blockOffset in allocator.live && BUFFER_HEADER_SIZE + size <= r.value.cap < TWO_32
                && r.value.cap + ALLOCATOR_HEADER_SIZE == allocator.g.Size(allocator.live[r.value.blockOffset])
    {
      hide BuddyAllocator.Honest, BuddyAllocator.Valid, Word, Pow2, OrderFor, Room, FreeRange, LiveSet, IsBlock, WideWith,
           Named, NamedBut, OutsideKept, CanServe;
      r := CarveBlock(size);
      if r.None? { return; }
      var x := r.value.blockOffset;
      WideStays(allocator.g, old(allocator.live), x, allocator.live[x]);
      assert allocator.live.Keys == old(allocator.live).Keys + {x};
      allocs := allocs + 1;
    }

    /** The allocation itself, in an active region. */
    method AllocActive(size: nat) returns (r: Option<nat>)
      requires Valid() && activatedAt != 0
      modifies this, allocator, arena
      ensures Valid()
      ensures r.Some? <==> old(CanServe(size))
      ensures r.None? ==> allocator.live == old(allocator.live)
      ensures r.Some? ==> Handed(old(allocator.live), r.value, size)
      ensures r.Some? ==> forall i | 0 <= i < arena.Length && !(r.value <= i < r.value + 32) :: arena[i] == old(arena[i])
    {
      hide BuddyAllocator.Honest, BuddyAllocator.Valid, Word, Pow2, OrderFor, Room, FreeRange, LiveSet, Joined, ValidBut, Valid;
      var block := CountBlock(size);
      if block.None? { return None; }
      var x := block.value.blockOffset;
      StampBuffer(x, size, block.value.cap - BUFFER_HEADER_SIZE);
      return Some(x);
    }

    /** Every other block's headers are clear of block `x`. */
    lemma Neighbours(x: nat)
      requires Valid() && x in allocator.live
      ensures forall y <- allocator.live ::
                && Multiple(y, allocator.g.Size(0)) && y + 32 <= arena.Length
                && (y == x || y + 32 <= x || x + allocator.g.Size(allocator.live[x]) <= y)
    {
      hide BuddyAllocator.Honest, BuddyAllocator.Valid, Pow2;
      forall y <- allocator.live
        ensures Multiple(y, allocator.g.Size(0)) && y + 32 <= arena.Length
        ensures y == x || y + 32 <= x || x + allocator.g.Size(allocator.live[x]) <= y
      {
        allocator.LiveFacts(arena, y);
        assert allocator.g.Size(allocator.live[y]) >= 32;
        if y < x { allocator.LiveApart(arena, y, x); }
        if x < y { allocator.LiveApart(arena, x, y); }
      }
    }

    /** A payload has forged an allocator header: a block boundary inside block `x` reads as one. */
    ghost predicate Forged(x: nat)
      requires x in allocator.live
      reads allocator, arena
    {
      exists y: nat ::
        && x < y < x + allocator.g.Size(allocator.live[x]) && Multiple(y, allocator.g.Size(0))
        && y + ALLOCATOR_HEADER_SIZE <= arena.Length && Word(arena, y) == MAGIC
    }

    /** Payload bytes lie behind the buffer header of block `x`. */
    ghost predicate InPayload(x: nat, at: nat, size: nat)
      reads allocator
    {
      x in allocator.live && x + 32 <= at && at + size <= x + allocator.g.Size(allocator.live[x]) && at + size <= arena.Length
    }

    /** The block boundaries that are neither inside block `x` nor in use read as no header. */
    ghost predicate CleanAround(x: nat)
      requires x in allocator.live
      reads allocator, arena
    {
      forall y: nat | && Multiple(y, allocator.g.Size(0)) && y + ALLOCATOR_HEADER_SIZE <= arena.Length
                      && Word(arena, y) == MAGIC && !(x < y < x + allocator.g.Size(allocator.live[x])) ::
        y in allocator.live
    }

    /** Payload bytes leave every header and every name alone. */
    method PutPayload(x: nat, at: nat, data: seq<byte>)
      requires Valid() && InPayload(x, at, |data|)
      modifies arena
      ensures arena[at..at + |data|] == data
      ensures forall i | 0 <= i < arena.Length && !(at <= i < at + |data|) :: arena[i] == old(arena[i])
      ensures StampedWith(arena, allocator.g, allocator.live) && Named()
      ensures forall y: nat | && Multiple(y, allocator.g.Size(0)) && y + ALLOCATOR_HEADER_SIZE <= arena.Length
                              && !(x < y < x + allocator.g.Size(allocator.live[x])) ::
                Word(arena, y) == old(Word(arena, y))
    {
      hide BuddyAllocator.Valid, Word, Pow2, WideWith, CleanBut, Geometry.Size, Multiple;
      Neighbours(x);
      ghost var s, size := allocator.g.Size(0), allocator.g.Size(allocator.live[x]);
      assert s >= 16 by { allocator.LiveWidth(arena, x); }
      forall y: nat | Multiple(y, s) && y != x ensures y + 4 <= x || x < y { if y < x { BoundaryGap(x, y, s); } }
      Fill(arena, at, data);
      forall y <- allocator.live
        ensures ReadHeader(arena, y) == Some((MAGIC, allocator.live[y])) && Names(arena, offset, y)
      {
        assert old(ReadHeader(arena, y)) == Some((MAGIC, allocator.live[y])) && old(Names(arena, offset, y));
      }
    }

    /** With clean surroundings the arena is clean exactly when nothing is forged inside the block. */
    lemma CleanUnlessForged(x: nat)
      requires x in allocator.live && arena.Length == allocator.g.arena && CleanAround(x)
      requires forall y <- allocator.live :: !(x < y < x + allocator.g.Size(allocator.live[x]))
      ensures CleanBut(arena, allocator.g, allocator.live) <==> !Forged(x)
    {
      hide Word, Pow2, Multiple;
    }

    /** The holder of block `x` writes payload bytes behind the buffer header. The region stays valid
        exactly when these bytes forge no allocator header. */
    method WritePayload(x: nat, at: nat, data: seq<byte>)
      requires Valid() && InPayload(x, at, |data|)
      modifies arena
      ensures arena[at..at + |data|] == data
      ensures forall i | 0 <= i < arena.Length && !(at <= i < at + |data|) :: arena[i] == old(arena[i])
      ensures Valid() <==> !Forged(x)
    {
      hide BuddyAllocator.Valid, Word, Pow2, Multiple, WideWith, StampedWith, Named, Forged, Geometry.Size;
      Neighbours(x);
      assert old(CleanAround(x));
      PutPayload(x, at, data);
      assert CleanAround(x);
      CleanUnlessForged(x);
    }

    /** Hand the region's pages back if it has been empty long enough. `released` is what the kernel
        did: a released range reads as zeroes. */
    method PunchIfIdle(now: int, maxAge: int, released: bool) returns (punched: bool)
      requires Valid()
      modifies this, arena
      ensures Valid() && allocator.live == old(allocator.live)
      ensures punched <==> old(allocs) == 0 && old(activatedAt) != 0 && now - old(activatedAt) >= maxAge
      ensures punched ==> allocator.live == map[] && activatedAt == 0 && stale
      ensures !punched ==> unchanged(this) && arena[..] == old(arena[..])
    {
      if allocs != 0 || activatedAt == 0 || now - activatedAt < maxAge { return false; }
      assert allocator.live.Keys == {};
      if released {
        forall i | 0 <= i < arena.Length { arena[i] := 0; }
      }
      activatedAt := 0;
      stale := true;
      return true;
    }

    /** The allocator's half of a release, once the name is gone. */
    method ReleaseBlock(x: nat) returns (freed: Result<(), Error>)
      requires ValidBut(x) && x + 16 <= arena.Length && Multiple(x, allocator.g.Size(0))
      modifies this`allocs, allocator, arena
      ensures freed.Ok? <==> x in old(allocator.live)
      ensures Valid()
      ensures freed.Ok? ==> allocator.live == old(allocator.live) - {x}
      ensures freed.Err? ==> allocs == old(allocs) && unchanged(allocator) && arena[..] == old(arena[..])
    {
      hide BuddyAllocator.Honest, BuddyAllocator.Valid, Word, Pow2;
      allocator.HonestFacts(arena);
      freed := allocator.FreeAt(arena, x + ALLOCATOR_HEADER_SIZE);
      if freed.Ok? {
        assert allocator.live.Keys == old(allocator.live).Keys - {x};
        allocs := SaturatingSub(allocs, 1);
      }
      forall y <- allocator.live ensures Names(arena, offset, y) {
        allocator.FarFrom(arena, y, x);
        assert old(Names(arena, offset, y));
      }
    }

    /** Release the buffer at a global offset. Exactly the blocks in use can be released. A refusal
        keeps every block, but it is not harmless: the header's `offset` field is zeroed before the
        allocator has looked, so an aligned offset that names no block loses those bytes. */
    method FreeAt(globalOffset: int) returns (r: Result<(), Error>)
      requires Valid()
      modifies this`allocs, allocator, arena
      ensures Valid()
      ensures r.Ok? <==> old(InUse(globalOffset))
      ensures r.Ok? ==> allocator.live == old(allocator.live) - {globalOffset - offset - ALLOCATOR_HEADER_SIZE}
      ensures r.Err? ==> allocator.live == old(allocator.live) && allocator.free == old(allocator.free) && allocs == old(allocs)
      ensures r.Err? ==>
                (arena[..] == old(arena[..]) <==>
                  var local := globalOffset - offset;
                  local < 0 || !allocator.IsValidOffset(local) || local + 8 > arena.Length
                  || old(OffsetField(arena, local)) == ZERO)
    {
      hide BuddyAllocator.Honest, BuddyAllocator.Valid, Word, Pow2, Split;
      allocator.HonestFacts(arena);
      if globalOffset - offset < 0 { return Err(Error.InvalidOffset); }
      var local: nat := globalOffset - offset;
      if local >= ALLOCATOR_HEADER_SIZE && local - ALLOCATOR_HEADER_SIZE in allocator.live { LiveIsNamed(local); }
      if !allocator.IsValidOffset(local) { return Err(Error.InvalidOffset); }
      allocator.MinBlockInside(local);
      if OffsetField(arena, local) == ZERO { return Err(Error.NotAllocated); }
      ClearName(local - ALLOCATOR_HEADER_SIZE);
      r := ReleaseBlock(local - ALLOCATOR_HEADER_SIZE);
    }

    /** A block in use passes the checks that come before the allocator's. */
    lemma LiveIsNamed(local: nat)
      requires Valid() && local >= ALLOCATOR_HEADER_SIZE && local - ALLOCATOR_HEADER_SIZE in allocator.live
      ensures allocator.IsValidOffset(local) && local + 8 <= arena.Length && OffsetField(arena, local) != ZERO
    {
      hide BuddyAllocator.Honest, BuddyAllocator.Valid, Word, Pow2;
      allocator.HonestFacts(arena);
      allocator.LiveFacts(arena, local - ALLOCATOR_HEADER_SIZE);
      assert Names(arena, offset, local - ALLOCATOR_HEADER_SIZE);
    }
  }

  /** Zeroing eight bytes changes nothing exactly when they were zero. */
  lemma NameZeroed(was: seq<byte>, now: seq<byte>, at: nat)
    requires |was| == |now| && at + 8 <= |was|
    requires forall i | 0 <= i < |was| && !(at <= i < at + 8) :: now[i] == was[i]
    requires forall i | at <= i < at + 8 :: now[i] == 0
    ensures now == was <==> forall i | at <= i < at + 8 :: was[i] == 0
  {
  }

  /** Above a boundary the next one is sixteen bytes on, or at least thirty-two. */
  lemma InnerBoundary(x: nat, y: nat, s: nat)
    requires (s == 16 || s >= 32) && Multiple(x, s) && Multiple(y, s)
    ensures y <= x || y == x + 16 || y >= x + 32
    ensures y < x ==> y + 16 <= x
  {
    if y != x { BoundaryGap(x, y, s); }
    if s == 16 && y > x {
      assert Multiple(x + 16, 16);
      if y != x + 16 { BoundaryGap(x + 16, y, s); }
    }
  }

  /** Distinct multiples of `s` are at least `s` apart. */
  lemma BoundaryGap(x: nat, y: nat, s: nat)
    requires s > 0 && Multiple(x, s) && Multiple(y, s) && x != y
    ensures x + s <= y || y + s <= x
  {
    if x < y < x + s { MultiplesApart(x, y, s); }
    if y < x < y + s { MultiplesApart(y, x, s); }
  }
}
