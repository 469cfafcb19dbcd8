/** A shared region of src/v5/region.rs that runs the slab allocator: what `Region` proves of one that runs
    the buddy allocator. Here no condition on payloads is needed. */
module SlabRegion {
  import opened Common
  import opened Wrappers
  import opened BlockMath
  import opened Arena
  import opened Buddy
  import opened Fixed
  import opened Region

  /** The three classes a region asks for. */
  function ClassesFor(minBlock: nat, maxBlock: nat): seq<SizePercent> {
    var mid := if maxBlock / 4 <= minBlock then (minBlock + maxBlock) / 2 else maxBlock / 4;
    [SizePercent(minBlock, 50), SizePercent(mid, 30), SizePercent(maxBlock, 20)]
  }

  class SlabRegion {
    const offset: nat
    const allocator: FixedAllocator
    const arena: array<byte>
    /** Blocks handed out and not yet released. */
    var allocs: nat
    /** When the allocator was last built over this range; zero before first use and after a punch. */
    var activatedAt: int
    /** A punch has retired the free lists. */
    var stale: bool

    /** The arena shows exactly the live blocks, the count is their number, and an inactive region has
        none. */
    ghost predicate Sound()
      reads this, allocator, arena
    {
      && allocator.Honest(arena)
      && arena.Length < TWO_32 && offset + arena.Length < TWO_64
      && allocator.l.areas[0].size >= 16 && Wide(allocator.l, allocator.live)
      && allocs == |allocator.live| && (activatedAt == 0 ==> allocator.live == {})
    }

    /** And a block's buffer header names its own global offset if it is live, and nothing if it is not. */
    ghost predicate Valid()
      reads this, allocator, arena
    {
      Sound() && Named()
    }

    ghost predicate Told(y: nat)
      reads allocator, arena
    {
      && y + 16 <= arena.Length
      && OffsetField(arena, y + ALLOCATOR_HEADER_SIZE) == if y in allocator.live then Split(offset + y + ALLOCATOR_HEADER_SIZE) else ZERO
    }

    ghost predicate Named()
      requires allocator.l.Sound()
      reads allocator, arena
    {
      forall y: nat | allocator.l.IsBlock(y) :: Told(y)
    }

    ghost predicate NamedBut(x: nat)
      requires allocator.l.Sound()
      reads allocator, arena
    {
      forall y: nat | allocator.l.IsBlock(y) && y != x :: Told(y)
    }

    /** A block in use has its data at this global offset. */
    ghost predicate InUse(globalOffset: int)
      reads this, allocator
    {
      globalOffset >= offset + ALLOCATOR_HEADER_SIZE && globalOffset - offset - ALLOCATOR_HEADER_SIZE in allocator.live
    }

    constructor (allocator: FixedAllocator, arena: array<byte>, offset: nat)
      requires allocator.Valid() && allocator.live == {} && allocator.l.areas[0].size >= 16
      requires arena.Length == allocator.l.arena < TWO_32 && offset + arena.Length < TWO_64
      requires forall i | 0 <= i < arena.Length :: arena[i] == 0
      ensures Valid() && this.allocator == allocator && this.arena == arena && this.offset == offset
      ensures allocs == 0 && activatedAt == 0 && !stale
    {
      this.allocator := allocator;
      this.arena := arena;
      this.offset := offset;
      allocs, activatedAt, stale := 0, 0, false;
      new;
      hide Listed, Multiple;
      BlankShows(arena, allocator.l);
      BlankNames(arena, allocator.l);
    }

    /** Rebuild the lists a punch retired. Only an inactive region does this, and it has no block
        in use. */
    method Activate(now: int)
      requires Valid() && now > 0
      modifies this, allocator
      ensures Valid() && activatedAt != 0 && allocator.live == old(allocator.live)
    {
      hide Listed, Shows, Word;
      if activatedAt == 0 {
        if stale {
          var r := allocator.Reset(arena);
          stale := false;
        }
        allocs := 0;
        activatedAt := now;
      }
    }

    /** A block of some class is free and holds both headers and `size` payload bytes. */
    ghost predicate CanServe(size: nat)
      requires allocator.l.Sound()
      reads this, allocator
    {
      exists c | 0 <= c < CLASSES :: HasFree(allocator.l, allocator.live, c, size)
    }

    /** Block `x`, of the least class that could serve, has joined the blocks of `before`. */
    ghost predicate Joined(before: set<nat>, x: nat, size: nat)
      requires allocator.l.Sound()
      reads this, allocator
    {
      && allocator.l.IsBlock(x) && x !in before && allocator.live == before + {x}
      && x + 32 + size <= allocator.l.BlockEnd(x) <= arena.Length
      && forall c | 0 <= c < allocator.l.ClassFor(x).value :: !HasFree(allocator.l, before, c, size)
    }

    /** Block `x` has been handed out for `size` payload bytes, on top of the blocks of `before`, and its
        buffer header says so. */
    ghost predicate Handed(before: set<nat>, x: nat, size: nat)
      requires allocator.l.Sound()
      reads this, allocator, arena
    {
      && Joined(before, x, size)
      && Names(arena, offset, x) && OffsetField(arena, x + 16) == ZERO
      && Word(arena, x + 24) == size && x + 32 + Word(arena, x + 28) == allocator.l.BlockEnd(x)
    }

    /** Write one word behind a block's header: nothing of any other block changes. */
    method PutWord(x: nat, at: nat, w: nat)
      requires Sound() && NamedBut(x) && allocator.l.IsBlock(x) && w < TWO_32
      requires x + ALLOCATOR_HEADER_SIZE <= at && at + 4 <= allocator.l.BlockEnd(x) <= arena.Length
      modifies arena
      ensures Sound() && NamedBut(x) && Word(arena, at) == w
      ensures forall i | 0 <= i < arena.Length && !(at <= i < at + 4) :: arena[i] == old(arena[i])
      ensures forall j: nat | j + 4 <= arena.Length && (j + 4 <= at || at + 4 <= j) :: Word(arena, j) == old(Word(arena, j))
    {
      hide Listed, Multiple, Word, Wide;
      ghost var l := allocator.l;
      forall y: nat | l.IsBlock(y) && y != x ensures y + 16 <= x || at + 4 <= y { FarBlock(l, x, y); }
      WriteWord(arena, at, w);
      forall y: nat | l.IsBlock(y)
        ensures y + ALLOCATOR_HEADER_SIZE <= arena.Length && Word(arena, y) == old(Word(arena, y))
      {
        BlockFits(l, y);
      }
      forall y: nat | l.IsBlock(y) && y != x ensures Told(y) {
        assert old(Told(y));
      }
    }

    /** Store the `offset` field of the buffer header of block `x`. */
    method PutName(x: nat, v: nat)
      requires Sound() && NamedBut(x) && allocator.l.IsBlock(x) && v < TWO_64
      modifies arena
      ensures Sound() && NamedBut(x) && x + 16 <= allocator.l.BlockEnd(x) <= arena.Length && OffsetField(arena, x + 8) == Split(v)
      ensures forall i | 0 <= i < arena.Length && !(x + 8 <= i < x + 16) :: arena[i] == old(arena[i])
    {
      hide Sound, NamedBut, Word;
      HasName(x);
      PutWord(x, x + 8, v % TWO_32);
      PutWord(x, x + 12, v / TWO_32);
    }

    lemma HasName(x: nat)
      requires Sound() && allocator.l.IsBlock(x)
      ensures x + 16 <= allocator.l.BlockEnd(x) <= arena.Length
    {
      hide Listed, Multiple, Word, Wide;
      BlockFits(allocator.l, x);
    }

    /** Fill in the buffer header of a block just handed out. */
    method StampBuffer(x: nat, len: nat, cap: nat)
      requires Sound() && NamedBut(x) && x in allocator.live && len < TWO_32 && cap < TWO_32
      modifies arena
      ensures Valid() && allocator.l.IsBlock(x) && x + 32 <= allocator.l.BlockEnd(x) <= arena.Length
      ensures Names(arena, offset, x) && OffsetField(arena, x + 16) == ZERO
      ensures Word(arena, x + 24) == len && Word(arena, x + 28) == cap
      ensures forall i | 0 <= i < arena.Length && !(x + 8 <= i < x + 32) :: arena[i] == old(arena[i])
    {
      hide Sound, NamedBut, Word;
      LiveIsWide(x);
      PutName(x, offset + x + ALLOCATOR_HEADER_SIZE);
      PutWord(x, x + 16, 0);
      PutWord(x, x + 20, 0);
      PutWord(x, x + 24, len);
      PutWord(x, x + 28, cap);
      AllNamed(x);
    }

    lemma LiveIsWide(x: nat)
      requires Sound() && x in allocator.live
      ensures allocator.l.IsBlock(x) && x + 32 <= allocator.l.BlockEnd(x) <= arena.Length
      ensures offset + x + 8 < TWO_64
    {
      hide Listed, Multiple, Word;
      BlockFits(allocator.l, x);
    }

    lemma AllNamed(x: nat)
      requires Sound() && NamedBut(x) && x in allocator.live && Names(arena, offset, x)
      ensures Valid()
    {
      hide Sound, OffsetField, Split, Word;
      SoundLayout();
    }

    /** Allocate a block with room for `size` payload bytes and stamp its buffer header. It fails exactly
        when no block that fits is free. */
    method Alloc(size: nat, now: int) returns (r: Option<nat>)
      requires Valid() && now > 0
      modifies this, allocator, arena
      ensures Valid()
      ensures r.Some? <==> old(CanServe(size))
      ensures r.None? ==> allocator.live == old(allocator.live)
      ensures r.Some? ==>
                && r.value >= offset + ALLOCATOR_HEADER_SIZE
                && Handed(old(allocator.live), r.value - offset - ALLOCATOR_HEADER_SIZE, size)
    {
      hide Sound, NamedBut, Word, HasFree, OffsetField, Names;
      SoundLayout();
      Activate(now);
      SoundLayout();
      var block := TakeBlock(size);
      if block.None? { return None; }
      var x := block.value.blockOffset;
      StampBuffer(x, size, block.value.cap - BUFFER_HEADER_SIZE);
      return Some(offset + x + ALLOCATOR_HEADER_SIZE);
    }

    lemma SoundLayout()
      requires Sound()
      ensures allocator.l.Sound() && arena.Length < TWO_32
    {
    }

    /** The allocator's half of an allocation. No block loses its name. */
    method CarveBlock(size: nat) returns (r: Option<Allocation>)
      requires allocator.Honest(arena) && allocator.l.areas[0].size >= 16 && Named()
      modifies allocator, arena
      ensures allocator.Honest(arena) && (r.Some? <==> old(CanServe(size)))
      ensures r.None? ==> allocator.live == old(allocator.live) && Named()
      ensures r.Some? ==>
                var x := r.value.blockOffset;
                Joined(old(allocator.live), x, size) && NamedBut(x) && x + 8 + r.value.cap == allocator.l.BlockEnd(x)
    {
      hide Listed, Shows, Word, Multiple, HasFree, FixedAllocator.Valid;
      ListsServe(size, BUFFER_HEADER_SIZE + size);
      r := allocator.Alloc(arena, BUFFER_HEADER_SIZE + size);
      if r.Some? { BlockFits(allocator.l, r.value.blockOffset); }
      forall y: nat | allocator.l.IsBlock(y) && !(r.Some? && y == r.value.blockOffset) ensures Told(y) {
        assert old(Told(y));
        if r.Some? { FarBlock(allocator.l, r.value.blockOffset, y); }
      }
    }

    lemma ListsServe(size: nat, need: nat)
      requires allocator.Valid() && need == BUFFER_HEADER_SIZE + size
      ensures allocator.l.Sound() && |allocator.free| == CLASSES && |allocator.l.areas| == CLASSES
      ensures forall c | 0 <= c < CLASSES :: HasFree(allocator.l, allocator.live, c, size) <==> Serves(allocator.l, allocator.free, c, need)
      ensures CanServe(size) <==> exists c | 0 <= c < CLASSES :: Serves(allocator.l, allocator.free, c, need)
    {
      hide Listed, HasFree;
      ServesIsFree(allocator.l, allocator.free, allocator.live, size, need);
      if c :| 0 <= c < CLASSES && Serves(allocator.l, allocator.free, c, need) {
        assert HasFree(allocator.l, allocator.live, c, size);
      }
    }

    /** The allocator's half, and the count. */
    method TakeBlock(size: nat) returns (r: Option<Allocation>)
      requires Valid() && activatedAt != 0
      modifies this`allocs, allocator, arena
      ensures allocator.l.Sound() && (r.Some? <==> old(CanServe(size)))
      ensures r.None? ==> Valid() && allocator.live == old(allocator.live)
      ensures r.Some? ==>
                var x := r.value.blockOffset;
                && Sound() && NamedBut(x) && Joined(old(allocator.live), x, size) && x + 8 + r.value.cap == allocator.l.BlockEnd(x)
    {
      hide AllListed, Shows, Word, Multiple, HasFree, Named, NamedBut, CanServe, Wide;
      r := CarveBlock(size);
      if r.None? { return; }
      WideMore(allocator.l, old(allocator.live), r.value.blockOffset);
      allocs := allocs + 1;
    }

    /** The holder of block `x` writes payload bytes behind the buffer header, whatever they are. */
    method WritePayload(x: nat, at: nat, data: seq<byte>)
      requires Valid() && x in allocator.live && allocator.l.IsBlock(x)
      requires x + 32 <= at && at + |data| <= allocator.l.BlockEnd(x) && at + |data| <= arena.Length
      modifies arena
      ensures Valid() && arena[at..at + |data|] == data
      ensures forall i | 0 <= i < arena.Length && !(at <= i < at + |data|) :: arena[i] == old(arena[i])
    {
      hide Listed, Multiple, Word, Wide;
      ghost var l := allocator.l;
      forall y: nat | l.IsBlock(y) && y != x ensures y + 16 <= x || at + |data| <= y { FarBlock(l, x, y); }
      Fill(arena, at, data);
      forall y: nat | l.IsBlock(y)
        ensures y + ALLOCATOR_HEADER_SIZE <= arena.Length && Word(arena, y) == old(Word(arena, y))
      {
        BlockFits(l, y);
      }
      forall y: nat | l.IsBlock(y) ensures Told(y) {
        assert old(Told(y));
      }
    }

    /** Hand the region's pages back if it has been empty long enough. `released` is what the kernel
        did: a released range reads as zeroes. */
    method PunchIfIdle(now: int, maxAge: int, released: bool) returns (punched: bool)
      requires Valid()
      modifies this, arena
      ensures Valid() && allocator.live == old(allocator.live)
      ensures punched <==> old(allocs) == 0 && old(activatedAt) != 0 && now - old(activatedAt) >= maxAge
      ensures punched ==> allocator.live == {} && activatedAt == 0 && stale
      ensures !punched ==> unchanged(this) && arena[..] == old(arena[..])
    {
      hide Listed;
      if allocs != 0 || activatedAt == 0 || now - activatedAt < maxAge { return false; }
      if released {
        forall i | 0 <= i < arena.Length { arena[i] := 0; }
        BlankShows(arena, allocator.l);
        BlankNames(arena, allocator.l);
      }
      activatedAt := 0;
      stale := true;
      return true;
    }

    /** The allocator's half of a release, once the name is gone. */
    method ReleaseBlock(x: nat) returns (freed: Result<(), Error>)
      requires Sound() && NamedBut(x) && x in allocator.live && x + 16 <= arena.Length && OffsetField(arena, x + 8) == ZERO
      modifies this`allocs, allocator, arena
      ensures Valid() && freed.Ok? && allocator.live == old(allocator.live) - {x}
    {
      hide Listed, Shows, Word, Multiple;
      freed := allocator.FreeAt(arena, x + ALLOCATOR_HEADER_SIZE);
      allocs := SaturatingSub(allocs, 1);
      forall y: nat | allocator.l.IsBlock(y) ensures Told(y) {
        if y != x {
          assert old(Told(y));
          FarBlock(allocator.l, x, y);
        }
      }
    }

    /** Release the buffer at a global offset. Exactly the blocks in use can be released, and a refusal
        changes nothing. */
    method FreeAt(globalOffset: int) returns (r: Result<(), Error>)
      requires Valid()
      modifies this`allocs, allocator, arena
      ensures Valid()
      ensures r.Ok? <==> old(InUse(globalOffset))
      ensures r.Ok? ==> allocator.live == old(allocator.live) - {globalOffset - offset - ALLOCATOR_HEADER_SIZE}
      ensures r.Err? ==> unchanged(this) && unchanged(allocator) && arena[..] == old(arena[..])
    {
      hide Sound, NamedBut, Word, OffsetField, Split;
      SoundLayout();
      if globalOffset - offset < ALLOCATOR_HEADER_SIZE { return Err(Error.InvalidOffset); }
      var x: nat := globalOffset - offset - ALLOCATOR_HEADER_SIZE;
      if x in allocator.live { LiveIsNamed(x); }
      if !allocator.l.IsBlock(x) { return Err(Error.InvalidOffset); }
      assert Told(x);
      if OffsetField(arena, x + 8) == ZERO { return Err(Error.NotAllocated); }
      ClearName(x);
      r := ReleaseBlock(x);
    }

    /** A block in use passes the checks that come before the allocator's. */
    lemma LiveIsNamed(x: nat)
      requires Valid() && x in allocator.live
      ensures allocator.l.Sound() && allocator.l.IsBlock(x) && x + 16 <= arena.Length && OffsetField(arena, x + 8) != ZERO
    {
      hide Listed, Shows, Word, Multiple;
      BlockFits(allocator.l, x);
      assert Told(x);
    }

    /** Zero the `offset` field of the buffer header of block `x`. */
    method ClearName(x: nat)
      requires Valid() && allocator.l.IsBlock(x)
      modifies arena
      ensures Sound() && NamedBut(x) && x + 16 <= arena.Length && OffsetField(arena, x + 8) == ZERO
    {
      hide Sound, Word, OffsetField, Split;
      SplitZero();
      SoundLayout();
      assert NamedBut(x);
      PutName(x, 0);
    }
  }

  lemma SplitZero()
    ensures Split(0) == ZERO
  {
  }

  /** Every live block has room for both headers. */
  ghost predicate Wide(l: Layout, live: set<nat>)
    requires l.Sound()
  {
    forall x <- live :: l.IsBlock(x) && x + 32 <= l.BlockEnd(x)
  }

  lemma WideMore(l: Layout, live: set<nat>, x: nat)
    requires l.Sound() && Wide(l, live) && l.IsBlock(x) && x + 32 <= l.BlockEnd(x)
    ensures Wide(l, live + {x})
  {
  }

  /** Class `c` has blocks with room for both headers and `size` bytes, and one that is not live. */
  ghost predicate HasFree(l: Layout, live: set<nat>, c: nat, size: nat)
    requires l.Sound() && c < CLASSES
  {
    32 + size <= l.areas[c].size && exists x: nat :: l.areas[c].Holds(x) && x !in live
  }

  /** What the lists can serve is what is not live. */
  lemma ServesIsFree(l: Layout, free: seq<seq<nat>>, live: set<nat>, size: nat, need: nat)
    requires l.Sound() && AllListed(l, free, live) && need == BUFFER_HEADER_SIZE + size
    ensures forall c | 0 <= c < CLASSES :: HasFree(l, live, c, size) <==> Serves(l, free, c, need)
  {
    forall c | 0 <= c < CLASSES ensures HasFree(l, live, c, size) <==> Serves(l, free, c, need) {
      assert Listed(l, c, free[c], live);
      if free[c] != [] { assert free[c][0] in free[c]; }
    }
  }

  /** An arena of zeroes shows nothing live. */
  lemma BlankShows(arena: array<byte>, l: Layout)
    requires l.Sound() && arena.Length == l.arena && forall i | 0 <= i < arena.Length :: arena[i] == 0
    ensures Shows(arena, l, {})
  {
    hide Multiple;
    forall x: nat | l.IsBlock(x) ensures x + ALLOCATOR_HEADER_SIZE <= arena.Length && Word(arena, x) != MAGIC {
      BlockFits(l, x);
    }
  }

  lemma BlankNames(arena: array<byte>, l: Layout)
    requires l.Sound() && l.areas[0].size >= 16 && arena.Length == l.arena && forall i | 0 <= i < arena.Length :: arena[i] == 0
    ensures forall y: nat | l.IsBlock(y) :: y + 16 <= arena.Length && OffsetField(arena, y + 8) == ZERO
  {
    hide Multiple;
    forall y: nat | l.IsBlock(y) ensures y + 16 <= arena.Length && OffsetField(arena, y + 8) == ZERO {
      BlockFits(l, y);
      ZeroField(arena, y + 8);
    }
  }

  /** Where blocks have sixteen bytes or more, those of another block are clear of this one. */
  lemma FarBlock(l: Layout, x: nat, y: nat)
    requires l.Sound() && l.areas[0].size >= 16 && l.IsBlock(x) && l.IsBlock(y) && x != y
    ensures y + 16 <= x || l.BlockEnd(x) <= y
  {
    hide Multiple;
    if x < y { BlocksApart(l, x, y); } else { BlocksApart(l, y, x); }
  }

  /** Build a region over a zeroed arena. The block sizes are powers of two, which the segment has checked,
      so the smallest has sixteen bytes or more. */
  method New(arena: array<byte>, offset: nat, minBlock: nat, maxBlock: nat) returns (r: Result<SlabRegion, Error>)
    requires Log2(minBlock).Some? && arena.Length < TWO_32 && offset + arena.Length < TWO_64
    requires forall i | 0 <= i < arena.Length :: arena[i] == 0
    ensures r.Ok? ==> fresh(r.value) && fresh(r.value.allocator) && r.value.Valid() && r.value.arena == arena
    ensures r.Ok? ==> r.value.offset == offset && r.value.allocator.live == {}
    ensures r.Ok? <==>
              var c := ClassesFor(minBlock, maxBlock);
              && ALLOCATOR_HEADER_SIZE < c[0].size <= c[1].size <= c[2].size
              && c[0].size <= Share(arena.Length, 50) && c[1].size <= Share(arena.Length, 30)
              && c[2].size <= arena.Length - Whole(Share(arena.Length, 50), c[0].size) - Whole(Share(arena.Length, 30), c[1].size)
  {
    hide Share, Whole, Log2;
    var built := NewFromConfig(arena.Length, ClassesFor(minBlock, maxBlock));
    if built.Err? { return Err(built.error); }
    Pow2AboveEight(Log2(minBlock).value);
    var region := new SlabRegion(built.value, arena, offset);
    return Ok(region);
  }
}
