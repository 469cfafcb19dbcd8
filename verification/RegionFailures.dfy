/** Inputs at which a shared region fails what one would expect of it: a refused release that changes
    bytes, and a payload that makes the region invalid. Both use a region of one 256-byte block whose
    smallest block is 64 bytes, so that a payload covers block boundaries. */
module RegionFailures {
  import opened Common
  import opened Wrappers
  import opened BlockMath
  import opened Tiling
  import opened FreeLists
  import opened Arena
  import opened Buddy
  import opened Region

  /** The block sizes of the region. */
  lemma SmallSizes()
    ensures Log2(64) == Some(6) && Log2(256) == Some(8) && GeometryOf(256, 64, 256) == Geometry(256, 6, 2)
    ensures Geometry(256, 6, 2).Size(0) == 64 && Geometry(256, 6, 2).Size(1) == 128 && Geometry(256, 6, 2).Size(2) == 256
  {
    Log2OfPow2(6);
    Log2OfPow2(8);
    assert Pow2(6) == 64 && Pow2(7) == 128 && Pow2(8) == 256;
  }

  /** 200 bytes and the headers need the whole of the region, and it is free. */
  lemma WholeBlock(g: Geometry)
    requires g == Geometry(256, 6, 2)
    ensures OrderFor(g, 232) == 2 && Room(g, map[], 2)
  {
    hide Pow2, OrderFor, Log2, GeometryOf;
    SmallSizes();
    OrderForSpec(g, 232);
    assert IsBlock(g, Block(2, 0)) && FreeRange(g, LiveSet(map[]), Block(2, 0));
  }

  /** A region whose one block of 256 bytes is in use, with the given payload in it. */
  method FilledRegion(payload: seq<byte>) returns (r: SharedRegion)
    requires |payload| == 224
    ensures fresh(r) && fresh(r.allocator) && fresh(r.arena)
    ensures r.offset == RQ_SIZE && r.allocator.g == Geometry(256, 6, 2) && r.allocator.live == map[0 := 2]
    ensures r.arena.Length == 256 && r.arena[32..256] == payload
    ensures r.Valid() <==> !r.Forged(0)
  {
    hide BuddyAllocator.Honest, BuddyAllocator.Valid, Word, Pow2, OrderFor, Room, Log2, GeometryOf;
    SmallSizes();
    WholeBlock(Geometry(256, 6, 2));
    var built := NewWithBlockSize(256, 64, 256);
    var arena := new byte[256](i => 0);
    r := new SharedRegion(built.value, arena, RQ_SIZE);
    var at := r.Alloc(200, 1);
    assert r.allocator.live == map[0 := 2];
    r.WritePayload(0, 32, payload);
  }

  /** A non-zero byte behind the second boundary, and nothing that looks like a header. */
  const HARMLESS: seq<byte> := seq(224, i => if i == 40 then 1 else 0)

  /** The magic number at the second boundary. */
  const FORGING: seq<byte> := seq(224, i => if i == 32 then 0x0D else if i == 33 then 0xF0 else if i == 34 then 0xAD else if i == 35 then 0x0B else 0)

  lemma BoundaryIs(y: nat)
    requires 0 < y < 256
    ensures Multiple(y, 64) <==> y == 64 || y == 128 || y == 192
  {
    MultipleIsMod(y, 64);
  }

  /** Releasing at the second boundary of a region with a payload there: the release is refused, every
      block stays, and yet a payload byte is gone. */
  method FreeInside(r: SharedRegion) returns (freed: Result<(), Error>)
    requires r.Valid() && r.offset == RQ_SIZE && r.allocator.g == Geometry(256, 6, 2) && r.allocator.live == map[0 := 2]
    requires r.arena.Length == 256 && r.arena[32..256] == HARMLESS
    modifies r, r.allocator, r.arena
    ensures r.Valid() && freed.Err? && r.allocator.live == map[0 := 2]
    ensures r.arena[..] != old(r.arena[..])
  {
    hide BuddyAllocator.Honest, BuddyAllocator.Valid, Word, Pow2;
    SmallSizes();
    BoundaryIs(64);
    assert r.arena[72] == HARMLESS[40] == 1;
    ZeroField(r.arena, 72);
    freed := r.FreeAt(RQ_SIZE + 72);
  }

  /** Such a region exists: allocating and writing the payload leaves a valid one. */
  method RefusedFreeWrites() returns (r: SharedRegion, before: seq<byte>, freed: Result<(), Error>)
    ensures r.Valid() && r.allocator.live == map[0 := 2] && freed.Err?
    ensures |before| == r.arena.Length == 256 && before[32..] == HARMLESS && r.arena[..] != before
  {
    hide BuddyAllocator.Honest, BuddyAllocator.Valid, Word, Pow2, SharedRegion.Valid;
    r := FilledRegion(HARMLESS);
    assert !r.Forged(0) by { HarmlessIsClean(r); }
    before := r.arena[..];
    assert before[32..] == r.arena[32..256];
    freed := FreeInside(r);
  }

  lemma HarmlessIsClean(r: SharedRegion)
    requires r.allocator.g == Geometry(256, 6, 2) && r.allocator.live == map[0 := 2]
    requires r.arena.Length == 256 && r.arena[32..256] == HARMLESS
    ensures !r.Forged(0)
  {
    hide Pow2;
    SmallSizes();
    forall y: nat | 0 < y < 256 && Multiple(y, 64) ensures y + 8 <= 256 && Word(r.arena, y) == 0 {
      BoundaryIs(y);
      assert forall i | y <= i < y + 4 :: r.arena[i] == HARMLESS[i - 32];
    }
  }

  /** A payload that spells the allocator's magic number at a block boundary leaves the region invalid. */
  method ForgingPayloadBreaks() returns (r: SharedRegion)
    ensures r.allocator.live == map[0 := 2] && r.arena.Length == 256 && r.arena[32..256] == FORGING
    ensures !r.Valid()
  {
    hide BuddyAllocator.Honest, BuddyAllocator.Valid, Pow2, SharedRegion.Valid;
    SmallSizes();
    r := FilledRegion(FORGING);
    BoundaryIs(64);
    assert forall i | 64 <= i < 68 :: r.arena[i] == FORGING[i - 32];
    assert Word(r.arena, 64) == MAGIC;
  }
}
