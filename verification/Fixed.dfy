/** The slab allocator of src/v5/fixed.rs, the other allocator a region may run: three areas of equal
    blocks each, laid out once. Every block boundary starts one block for good, so what a payload holds
    can never be taken for a header. */
module Fixed {
  import opened Common
  import opened Wrappers
  import opened Sequences
  import opened BlockMath
  import opened Arena

  const CLASSES: nat := 3

  /** One class: blocks of `size` bytes, back to back. */
  datatype Area = Area(start: nat, length: nat, size: nat) {
    function End(): nat { start + length }

    predicate Sound() { size > ALLOCATOR_HEADER_SIZE && length > 0 && Multiple(length, size) }

    /** A block starts at `x`. */
    predicate Holds(x: nat)
      requires size > 0
    {
      start <= x < End() && Multiple(x - start, size)
    }
  }

  datatype Layout = Layout(arena: nat, areas: seq<Area>) {
    predicate Sound() {
      && |areas| == CLASSES && (forall c | 0 <= c < CLASSES :: areas[c].Sound())
      && areas[0].start == 0 && areas[1].start == areas[0].End() && areas[2].start == areas[1].End()
      && areas[2].End() <= arena && areas[0].size <= areas[1].size <= areas[2].size
    }

    /** The class of the block at `x`, if one starts there. */
    function ClassFor(x: nat): (r: Option<nat>)
      requires Sound()
      ensures r.Some? ==> r.value < CLASSES && areas[r.value].Holds(x)
      ensures forall c | 0 <= c < CLASSES && areas[c].Holds(x) :: r == Some(c)
    {
      if areas[2].start <= x < areas[2].End() then (if Multiple(x - areas[2].start, areas[2].size) then Some(2) else None)
      else if areas[1].start <= x < areas[1].End() then (if Multiple(x - areas[1].start, areas[1].size) then Some(1) else None)
      else if x < areas[0].End() then (if Multiple(x, areas[0].size) then Some(0) else None)
      else None
    }

    predicate IsBlock(x: nat)
      requires Sound()
    {
      ClassFor(x).Some?
    }

    /** Where the block at `x` ends. */
    function BlockEnd(x: nat): nat
      requires Sound() && IsBlock(x)
    {
      x + areas[ClassFor(x).value].size
    }
  }

  lemma FitsArea(a: Area, x: nat)
    requires a.Sound() && a.Holds(x)
    ensures x + a.size <= a.End()
  {
    if x - a.start + a.size > a.length { MultiplesApart(x - a.start, a.length, a.size); }
  }

  lemma ApartInArea(a: Area, x: nat, y: nat)
    requires a.Sound() && a.Holds(x) && a.Holds(y) && x < y
    ensures x + a.size <= y
  {
    if y < x + a.size { MultiplesApart(x - a.start, y - a.start, a.size); }
  }

  /** A block lies inside the arena and has room behind its header. */
  lemma BlockFits(l: Layout, x: nat)
    requires l.Sound() && l.IsBlock(x)
    ensures x + ALLOCATOR_HEADER_SIZE < l.BlockEnd(x) <= l.arena
  {
    hide Multiple;
    FitsArea(l.areas[l.ClassFor(x).value], x);
  }

  /** No two blocks overlap, whatever their classes. */
  lemma BlocksApart(l: Layout, x: nat, y: nat)
    requires l.Sound() && l.IsBlock(x) && l.IsBlock(y) && x < y
    ensures l.BlockEnd(x) <= y
  {
    hide Multiple;
    var c, d := l.ClassFor(x).value, l.ClassFor(y).value;
    FitsArea(l.areas[c], x);
    if c == d { ApartInArea(l.areas[c], x, y); }
  }

  /** Class `c` can serve `size` bytes now. */
  predicate Serves(l: Layout, free: seq<seq<nat>>, c: nat, size: nat)
    requires c < |l.areas| && c < |free|
  {
    size + ALLOCATOR_HEADER_SIZE <= l.areas[c].size && free[c] != []
  }

  /** The list of class `c` holds every block of the class that is not live, once. */
  ghost predicate Listed(l: Layout, c: nat, list: seq<nat>, live: set<nat>)
    requires l.Sound() && c < CLASSES
  {
    && Distinct(list)
    && (forall x <- list :: l.areas[c].Holds(x))
    && (forall x: nat | l.areas[c].Holds(x) :: x in list <==> x !in live)
  }

  ghost predicate AllListed(l: Layout, free: seq<seq<nat>>, live: set<nat>)
    requires l.Sound()
  {
    |free| == CLASSES && forall c | 0 <= c < CLASSES :: Listed(l, c, free[c], live)
  }

  /** The magic is set at the start of every live block, and of no other. */
  ghost predicate Shows(arena: array<byte>, l: Layout, live: set<nat>)
    requires l.Sound()
    reads arena
  {
    forall x: nat | l.IsBlock(x) :: x + ALLOCATOR_HEADER_SIZE <= arena.Length && (Word(arena, x) == MAGIC <==> x in live)
  }

  ghost predicate ShowsBut(arena: array<byte>, l: Layout, live: set<nat>, y: nat)
    requires l.Sound()
    reads arena
  {
    forall x: nat | l.IsBlock(x) && x != y ::
      x + ALLOCATOR_HEADER_SIZE <= arena.Length && (Word(arena, x) == MAGIC <==> x in live)
  }

  /** Another block's header is clear of this block. */
  lemma OtherBlock(l: Layout, x: nat, y: nat)
    requires l.Sound() && l.IsBlock(x) && l.IsBlock(y) && x != y
    ensures y + ALLOCATOR_HEADER_SIZE <= l.arena && (y + ALLOCATOR_HEADER_SIZE <= x || l.BlockEnd(x) <= y)
  {
    BlockFits(l, y);
    if x < y { BlocksApart(l, x, y); } else { BlocksApart(l, y, x); }
  }

  /** Taking the last block off a list makes it live, and nothing else. */
  lemma TakenOff(l: Layout, free: seq<seq<nat>>, live: set<nat>, c: nat)
    requires l.Sound() && AllListed(l, free, live) && c < CLASSES && free[c] != []
    ensures var x := free[c][|free[c]| - 1];
            && l.ClassFor(x) == Some(c) && x !in live
            && AllListed(l, free[c := free[c][..|free[c]| - 1]], live + {x})
  {
    hide Multiple;
    var last := |free[c]| - 1;
    var x, free' := free[c][last], free[c := free[c][..last]];
    assert Listed(l, c, free[c], live) && x in free[c];
    forall d | 0 <= d < CLASSES ensures Listed(l, d, free'[d], live + {x}) {
      assert Listed(l, d, free[d], live);
      if d != c { assert !l.areas[d].Holds(x); }
    }
  }

  /** Putting a live block back on the list of its class makes it free, and nothing else. */
  lemma PutBack(l: Layout, free: seq<seq<nat>>, live: set<nat>, c: nat, x: nat)
    requires l.Sound() && AllListed(l, free, live) && l.ClassFor(x) == Some(c) && x in live
    ensures AllListed(l, free[c := free[c] + [x]], live - {x})
  {
    hide Multiple;
    var free' := free[c := free[c] + [x]];
    forall d | 0 <= d < CLASSES ensures Listed(l, d, free'[d], live - {x}) {
      assert Listed(l, d, free[d], live);
      if d != c { assert !l.areas[d].Holds(x); }
    }
  }

  /** Every block of one class, in order. */
  method BlocksOf(l: Layout, c: nat) returns (list: seq<nat>)
    requires l.Sound() && c < CLASSES
    ensures Listed(l, c, list, {})
  {
    var a := l.areas[c];
    list := [];
    var offset := a.start;
    while offset < a.End()
      invariant a.start <= offset <= a.End() && Multiple(offset - a.start, a.size)
      invariant Distinct(list) && forall x <- list :: a.Holds(x) && x < offset
      invariant forall x: nat | a.Holds(x) && x < offset :: x in list
      decreases a.End() - offset
    {
      FitsArea(a, offset);
      forall x: nat | a.Holds(x) && offset <= x < offset + a.size ensures x == offset {
        if x != offset { ApartInArea(a, offset, x); }
      }
      assert forall i | 0 <= i < |list| :: list[i] in list;
      list := list + [offset];
      assert Multiple(offset + a.size - a.start - a.size, a.size);
      offset := offset + a.size;
    }
  }

  method AllFree(l: Layout) returns (free: seq<seq<nat>>)
    requires l.Sound()
    ensures AllListed(l, free, {})
  {
    var small := BlocksOf(l, 0);
    var medium := BlocksOf(l, 1);
    var large := BlocksOf(l, 2);
    free := [small, medium, large];
  }

  class FixedAllocator {
    const l: Layout
    /** Free block offsets per class. */
    var free: seq<seq<nat>>
    /** The blocks handed out and not yet released. */
    ghost var live: set<nat>

    /** Every block is either on the list of its class, once, or live. */
    ghost predicate Valid()
      reads this
    {
      l.Sound() && AllListed(l, free, live) && forall x <- live :: l.IsBlock(x)
    }

    /** The arena shows exactly the live blocks. */
    ghost predicate Honest(arena: array<byte>)
      reads this, arena
    {
      Valid() && arena.Length == l.arena && Shows(arena, l, live)
    }

    constructor (l: Layout, free: seq<seq<nat>>)
      requires l.Sound() && AllListed(l, free, {})
      ensures Valid() && this.l == l && this.free == free && live == {}
    {
      this.l, this.free, live := l, free, {};
    }

    /** Hand out a block of the least class that both fits and has one left. It fails exactly when no
        class does. */
    method Alloc(arena: array<byte>, size: nat) returns (r: Option<Allocation>)
      requires Valid()
      modifies this, arena
      ensures Valid() && (old(Honest(arena)) ==> Honest(arena))
      ensures r.Some? <==> arena.Length == l.arena && size > 0 && exists c | 0 <= c < CLASSES :: Serves(l, old(free), c, size)
      ensures r.None? ==> unchanged(this) && arena[..] == old(arena[..])
      ensures forall j: nat | j + 4 <= arena.Length && (r.Some? ==> j + 4 <= r.value.blockOffset || r.value.blockOffset + 8 <= j) ::
                Word(arena, j) == old(Word(arena, j))
      ensures r.Some? ==>
                var x := r.value.blockOffset;
                && l.IsBlock(x) && x !in old(live) && live == old(live) + {x}
                && Serves(l, old(free), l.ClassFor(x).value, size)
                && (forall c | 0 <= c < l.ClassFor(x).value :: !Serves(l, old(free), c, size))
                && r.value == Allocation(x, x + ALLOCATOR_HEADER_SIZE, size, l.BlockEnd(x) - x - ALLOCATOR_HEADER_SIZE)
                && ReadHeader(arena, x) == Some((MAGIC, size % TWO_32))
                && forall i | 0 <= i < arena.Length && !(x <= i < x + ALLOCATOR_HEADER_SIZE) :: arena[i] == old(arena[i])
    {
      hide Multiple, Word, Listed;
      if arena.Length != l.arena || size == 0 { return None; }
      var k := 0;
      while k < CLASSES && !Serves(l, free, k, size)
        invariant k <= CLASSES && forall c | 0 <= c < k :: !Serves(l, free, c, size)
      {
        k := k + 1;
      }
      if k == CLASSES { return None; }
      var x := free[k][|free[k]| - 1];
      TakenOff(l, free, live, k);
      BlockFits(l, x);
      free := free[k := free[k][..|free[k]| - 1]];
      live := live + {x};
      Stamp(arena, x, size);
      return Some(Allocation(x, x + ALLOCATOR_HEADER_SIZE, size, l.areas[k].size - ALLOCATOR_HEADER_SIZE));
    }

    /** Stamp the header of a block that is live by now. */
    method Stamp(arena: array<byte>, x: nat, size: nat)
      requires Valid() && arena.Length == l.arena && x in live
      modifies arena
      ensures ReadHeader(arena, x) == Some((MAGIC, size % TWO_32))
      ensures forall i | 0 <= i < arena.Length && !(x <= i < x + ALLOCATOR_HEADER_SIZE) :: arena[i] == old(arena[i])
      ensures forall j: nat | j + 4 <= arena.Length && (j + 4 <= x || x + 8 <= j) :: Word(arena, j) == old(Word(arena, j))
      ensures old(ShowsBut(arena, l, live, x)) ==> Shows(arena, l, live)
    {
      hide Multiple, Word, Listed;
      BlockFits(l, x);
      WriteHeader(arena, x, size % TWO_32);
      forall y: nat | l.IsBlock(y) && y != x
        ensures y + ALLOCATOR_HEADER_SIZE <= arena.Length && Word(arena, y) == old(Word(arena, y))
      {
        OtherBlock(l, x, y);
      }
    }

    /** Give back the block whose data starts at `dataOffset`. In an honest arena exactly the live blocks
        can be given back, and a refusal changes nothing. */
    method FreeAt(arena: array<byte>, dataOffset: nat) returns (r: Result<(), Error>)
      requires Valid()
      modifies this, arena
      ensures r.Err? ==> unchanged(this) && arena[..] == old(arena[..])
      ensures r.Ok? ==> live == old(live) - {dataOffset - ALLOCATOR_HEADER_SIZE}
      ensures forall j: nat | j + 4 <= arena.Length && (j + 12 <= dataOffset || dataOffset <= j + 4) ::
                Word(arena, j) == old(Word(arena, j))
      ensures old(Honest(arena)) ==>
                && Honest(arena)
                && (r.Ok? <==> dataOffset >= ALLOCATOR_HEADER_SIZE && dataOffset - ALLOCATOR_HEADER_SIZE in old(live))
    {
      hide Multiple, Word, Listed;
      if arena.Length != l.arena { return Err(InvalidArenaSize); }
      if dataOffset < ALLOCATOR_HEADER_SIZE { return Err(Error.InvalidOffset); }
      var x := dataOffset - ALLOCATOR_HEADER_SIZE;
      var k := l.ClassFor(x);
      if k.None? { return Err(Error.InvalidOffset); }
      BlockFits(l, x);
      var header := ReadHeader(arena, x);
      if header.None? { return Err(Error.InvalidOffset); }
      if header.value.0 != MAGIC { return Err(Error.NotAllocated); }
      ClearMagic(arena, x);
      if x in live { PutBack(l, free, live, k.value, x); }
      forall y: nat | l.IsBlock(y) && y != x
        ensures y + ALLOCATOR_HEADER_SIZE <= arena.Length && Word(arena, y) == old(Word(arena, y))
      {
        OtherBlock(l, x, y);
      }
      free := free[k.value := free[k.value] + [x]];
      live := live - {x};
      return Ok(());
    }

    /** The record of an allocation is believed in nothing but its data offset. */
    method Free(arena: array<byte>, allocation: Allocation) returns (r: Result<(), Error>)
      requires Valid()
      modifies this, arena
      ensures r.Err? ==> unchanged(this) && arena[..] == old(arena[..])
      ensures old(Honest(arena)) ==>
                && Honest(arena)
                && (r.Ok? <==> allocation.dataOffset >= ALLOCATOR_HEADER_SIZE
                               && allocation.dataOffset - ALLOCATOR_HEADER_SIZE in old(live))
                && (r.Ok? ==> live == old(live) - {allocation.dataOffset - ALLOCATOR_HEADER_SIZE})
    {
      r := FreeAt(arena, allocation.dataOffset);
    }

    /** Hand the whole arena back: the lists are rebuilt and the arena is not written. */
    method Reset(arena: array<byte>) returns (r: Result<(), Error>)
      requires Valid()
      modifies this
      ensures Valid() && r == if arena.Length != l.arena then Err(InvalidArenaSize) else Ok(())
      ensures r.Err? ==> unchanged(this)
      ensures r.Ok? ==> live == {}
      ensures r.Ok? && old(Honest(arena)) ==> (Honest(arena) <==> old(live) == {})
    {
      hide Multiple, Word, Listed;
      if arena.Length != l.arena { return Err(InvalidArenaSize); }
      free := AllFree(l);
      live := {};
      return Ok(());
    }

    /** The holder of a block writes behind its header, whatever the bytes: the arena stays honest. */
    method WritePayload(arena: array<byte>, x: nat, at: nat, data: seq<byte>)
      requires Honest(arena) && l.IsBlock(x) && x + ALLOCATOR_HEADER_SIZE <= at && at + |data| <= l.BlockEnd(x)
      requires at + |data| <= arena.Length
      modifies arena
      ensures Honest(arena) && arena[at..at + |data|] == data
      ensures forall i | 0 <= i < arena.Length && !(at <= i < at + |data|) :: arena[i] == old(arena[i])
    {
      hide Multiple, Word, Listed;
      Fill(arena, at, data);
      forall y: nat | l.IsBlock(y)
        ensures y + ALLOCATOR_HEADER_SIZE <= arena.Length && Word(arena, y) == old(Word(arena, y))
      {
        if y == x { BlockFits(l, x); } else { OtherBlock(l, x, y); }
      }
    }
  }

  /** As many whole blocks as fit. */
  function Whole(room: nat, size: nat): (length: nat)
    requires size > 0
    ensures length <= room < length + size && Multiple(length, size)
  {
    BlocksMultiple(room / size, size);
    assert room == size * (room / size) + room % size;
    room / size * size
  }

  lemma {:induction false} BlocksMultiple(n: nat, size: nat)
    requires size > 0
    ensures Multiple(n * size, size)
    decreases n
  {
    if n > 0 {
      BlocksMultiple(n - 1, size);
      assert n * size - size == (n - 1) * size && n * size >= size;
    }
  }

  /** The three areas: the first two get their share of the arena, rounded down to whole blocks, and the
      third what is left. */
  function LayoutOf(total: nat, small: nat, medium: nat, large: nat, smallShare: nat, mediumShare: nat): Layout
    requires small > 0 && medium > 0 && large > 0 && smallShare + mediumShare <= total
  {
    var s, m := Whole(smallShare, small), Whole(mediumShare, medium);
    Layout(total, [Area(0, s, small), Area(s, m, medium), Area(s + m, Whole(total - s - m, large), large)])
  }

  lemma LayoutIsSound(total: nat, small: nat, medium: nat, large: nat, smallShare: nat, mediumShare: nat)
    requires ALLOCATOR_HEADER_SIZE < small <= medium <= large && smallShare + mediumShare <= total
    requires forall c | 0 <= c < CLASSES :: LayoutOf(total, small, medium, large, smallShare, mediumShare).areas[c].length > 0
    ensures LayoutOf(total, small, medium, large, smallShare, mediumShare).Sound()
  {
  }

  function Share(total: nat, percent: nat): (share: nat)
    ensures 100 * share <= total * percent < 100 * (share + 1)
  {
    total * percent / 100
  }

  lemma SharesFit(total: nat, p: nat, q: nat)
    requires p + q <= 100
    ensures Share(total, p) + Share(total, q) <= total
  {
    assert total * p + total * q == total * (p + q) <= total * 100;
  }

  /** A size and its share of the arena in percent. */
  datatype SizePercent = SizePercent(size: nat, percent: nat)

  /** Build an allocator from three size classes whose shares add up. It fails exactly when the classes
      are not three ascending sizes above the header that add up, or when a class gets no block. */
  method NewFromConfig(total: nat, classes: seq<SizePercent>) returns (r: Result<FixedAllocator, Error>)
    ensures r.Ok? ==> fresh(r.value) && r.value.Valid() && r.value.live == {} && r.value.l.arena == total
    ensures r.Ok? <==>
              && |classes| == CLASSES && classes[0].percent + classes[1].percent + classes[2].percent == 100
              && ALLOCATOR_HEADER_SIZE < classes[0].size <= classes[1].size <= classes[2].size
              && classes[0].size <= Share(total, classes[0].percent) && classes[1].size <= Share(total, classes[1].percent)
              && classes[2].size <= total - Whole(Share(total, classes[0].percent), classes[0].size)
                                    - Whole(Share(total, classes[1].percent), classes[1].size)
    ensures r.Ok? ==> forall c | 0 <= c < CLASSES :: r.value.l.areas[c].size == classes[c].size
  {
    hide Multiple, Whole, Share;
    if |classes| != CLASSES { return Err(InvalidSizeClassConfiguration); }
    if classes[0].percent + classes[1].percent + classes[2].percent != 100 { return Err(InvalidSizeClassConfiguration); }
    var small, medium, large := classes[0].size, classes[1].size, classes[2].size;
    if small <= ALLOCATOR_HEADER_SIZE || medium <= ALLOCATOR_HEADER_SIZE || large <= ALLOCATOR_HEADER_SIZE {
      return Err(BlockTooSmallForHeader);
    }
    if small > medium || medium > large { return Err(InvalidBlockSizeOrder); }
    var p, q := Share(total, classes[0].percent), Share(total, classes[1].percent);
    SharesFit(total, classes[0].percent, classes[1].percent);
    var l := LayoutOf(total, small, medium, large, p, q);
    NonEmpty(p, small);
    NonEmpty(q, medium);
    NonEmpty(total - l.areas[0].length - l.areas[1].length, large);
    if l.areas[0].length == 0 || l.areas[1].length == 0 || l.areas[2].length == 0 { return Err(InvalidArenaSize); }
    LayoutIsSound(total, small, medium, large, p, q);
    var free := AllFree(l);
    var allocator := new FixedAllocator(l, free);
    return Ok(allocator);
  }

  lemma NonEmpty(room: nat, size: nat)
    requires size > 0
    ensures Whole(room, size) > 0 <==> size <= room
  {
  }
}
