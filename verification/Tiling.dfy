/** Aligned power-of-two blocks over an arena: how they nest, split and merge, and why merging
    buddies is enough to find every free range. */
module Tiling {
  import opened BlockMath

  /** `shift` is `log2(min_block)`; order `n` names blocks of `min_block << n` bytes up to `top`. */
  datatype Geometry = Geometry(arena: nat, shift: nat, top: nat) {
    function Size(order: nat): nat { Pow2(shift + order) }

    predicate Sound() {
      Multiple(arena, Size(top)) && arena >= Size(top)
    }
  }

  datatype Block = Block(order: nat, offset: nat)

  predicate IsBlock(g: Geometry, b: Block) {
    b.order <= g.top && Multiple(b.offset, g.Size(b.order)) && b.offset < g.arena
  }

  predicate Contains(g: Geometry, b: Block, x: nat) {
    b.offset <= x < b.offset + g.Size(b.order)
  }

  /** The two ranges have a byte in common. */
  predicate Meets(g: Geometry, b: Block, c: Block) {
    b.offset < c.offset + g.Size(c.order) && c.offset < b.offset + g.Size(b.order)
  }

  predicate Within(g: Geometry, b: Block, c: Block) {
    c.offset <= b.offset && b.offset + g.Size(b.order) <= c.offset + g.Size(c.order)
  }

  lemma {:induction false} ArenaMultiple(g: Geometry, order: nat)
    requires g.Sound() && order <= g.top
    ensures Multiple(g.arena, g.Size(order))
    decreases g.top - order
  {
    if order < g.top {
      ArenaMultiple(g, order + 1);
      HalvesAligned(g.arena, g.Size(order));
    }
  }

  /** A block that starts inside the arena ends inside it. */
  lemma EndsInside(g: Geometry, b: Block)
    requires g.Sound() && IsBlock(g, b)
    ensures b.offset + g.Size(b.order) <= g.arena
  {
    ArenaMultiple(g, b.order);
    if b.offset + g.Size(b.order) > g.arena {
      MultiplesApart(b.offset, g.arena, g.Size(b.order));
    }
  }

  function Parent(g: Geometry, b: Block): Block
    requires IsBlock(g, b)
  {
    if Multiple(b.offset, g.Size(b.order + 1)) || b.offset < g.Size(b.order)
    then Block(b.order + 1, b.offset)
    else Block(b.order + 1, b.offset - g.Size(b.order))
  }

  lemma ParentHolds(g: Geometry, b: Block)
    requires g.Sound() && IsBlock(g, b) && b.order < g.top
    ensures IsBlock(g, Parent(g, b)) && Within(g, b, Parent(g, b))
  {
    LowerOrUpper(b.offset, g.Size(b.order));
  }

  /** Aligned blocks never straddle one another. */
  lemma {:induction false} Laminar(g: Geometry, b: Block, c: Block)
    requires g.Sound() && IsBlock(g, b) && IsBlock(g, c) && b.order <= c.order && Meets(g, b, c)
    ensures Within(g, b, c)
    ensures b.order == c.order ==> b == c
    decreases c.order - b.order
  {
    if b.order == c.order {
      if b.offset <= c.offset { MultiplesApart(b.offset, c.offset, g.Size(b.order)); }
      else { MultiplesApart(c.offset, b.offset, g.Size(b.order)); }
    } else {
      ParentHolds(g, b);
      Laminar(g, Parent(g, b), c);
    }
  }

  function Lower(b: Block): Block
    requires b.order > 0
  {
    Block(b.order - 1, b.offset)
  }

  function Upper(g: Geometry, b: Block): Block
    requires b.order > 0
  {
    Block(b.order - 1, b.offset + g.Size(b.order - 1))
  }

  lemma HalvesAreBlocks(g: Geometry, b: Block)
    requires g.Sound() && IsBlock(g, b) && b.order > 0
    ensures IsBlock(g, Lower(b)) && IsBlock(g, Upper(g, b))
    ensures g.Size(b.order) == 2 * g.Size(b.order - 1)
    ensures Within(g, Lower(b), b) && Within(g, Upper(g, b), b) && !Meets(g, Lower(b), Upper(g, b))
    ensures forall x | Contains(g, b, x) :: Contains(g, Lower(b), x) || Contains(g, Upper(g, b), x)
  {
    HalvesAligned(b.offset, g.Size(b.order - 1));
    EndsInside(g, b);
  }

  /** The blocks are aligned, no two of them meet, and every byte of the arena is in one. */
  ghost predicate Tiles(g: Geometry, blocks: set<Block>) {
    && (forall b <- blocks :: IsBlock(g, b))
    && (forall b, c | b in blocks && c in blocks && b != c :: !Meets(g, b, c))
    && (forall x: nat | x < g.arena :: Covered(g, blocks, x))
  }

  ghost predicate Covered(g: Geometry, blocks: set<Block>, x: nat) {
    exists b :: b in blocks && Contains(g, b, x)
  }

  lemma SplitTiles(g: Geometry, blocks: set<Block>, b: Block)
    requires g.Sound() && Tiles(g, blocks) && b in blocks && b.order > 0
    ensures Tiles(g, blocks - {b} + {Lower(b), Upper(g, b)})
    ensures Lower(b) !in blocks && Upper(g, b) !in blocks
  {
    HalvesAreBlocks(g, b);
    var after := blocks - {b} + {Lower(b), Upper(g, b)};
    forall x: nat | x < g.arena ensures Covered(g, after, x) {
      assert Covered(g, blocks, x);
      var c :| c in blocks && Contains(g, c, x);
      if c == b {
        assert Contains(g, Lower(b), x) || Contains(g, Upper(g, b), x);
        assert Lower(b) in after && Upper(g, b) in after;
      } else {
        assert c in after;
      }
    }
    assert Meets(g, Lower(b), b) && Meets(g, Upper(g, b), b);
  }

  /** A lower half together with its upper half. */
  ghost predicate BuddyPair(g: Geometry, blocks: set<Block>, b: Block) {
    && b in blocks && b.order < g.top
    && Multiple(b.offset, g.Size(b.order + 1))
    && Block(b.order, b.offset + g.Size(b.order)) in blocks
  }

  lemma MergeTiles(g: Geometry, blocks: set<Block>, b: Block)
    requires g.Sound() && Tiles(g, blocks) && BuddyPair(g, blocks, b)
    ensures var merged := Block(b.order + 1, b.offset);
            && merged !in blocks
            && Tiles(g, blocks - {b, Block(b.order, b.offset + g.Size(b.order))} + {merged})
  {
    var twin := Block(b.order, b.offset + g.Size(b.order));
    var merged := Block(b.order + 1, b.offset);
    var after := blocks - {b, twin} + {merged};
    assert IsBlock(g, merged);
    assert Lower(merged) == b && Upper(g, merged) == twin;
    HalvesAreBlocks(g, merged);
    assert Meets(g, b, merged);
    forall c | c in blocks && c != b && c != twin ensures !Meets(g, c, merged) {
      assert !Meets(g, c, b) && !Meets(g, c, twin);
    }
    forall x: nat | x < g.arena ensures Covered(g, after, x) {
      assert Covered(g, blocks, x);
      var c :| c in blocks && Contains(g, c, x);
      if c == b || c == twin {
        assert Contains(g, merged, x) && merged in after;
      } else {
        assert c in after;
      }
    }
  }

  /** No live block touches the range of `r`. */
  ghost predicate FreeRange(g: Geometry, live: set<Block>, r: Block) {
    forall b <- live :: !Meets(g, b, r)
  }

  ghost predicate Served(g: Geometry, free: set<Block>, r: Block) {
    exists b :: b in free && b.order >= r.order && Within(g, r, b)
  }

  ghost predicate PairBelow(g: Geometry, free: set<Block>, order: nat) {
    exists b :: BuddyPair(g, free, b) && b.order < order
  }

  /** Free blocks that serve both halves of a range serve the range, or are exactly its halves. */
  lemma HalvesServed(g: Geometry, free: set<Block>, r: Block)
    requires g.Sound() && (forall b <- free :: IsBlock(g, b)) && IsBlock(g, r) && r.order > 0
    requires Served(g, free, Lower(r)) && Served(g, free, Upper(g, r))
    ensures Served(g, free, r) || BuddyPair(g, free, Lower(r))
  {
    HalvesAreBlocks(g, r);
    hide IsBlock;
    var lo, up := Lower(r), Upper(g, r);
    var c :| c in free && c.order >= lo.order && Within(g, lo, c);
    var d :| d in free && d.order >= up.order && Within(g, up, d);
    if c.order >= r.order {
      HoldsHalf(g, r, lo, c);
    } else if d.order >= r.order {
      HoldsHalf(g, r, up, d);
    } else {
      SameBlock(g, lo, c);
      SameBlock(g, up, d);
    }
  }

  /** A block at least as large as `r` that holds a half of it holds all of it. */
  lemma HoldsHalf(g: Geometry, r: Block, half: Block, c: Block)
    requires g.Sound() && IsBlock(g, r) && IsBlock(g, c) && r.order > 0 && c.order >= r.order
    requires half == Lower(r) || half == Upper(g, r)
    requires Within(g, half, c)
    ensures Within(g, r, c)
  {
    HalvesAreBlocks(g, r);
    Laminar(g, r, c);
  }

  lemma SameBlock(g: Geometry, b: Block, c: Block)
    requires g.Sound() && IsBlock(g, b) && IsBlock(g, c) && b.order == c.order && Within(g, b, c)
    ensures b == c
  {
  }

  /** A wholly free aligned range lies in one free block, unless two free buddies below its order
      are still unmerged. */
  lemma {:induction false} FreeRangeIsServed(g: Geometry, free: set<Block>, live: set<Block>, r: Block)
    requires g.Sound() && Tiles(g, free + live) && IsBlock(g, r) && FreeRange(g, live, r)
    ensures Served(g, free, r) || PairBelow(g, free, r.order)
    decreases r.order
  {
    if r.order == 0 {
      assert Covered(g, free + live, r.offset);
      var b :| b in free + live && Contains(g, b, r.offset);
      assert Meets(g, b, r);
      Laminar(g, r, b);
    } else {
      HalvesAreBlocks(g, r);
      FreeRangeIsServed(g, free, live, Lower(r));
      FreeRangeIsServed(g, free, live, Upper(g, r));
      if !PairBelow(g, free, r.order) {
        HalvesServed(g, free, r);
      }
    }
  }
}
