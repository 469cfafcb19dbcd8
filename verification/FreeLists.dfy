/** Free lists per order, as the set of blocks they hold. */
module FreeLists {
  import opened Sequences
  import opened BlockMath
  import opened Tiling

  predicate Ascending(s: seq<nat>) {
    forall i, j | 0 <= i < j < |s| :: s[i] < s[j]
  }

  ghost function FreeSet(free: seq<seq<nat>>): set<Block> {
    set o: nat, x | o < |free| && x in free[o] :: Block(o, x)
  }

  ghost function LiveSet(live: map<nat, nat>): set<Block> {
    set x | x in live :: Block(live[x], x)
  }

  lemma InFree(free: seq<seq<nat>>, b: Block)
    ensures b in FreeSet(free) <==> b.order < |free| && b.offset in free[b.order]
  {
  }

  lemma InLive(live: map<nat, nat>, b: Block)
    ensures b in LiveSet(live) <==> b.offset in live && live[b.offset] == b.order
  {
  }

  lemma PushSpec(free: seq<seq<nat>>, order: nat, x: nat)
    requires order < |free|
    ensures FreeSet(free[order := free[order] + [x]]) == FreeSet(free) + {Block(order, x)}
  {
    var free' := free[order := free[order] + [x]];
    forall b ensures b in FreeSet(free') <==> b in FreeSet(free) + {Block(order, x)} {
      InFree(free, b);
      InFree(free', b);
    }
  }

  lemma PopSpec(free: seq<seq<nat>>, order: nat)
    requires order < |free| && free[order] != [] && Distinct(free[order])
    ensures var n := |free[order]| - 1;
            && FreeSet(free[order := free[order][..n]]) == FreeSet(free) - {Block(order, free[order][n])}
            && Block(order, free[order][n]) in FreeSet(free)
  {
    var n := |free[order]| - 1;
    var free' := free[order := free[order][..n]];
    forall b ensures b in FreeSet(free') <==> b in FreeSet(free) - {Block(order, free[order][n])} {
      InFree(free, b);
      InFree(free', b);
    }
  }

  lemma LiveAddSpec(live: map<nat, nat>, x: nat, order: nat)
    requires x !in live
    ensures LiveSet(live[x := order]) == LiveSet(live) + {Block(order, x)}
  {
    var live' := live[x := order];
    forall b ensures b in LiveSet(live') <==> b in LiveSet(live) + {Block(order, x)} {
      InLive(live, b);
      InLive(live', b);
    }
  }

  lemma LiveRemoveSpec(live: map<nat, nat>, x: nat)
    requires x in live
    ensures LiveSet(live - {x}) == LiveSet(live) - {Block(live[x], x)}
  {
    forall b ensures b in LiveSet(live - {x}) <==> b in LiveSet(live) - {Block(live[x], x)} {
      InLive(live, b);
      InLive(live - {x}, b);
    }
  }

  function Insert(x: nat, s: seq<nat>): seq<nat> {
    if s == [] || x <= s[0] then [x] + s else [s[0]] + Insert(x, s[1..])
  }

  /** Stands for `sort_unstable`. */
  function Sort(s: seq<nat>): seq<nat> {
    if s == [] then [] else Insert(s[0], Sort(s[1..]))
  }

  /** Something smaller in front keeps a list ascending. */
  lemma Prepend(x: nat, s: seq<nat>)
    requires Ascending(s) && forall y <- s :: x < y
    ensures Ascending([x] + s)
  {
    assert forall i | 0 <= i < |s| :: s[i] in s;
  }

  lemma {:induction false} InsertSpec(x: nat, s: seq<nat>)
    requires Ascending(s) && x !in s
    ensures Ascending(Insert(x, s)) && |Insert(x, s)| == |s| + 1
    ensures forall y :: y in Insert(x, s) <==> y == x || y in s
  {
    if s == [] || x <= s[0] {
      assert forall i | 0 <= i < |s| :: s[0] <= s[i];
      Prepend(x, s);
    } else {
      var rest := Insert(x, s[1..]);
      InsertSpec(x, s[1..]);
      assert s == [s[0]] + s[1..];
      Prepend(s[0], rest);
    }
  }

  lemma {:induction false} SortSpec(s: seq<nat>)
    requires Distinct(s)
    ensures Ascending(Sort(s)) && |Sort(s)| == |s|
    ensures forall y :: y in Sort(s) <==> y in s
  {
    if s != [] {
      assert s == [s[0]] + s[1..];
      assert s[0] !in s[1..];
      SortSpec(s[1..]);
      InsertSpec(s[0], Sort(s[1..]));
    }
  }

  /** No two blocks of this order's list are buddies. */
  ghost predicate NoPairAt(g: Geometry, free: seq<seq<nat>>, order: nat) {
    order < |free| ==>
      forall x <- free[order] :: !(Multiple(x, g.Size(order + 1)) && x + g.Size(order) in free[order])
  }

  ghost predicate NoPairs(g: Geometry, free: seq<seq<nat>>) {
    forall o | 0 <= o < g.top :: NoPairAt(g, free, o)
  }

  lemma PairIsAt(g: Geometry, free: seq<seq<nat>>, b: Block)
    requires BuddyPair(g, FreeSet(free), b)
    ensures b.order < |free| && !NoPairAt(g, free, b.order)
  {
    InFree(free, b);
    InFree(free, Block(b.order, b.offset + g.Size(b.order)));
  }

  lemma {:induction false} FloorMultiple(x: nat, s: nat) returns (m: nat)
    requires s > 0
    ensures Multiple(m, s) && m <= x < m + s
    decreases x
  {
    if x < s {
      m := 0;
    } else {
      m := FloorMultiple(x - s, s);
      m := m + s;
    }
  }

  /** The initial carving: every top-order block, and nothing else, is free. */
  lemma TopTiles(g: Geometry, free: seq<seq<nat>>)
    requires g.Sound() && |free| == g.top + 1
    requires forall o | 0 <= o < g.top :: free[o] == []
    requires forall x: nat :: x in free[g.top] <==> x < g.arena && Multiple(x, g.Size(g.top))
    ensures Tiles(g, FreeSet(free))
  {
    forall b ensures b in FreeSet(free) <==> b.order == g.top && IsBlock(g, b) {
      InFree(free, b);
    }
    forall b, c | b in FreeSet(free) && c in FreeSet(free) && b != c ensures !Meets(g, b, c) {
      if Meets(g, b, c) { Laminar(g, b, c); }
    }
    forall x: nat | x < g.arena ensures Covered(g, FreeSet(free), x) {
      var m := FloorMultiple(x, g.Size(g.top));
      assert Contains(g, Block(g.top, m), x);
    }
  }
}
