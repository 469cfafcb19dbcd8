/** What the write buffer and the account of block ownership take for granted of an allocation is what
    the segment's manager proves of it: a granted block is nobody's, lies inside the segment, and
    overlaps no block of any message. */
module Grants {
  import opened Common
  import opened Wrappers
  import opened BlockMath
  import opened Buddy
  import opened Region
  import opened Chain
  import WriteBuffer
  import Ownership
  import opened Segment

  /** The account lists as allocated exactly the buffers in use, and the same releases to reclaim. */
  ghost predicate Coupled(local: LocalManager, st: Ownership.State)
    reads local, local.dedicated, local.Footprint()
  {
    st.releases == local.releases && forall x :: local.InUse(x) <==> x in st.live
  }

  /** The segment hands out blocks of the default size or larger. */
  predicate DefaultBlocks(local: LocalManager) {
    forall i | 0 <= i < |local.shared| :: local.shared[i].allocator.g.Size(0) >= MIN_BLOCK_SIZE
  }

  /** The headers of a message's blocks give each the room its allocator gave it. */
  ghost predicate Describes(local: LocalManager, m: Mapping, chain: seq<int>)
    reads local.dedicated, local.Footprint()
  {
    |m.bytes| == local.total && forall x <- chain :: local.Spans(x, WriteBuffer.EndOf(m, x))
  }

  /** A block in use that is in no message may be granted to any message. */
  lemma GrantIsHonoured(local: LocalManager, m: Mapping, chain: seq<int>, size: nat, x: int, cap: nat)
    requires local.Valid() && Describes(local, m, chain) && x !in chain
    requires local.Spans(x, x + BUFFER_HEADER_SIZE + cap) && size <= cap
    ensures WriteBuffer.Honours(m, chain, size, WriteBuffer.Granted(x, cap))
  {
    hide LocalManager.Valid, LocalManager.Spans;
    var end := x + BUFFER_HEADER_SIZE + cap;
    local.Inside(x, end);
    forall i | 0 <= i < |chain| ensures end <= chain[i] || WriteBuffer.EndOf(m, chain[i]) <= x {
      var y := chain[i];
      if x < y {
        local.BuffersApart(x, end, y, WriteBuffer.EndOf(m, y));
      } else {
        local.BuffersApart(y, WriteBuffer.EndOf(m, y), x, end);
      }
    }
  }

  /** A buffer of a segment with default blocks has the smallest block's room, or more. */
  lemma GrantIsRoomy(local: LocalManager, x: int, end: int)
    requires local.Valid() && DefaultBlocks(local) && local.Spans(x, end)
    ensures end - x - BUFFER_HEADER_SIZE >= WriteBuffer.MIN_ROOM
  {
    hide SharedRegion.Valid, Pow2, D.Area.Valid;
    if i :| 0 <= i < |local.shared| && local.SpansShared(i, x, end) {
      SharedIsRoomy(local.shared[i], x);
    } else {
      var k :| 0 <= k < |local.dedicated.regions| && local.SpansDedicated(k, x, end);
      DedicatedIsRoomy(local.dedicated, k);
    }
  }

  lemma SharedIsRoomy(r: SharedRegion, x: int)
    requires r.Valid() && r.InUse(x)
    ensures r.allocator.g.Size(r.allocator.live[x - r.offset - ALLOCATOR_HEADER_SIZE]) >= r.allocator.g.Size(0)
  {
    hide BuddyAllocator.Honest;
    r.allocator.LiveWidth(r.arena, x - r.offset - ALLOCATOR_HEADER_SIZE);
  }

  lemma DedicatedIsRoomy(area: D.Area, k: nat)
    requires area.Valid() && k < |area.regions|
    ensures area.regions[k].size >= MAX_BLOCK_SIZE
  {
    D.CarvedDownwards(area.regions, area.total, k, k);
  }

  /** The account after every release has been reclaimed. */
  function Drained(st: Ownership.State): Ownership.State {
    Ownership.Return(st, st.releases).(releases := [])
  }

  function Drains(n: nat): seq<Ownership.Step> {
    if n == 0 then [] else [Ownership.DrainRelease] + Drains(n - 1)
  }

  lemma DrainOnce(st: Ownership.State)
    requires st.releases != []
    ensures Drained(Ownership.Apply(st, Ownership.DrainRelease)) == Drained(st)
  {
    var first, rest := st.releases[..1], st.releases[1..];
    assert st.releases == first + rest;
    assert st.live - (set b <- first) - (set b <- rest) == st.live - (set b <- st.releases);
  }

  /** As many steps as there are releases get there, and what comes next comes next. */
  lemma {:induction false} DrainRuns(st: Ownership.State, more: seq<Ownership.Step>)
    requires Ownership.Inv(st)
    ensures Ownership.Exec(st, Drains(|st.releases|) + more) == Ownership.Exec(Drained(st), more)
    ensures Ownership.Inv(Drained(st))
    decreases |st.releases|
  {
    hide Ownership.Inv, Ownership.Return;
    if st.releases == [] {
      assert Drains(0) + more == more;
      NothingToDrain(st);
    } else {
      var next := Ownership.Apply(st, Ownership.DrainRelease);
      Ownership.StepKeeps(st, Ownership.DrainRelease);
      DrainOnce(st);
      DrainRuns(next, more);
      var n := |st.releases|;
      var steps := Drains(n) + more;
      assert steps[0] == Ownership.DrainRelease && steps[1..] == Drains(n - 1) + more;
    }
  }

  lemma NothingToDrain(st: Ownership.State)
    requires st.releases == []
    ensures Drained(st) == st
  {
    assert st.live - {} == st.live;
  }

  /** The message a granted block is for: a new one of a stream, or one being written. */
  datatype Target = NewMessage(stream: nat) | Growing(i: nat)

  predicate Open(st: Ownership.State, to: Target) {
    to.Growing? ==> Ownership.Has(st, to.i, Ownership.Writing)
  }

  function GrantStep(to: Target, x: int): Ownership.Step {
    match to
    case NewMessage(stream) => Ownership.Start(stream, x)
    case Growing(i) => Ownership.Extend(i, x)
  }

  /** The steps of the account that an allocation is. */
  function AllocSteps(st: Ownership.State, drain: bool, to: Target, r: Result<int, ManagerError>): seq<Ownership.Step> {
    (if drain then Drains(|st.releases|) else []) + (if r.Ok? then [GrantStep(to, r.value)] else [])
  }

  /** Granting a block nobody has is a step. */
  lemma GrantRuns(st: Ownership.State, to: Target, x: int)
    requires Ownership.Inv(st) && Open(st, to) && x !in st.live
    ensures Ownership.Exec(st, [GrantStep(to, x)]) == Some(Ownership.Apply(st, GrantStep(to, x)))
    ensures Ownership.Inv(Ownership.Apply(st, GrantStep(to, x)))
    ensures var st' := Ownership.Apply(st, GrantStep(to, x)); st'.live == st.live + {x} && st'.releases == st.releases
  {
    hide Ownership.Inv;
    Ownership.StepKeeps(st, GrantStep(to, x));
    var step := GrantStep(to, x);
    assert [step][1..] == [];
    assert Ownership.Exec(Ownership.Apply(st, step), []) == Some(Ownership.Apply(st, step));
  }

  /** What is left of the account once an allocation may have reclaimed the releases. */
  function Before(st: Ownership.State, drain: bool): Ownership.State {
    if drain then Drained(st) else st
  }

  lemma AllocRuns(st: Ownership.State, drain: bool, to: Target, r: Result<int, ManagerError>)
    requires Ownership.Inv(st) && Open(st, to) && (r.Ok? ==> r.value !in Before(st, drain).live)
    ensures var end := Ownership.Exec(st, AllocSteps(st, drain, to, r));
            && end.Some? && Ownership.Inv(end.value) && end.value.releases == Before(st, drain).releases
            && end.value.live == Before(st, drain).live + if r.Ok? then {r.value} else {}
  {
    hide Ownership.Inv;
    var more := if r.Ok? then [GrantStep(to, r.value)] else [];
    DrainRuns(st, more);
    assert [] + more == more;
    if r.Ok? {
      GrantRuns(Before(st, drain), to, r.value);
    }
  }

  /** The account runs through these steps, keeps its own invariant, and ends where the manager is. */
  ghost predicate Follows(local: LocalManager, st: Ownership.State, steps: seq<Ownership.Step>)
    reads local, local.dedicated, local.Footprint()
  {
    var end := Ownership.Exec(st, steps);
    end.Some? && Ownership.Inv(end.value) && Coupled(local, end.value)
  }

  /** What the write buffer relies on, for every chain of other buffers in use. */
  ghost predicate Reliable(local: LocalManager, size: nat, x: int, cap: nat)
    reads local, local.dedicated, local.Footprint()
  {
    && local.Spans(x, x + BUFFER_HEADER_SIZE + cap) && size <= cap
    && (DefaultBlocks(local) ==> WriteBuffer.MIN_ROOM <= cap)
    && forall m, chain | Describes(local, m, chain) && x !in chain ::
         WriteBuffer.Honours(m, chain, size, WriteBuffer.Granted(x, cap))
  }

  lemma GrantIsReliable(local: LocalManager, size: nat, x: int, cap: nat)
    requires local.Valid() && local.Spans(x, x + BUFFER_HEADER_SIZE + cap) && size <= cap
    ensures Reliable(local, size, x, cap)
  {
    hide LocalManager.Valid, LocalManager.Spans, LocalManager.Footprint, DefaultBlocks, Describes, WriteBuffer.Honours;
    if DefaultBlocks(local) { GrantIsRoomy(local, x, x + BUFFER_HEADER_SIZE + cap); }
    forall m, chain | Describes(local, m, chain) && x !in chain
      ensures WriteBuffer.Honours(m, chain, size, WriteBuffer.Granted(x, cap))
    {
      GrantIsHonoured(local, m, chain, size, x, cap);
    }
  }

  /** The account after an allocation, from what the manager says of the buffers in use. */
  lemma AllocFollows(local: LocalManager, st: Ownership.State, drain: bool, to: Target, r: Result<int, ManagerError>)
    requires Ownership.Inv(st) && Open(st, to) && (r.Ok? ==> r.value !in Before(st, drain).live)
    requires local.releases == Before(st, drain).releases
    requires forall y :: local.InUse(y) <==> y in Before(st, drain).live || r == Ok(y)
    ensures Follows(local, st, AllocSteps(st, drain, to, r))
  {
    hide Ownership.Inv, LocalManager.InUse, LocalManager.Footprint, Ownership.Exec, Before, AllocSteps;
    AllocRuns(st, drain, to, r);
  }

  /** An allocation of the manager, seen from the account: it is a run of the account's own steps, the
      grant among them, which therefore was enabled. What was granted is what the write buffer relies
      on. */
  method AllocBlock(local: LocalManager, ghost st: Ownership.State, ghost to: Target, size: nat, now: int, drain: bool)
    returns (r: Result<int, ManagerError>, ghost cap: nat)
    requires local.Valid() && now > 0 && Coupled(local, st) && Ownership.Inv(st) && Open(st, to)
    modifies local, local.dedicated, local.Footprint()
    ensures local.Valid()
    ensures Follows(local, st, AllocSteps(st, drain && size > 0 && !old(local.closed), to, r))
    ensures r.Ok? ==> Reliable(local, size, r.value, cap)
  {
    hide Ownership.Inv, LocalManager.Valid, LocalManager.Spans, LocalManager.InUse, LocalManager.Footprint,
         Follows, Reliable, Ownership.Exec, AllocSteps;
    ghost var drained := drain && size > 0 && !local.closed;
    r := local.Alloc(size, now, drain);
    AllocFollows(local, st, drained, to, r);
    if r.Err? { return r, 0; }
    ghost var end :| local.Spans(r.value, end) && r.value + BUFFER_HEADER_SIZE + size <= end;
    cap := end - r.value - BUFFER_HEADER_SIZE;
    GrantIsReliable(local, size, r.value, cap);
  }

  /** Blocks given back one by one by their owner: the account's return of all of them. */
  method FreeBlocks(local: LocalManager, ghost st: Ownership.State, blocks: seq<int>, now: int)
    requires local.Valid() && now > 0 && Coupled(local, st)
    modifies local.dedicated, local.Footprint()
    ensures local.Valid() && Coupled(local, Ownership.Return(st, blocks))
  {
    hide LocalManager.Valid, LocalManager.InUse;
    for k := 0 to |blocks|
      invariant local.Valid() && local.releases == st.releases
      invariant forall x :: local.InUse(x) <==> x in st.live && x !in blocks[..k]
    {
      local.FreeAt(blocks[k], now);
      assert blocks[..k + 1] == blocks[..k] + [blocks[k]];
    }
    assert blocks[..|blocks|] == blocks;
  }
}
