/** Who owns a block, from the allocation to the release, over whole runs of two well-behaved peers:
    the write buffer, the outgoing message, the queue, a drain's batch, the inbox, the read buffer's
    chunks, the leases of zero-copy results, the pending releases and the release queue
    (src/buffer/buf_v5.rs, src/v5/dynshm.rs, src/session/mod.rs, src/stream.rs). */
module Ownership {
  import opened Wrappers
  import opened Sequences

  datatype Stage = Writing | Outgoing | Framing | Queued | Batched | Inbox | Readable

  /** A message on its way, with the blocks it still has. */
  datatype Message = Message(stream: nat, stage: Stage, blocks: seq<int>)

  datatype State = State(
    /** Blocks the segment's allocators have handed out. */
    live: set<int>,
    messages: seq<Message>,
    /** Blocks whose chunk is spent while leases hold them. */
    held: seq<int>,
    leases: multiset<int>,
    pending: seq<int>,
    releases: seq<int>,
    /** History: every block ever granted, and ever given back to its allocator. */
    granted: multiset<int>,
    returned: multiset<int>)

  datatype Step =
    | Start(stream: nat, block: int)   // the first write of a message is granted a block
    | Extend(i: nat, block: int)       // a later write is
    | Discard(i: nat)                  // the stream closes before the flush
    | TakeShm(i: nat)
    | Put(i: nat)                      // the queue takes the message
    | Drop(i: nat)                     // it does not, or the flush is cancelled
    | TakeFallback(i: nat)
    | BuildFrame(i: nat)               // the front block has been copied into frames
    | Pop(i: nat)                      // in any order: which comes first does not matter here
    | Deliver(i: nat)
    | Refuse(i: nat)                   // the stream was reused or closed: `free_chain`
    | Walk(i: nat)
    | Lease(i: nat, block: int)        // a zero-copy read or peek of a chunk
    | Spend(i: nat)                    // the front chunk has been read to its end, or the reader drops
    | DropLease(block: int)
    | Flush                            // a pending release fits the release queue
    | DrainRelease                     // the owner reclaims the oldest release

  predicate Has(st: State, i: nat, stage: Stage) {
    i < |st.messages| && st.messages[i].stage == stage
  }

  predicate Enabled(st: State, step: Step) {
    match step
    case Start(_, block) => block !in st.live
    case Extend(i, block) => Has(st, i, Writing) && block !in st.live
    case Discard(i) => Has(st, i, Writing)
    case TakeShm(i) => Has(st, i, Writing) && st.messages[i].blocks != []
    case Put(i) => Has(st, i, Outgoing)
    case Drop(i) => Has(st, i, Outgoing)
    case TakeFallback(i) => Has(st, i, Writing)
    case BuildFrame(i) => Has(st, i, Framing) && st.messages[i].blocks != []
    case Pop(i) => Has(st, i, Queued)
    case Deliver(i) => Has(st, i, Batched)
    case Refuse(i) => Has(st, i, Batched) || Has(st, i, Inbox)
    case Walk(i) => Has(st, i, Inbox)
    case Lease(i, block) => Has(st, i, Readable) && block in st.messages[i].blocks
    case Spend(i) => Has(st, i, Readable) && st.messages[i].blocks != []
    case DropLease(block) => block in st.leases
    case Flush => st.pending != []
    case DrainRelease => st.releases != []
  }

  function Moved(st: State, i: nat, stage: Stage): State
    requires i < |st.messages|
  {
    st.(messages := st.messages[i := st.messages[i].(stage := stage)])
  }

  /** The message gives up its first `n` blocks. */
  function Without(messages: seq<Message>, i: nat, n: nat): seq<Message>
    requires i < |messages| && n <= |messages[i].blocks|
  {
    messages[i := messages[i].(blocks := messages[i].blocks[n..])]
  }

  /** The allocators take blocks back. */
  function Return(st: State, blocks: seq<int>): State {
    st.(live := st.live - (set b <- blocks), returned := st.returned + multiset(blocks))
  }

  function Grant(st: State, block: int): State {
    st.(live := st.live + {block}, granted := st.granted + multiset{block})
  }

  function Apply(st: State, step: Step): State
    requires Enabled(st, step)
  {
    match step
    case Start(stream, block) => Grant(st, block).(messages := st.messages + [Message(stream, Writing, [block])])
    case Extend(i, block) =>
      Grant(st, block).(messages := st.messages[i := st.messages[i].(blocks := st.messages[i].blocks + [block])])
    case Discard(i) =>
      Return(st, st.messages[i].blocks).(messages := Without(st.messages, i, |st.messages[i].blocks|))
    case TakeShm(i) => Moved(st, i, Outgoing)
    case Put(i) => Moved(st, i, Queued)
    case Drop(i) =>
      Return(st, st.messages[i].blocks).(messages := Without(st.messages, i, |st.messages[i].blocks|))
    case TakeFallback(i) => Moved(st, i, Framing)
    case BuildFrame(i) =>
      Return(st, st.messages[i].blocks[..1]).(messages := Without(st.messages, i, 1))
    case Pop(i) => Moved(st, i, Batched)
    case Deliver(i) => Moved(st, i, Inbox)
    case Refuse(i) =>
      st.(pending := st.pending + st.messages[i].blocks, messages := Without(st.messages, i, |st.messages[i].blocks|))
    case Walk(i) => Moved(st, i, Readable)
    case Lease(i, block) => st.(leases := st.leases + multiset{block})
    case Spend(i) =>
      var block := st.messages[i].blocks[0];
      var spent := st.(messages := Without(st.messages, i, 1));
      if block in st.leases then spent.(held := st.held + [block]) else spent.(pending := st.pending + [block])
    case DropLease(block) =>
      var left := st.(leases := st.leases - multiset{block});
      if block !in left.leases && block in st.held
      then left.(held := Remove(st.held, block), pending := st.pending + [block])
      else left
    case Flush => st.(pending := st.pending[1..], releases := st.releases + [st.pending[0]])
    case DrainRelease => Return(st, st.releases[..1]).(releases := st.releases[1..])
  }

  function MessageBlocks(messages: seq<Message>): multiset<int> {
    if messages == [] then multiset{}
    else MessageBlocks(messages[..|messages| - 1]) + multiset(messages[|messages| - 1].blocks)
  }

  /** Every block somebody has, as often as somebody has it. */
  function Everywhere(st: State): multiset<int> {
    Sum(MessageBlocks(st.messages), multiset(st.held), multiset(st.pending), multiset(st.releases))
  }

  function Sum(messages: multiset<int>, held: multiset<int>, pending: multiset<int>, releases: multiset<int>): multiset<int> {
    messages + held + pending + releases
  }

  /** A chunk on the reading side refers to the block. */
  ghost predicate InChunk(st: State, b: int) {
    exists i | 0 <= i < |st.messages| :: st.messages[i].stage.Readable? && b in st.messages[i].blocks
  }

  /** What is allocated is what somebody has, and what has been granted and not returned. */
  ghost predicate Counted(st: State) {
    Everywhere(st) == multiset(st.live) && st.granted == st.returned + multiset(st.live)
  }

  /** Only blocks of chunks and held blocks are leased, and a held block is. */
  ghost predicate Leased(st: State) {
    && (forall b <- st.leases :: b in st.held || InChunk(st, b))
    && (forall b <- st.held :: b in st.leases)
  }

  ghost predicate Inv(st: State) {
    Counted(st) && Leased(st)
  }

  ghost predicate Init(st: State) {
    st == State({}, [], [], multiset{}, [], [], multiset{}, multiset{})
  }

  function Exec(st: State, steps: seq<Step>): Option<State>
    decreases |steps|
  {
    if steps == [] then Some(st)
    else if Enabled(st, steps[0]) then Exec(Apply(st, steps[0]), steps[1..])
    else None
  }

  // ------------------------------------------------------------------ moving blocks

  lemma {:induction false} ReplaceBlocks(messages: seq<Message>, i: nat, m: Message)
    requires i < |messages|
    ensures multiset(messages[i].blocks) <= MessageBlocks(messages)
    ensures MessageBlocks(messages[i := m]) == MessageBlocks(messages) - multiset(messages[i].blocks) + multiset(m.blocks)
  {
    var n := |messages| - 1;
    if i < n {
      ReplaceBlocks(messages[..n], i, m);
      assert messages[i := m][..n] == messages[..n][i := m];
      ReplaceUnder(MessageBlocks(messages[..n]), multiset(messages[i].blocks), multiset(m.blocks), multiset(messages[n].blocks));
    } else {
      assert messages[i := m][..n] == messages[..n];
    }
  }

  lemma ReplaceUnder(all: multiset<int>, out: multiset<int>, joined: multiset<int>, more: multiset<int>)
    requires out <= all
    ensures out <= all + more && all - out + joined + more == all + more - out + joined
  {
  }

  lemma {:induction false} BlockIn(messages: seq<Message>, i: nat, b: int)
    requires i < |messages| && b in messages[i].blocks
    ensures b in MessageBlocks(messages)
  {
    ReplaceBlocks(messages, i, messages[i]);
  }

  /** Blocks that are part of a set, counted once each there, can be taken out of it. */
  lemma {:induction false} TakeOut(live: set<int>, blocks: seq<int>)
    requires multiset(blocks) <= multiset(live)
    ensures multiset(live - (set b <- blocks)) == multiset(live) - multiset(blocks)
  {
    forall b ensures multiset(live - (set b <- blocks))[b] == (multiset(live) - multiset(blocks))[b] {
      assert b in blocks <==> multiset(blocks)[b] > 0;
    }
  }

  /** Chunks and leases stay as they are when message `i` is not, or not yet, being read. */
  lemma LeasesFrame(st: State, st': State, i: nat)
    requires Leased(st) && |st.messages| <= |st'.messages|
    requires i < |st.messages| ==> !st.messages[i].stage.Readable?
    requires forall j | 0 <= j < |st.messages| && j != i :: st'.messages[j] == st.messages[j]
    requires st'.held == st.held && st'.leases == st.leases
    ensures Leased(st')
  {
    forall b <- st'.leases | b !in st'.held ensures InChunk(st', b) {
      var j :| 0 <= j < |st.messages| && st.messages[j].stage.Readable? && b in st.messages[j].blocks;
      assert st'.messages[j] == st.messages[j];
    }
  }

  /** Message `i` gives up the blocks `out`, and nobody else's change. */
  lemma GivesUp(st: State, i: nat, n: nat)
    requires i < |st.messages| && n <= |st.messages[i].blocks|
    ensures var out := multiset(st.messages[i].blocks[..n]);
            && out <= MessageBlocks(st.messages)
            && MessageBlocks(Without(st.messages, i, n)) == MessageBlocks(st.messages) - out
  {
    var blocks := st.messages[i].blocks;
    ReplaceBlocks(st.messages, i, st.messages[i].(blocks := blocks[n..]));
    assert blocks == blocks[..n] + blocks[n..];
  }

  lemma MovedKeeps(st: State, i: nat, stage: Stage)
    requires Inv(st) && i < |st.messages| && !st.messages[i].stage.Readable?
    ensures Inv(Moved(st, i, stage))
  {
    hide InChunk;
    var st' := Moved(st, i, stage);
    ReplaceBlocks(st.messages, i, st'.messages[i]);
    LeasesFrame(st, st', i);
  }

  lemma StartKeeps(st: State, stream: nat, block: int)
    requires Inv(st) && block !in st.live
    ensures Inv(Apply(st, Start(stream, block)))
  {
    hide InChunk, Sum;
    var st' := Apply(st, Start(stream, block));
    assert st'.messages[..|st.messages|] == st.messages;
    assert MessageBlocks(st'.messages) == MessageBlocks(st.messages) + multiset{block};
    GrantCounts(st, st', block);
    LeasesFrame(st, st', |st.messages|);
  }

  lemma ExtendKeeps(st: State, i: nat, block: int)
    requires Inv(st) && Enabled(st, Extend(i, block))
    ensures Inv(Apply(st, Extend(i, block)))
  {
    hide MessageBlocks, InChunk, Sum;
    var st' := Apply(st, Extend(i, block));
    ReplaceBlocks(st.messages, i, st'.messages[i]);
    assert multiset(st'.messages[i].blocks) == multiset(st.messages[i].blocks) + multiset{block};
    assert MessageBlocks(st'.messages) == MessageBlocks(st.messages) + multiset{block};
    GrantCounts(st, st', block);
    LeasesFrame(st, st', i);
  }

  /** A granted block is counted where it goes. */
  lemma GrantCounts(st: State, st': State, block: int)
    requires Counted(st) && block !in st.live
    requires st'.live == st.live + {block} && st'.granted == st.granted + multiset{block} && st'.returned == st.returned
    requires MessageBlocks(st'.messages) == MessageBlocks(st.messages) + multiset{block}
    requires st'.held == st.held && st'.pending == st.pending && st'.releases == st.releases
    ensures Counted(st')
  {
    hide MessageBlocks;
    assert multiset(st'.live) == multiset(st.live) + multiset{block};
    assert Everywhere(st') == Everywhere(st) + multiset{block};
  }

  /** A message that is not being read gives blocks back to the allocators. */
  lemma ReturnKeeps(st: State, i: nat, n: nat)
    requires Inv(st) && i < |st.messages| && !st.messages[i].stage.Readable? && n <= |st.messages[i].blocks|
    ensures multiset(st.messages[i].blocks[..n]) <= multiset(st.live)
    ensures Inv(Return(st, st.messages[i].blocks[..n]).(messages := Without(st.messages, i, n)))
  {
    hide MessageBlocks, InChunk;
    var out := st.messages[i].blocks[..n];
    var st' := Return(st, out).(messages := Without(st.messages, i, n));
    GivesUp(st, i, n);
    assert multiset(out) <= Everywhere(st);
    TakeOut(st.live, out);
    LeasesFrame(st, st', i);
  }

  lemma RefuseKeeps(st: State, i: nat)
    requires Inv(st) && Enabled(st, Refuse(i))
    ensures Inv(Apply(st, Refuse(i)))
  {
    hide MessageBlocks, InChunk;
    var st' := Apply(st, Refuse(i));
    var blocks := st.messages[i].blocks;
    GivesUp(st, i, |blocks|);
    assert blocks[..|blocks|] == blocks;
    LeasesFrame(st, st', i);
  }

  /** A block is never counted twice. */
  lemma CountedOnce(st: State, b: int)
    requires Counted(st)
    ensures Everywhere(st)[b] == if b in st.live then 1 else 0
  {
  }

  /** What moves from the messages to the held or the pending blocks stays counted. */
  lemma MovesOver(messages: multiset<int>, held: multiset<int>, pending: multiset<int>, releases: multiset<int>, b: int)
    requires b in messages
    ensures Sum(messages - multiset{b}, held + multiset{b}, pending, releases) == Sum(messages, held, pending, releases)
    ensures Sum(messages - multiset{b}, held, pending + multiset{b}, releases) == Sum(messages, held, pending, releases)
  {
  }

  /** The first block of a message is given up. */
  lemma FrontGoes(st: State, i: nat)
    requires i < |st.messages| && st.messages[i].blocks != []
    ensures st.messages[i].blocks[0] in MessageBlocks(st.messages)
    ensures MessageBlocks(Without(st.messages, i, 1)) == MessageBlocks(st.messages) - multiset{st.messages[i].blocks[0]}
  {
    hide Without, MessageBlocks;
    GivesUp(st, i, 1);
    assert st.messages[i].blocks[..1] == [st.messages[i].blocks[0]];
  }

  lemma SpendCounts(st: State, i: nat)
    requires Counted(st) && Enabled(st, Spend(i))
    ensures Counted(Apply(st, Spend(i)))
  {
    hide MessageBlocks, Without, Sum;
    var b := st.messages[i].blocks[0];
    FrontGoes(st, i);
    MovesOver(MessageBlocks(st.messages), multiset(st.held), multiset(st.pending), multiset(st.releases), b);
    assert multiset(st.held + [b]) == multiset(st.held) + multiset{b};
    assert multiset(st.pending + [b]) == multiset(st.pending) + multiset{b};
  }

  lemma SpendLeases(st: State, i: nat)
    requires Leased(st) && Enabled(st, Spend(i))
    ensures Leased(Apply(st, Spend(i)))
  {
    var st' := Apply(st, Spend(i));
    var blocks := st.messages[i].blocks;
    assert blocks == [blocks[0]] + blocks[1..];
    forall b <- st'.leases | b !in st'.held ensures InChunk(st', b) {
      var j :| 0 <= j < |st.messages| && st.messages[j].stage.Readable? && b in st.messages[j].blocks;
      assert st'.messages[j].stage.Readable? && b in st'.messages[j].blocks;
    }
  }

  lemma SpendKeeps(st: State, i: nat)
    requires Inv(st) && Enabled(st, Spend(i))
    ensures Inv(Apply(st, Spend(i)))
  {
    hide Counted, Leased;
    SpendCounts(st, i);
    SpendLeases(st, i);
  }

  lemma DropLeaseCounts(st: State, b: int)
    requires Counted(st) && Enabled(st, DropLease(b))
    ensures Counted(Apply(st, DropLease(b)))
  {
    hide MessageBlocks, Sum;
    if b in st.held {
      RemoveOne(st.held, b);
      HeldGoes(MessageBlocks(st.messages), multiset(st.held), multiset(st.pending), multiset(st.releases), b);
      assert multiset(st.pending + [b]) == multiset(st.pending) + multiset{b};
    }
  }

  lemma HeldGoes(messages: multiset<int>, held: multiset<int>, pending: multiset<int>, releases: multiset<int>, b: int)
    requires b in held
    ensures Sum(messages, held - multiset{b}, pending + multiset{b}, releases) == Sum(messages, held, pending, releases)
  {
  }

  lemma DropLeaseLeases(st: State, b: int)
    requires Inv(st) && Enabled(st, DropLease(b))
    ensures Leased(Apply(st, DropLease(b)))
  {
    hide MessageBlocks, Remove;
    var st' := Apply(st, DropLease(b));
    if b !in st'.leases && b in st.held {
      HeldOnce(st, b);
      forall x ensures x in st'.held <==> x in st.held && x != b { RemoveOnly(st.held, b, x); }
    }
    forall x <- st'.leases | x !in st'.held ensures InChunk(st', x) {
      assert x in st.leases && x !in st.held;
      assert InChunk(st, x);
    }
  }

  lemma HeldOnce(st: State, b: int)
    requires Counted(st) && b in st.held
    ensures multiset(st.held)[b] == 1
  {
    CountedOnce(st, b);
  }

  lemma DropLeaseKeeps(st: State, b: int)
    requires Inv(st) && Enabled(st, DropLease(b))
    ensures Inv(Apply(st, DropLease(b)))
  {
    hide Counted, Leased;
    DropLeaseCounts(st, b);
    DropLeaseLeases(st, b);
  }

  lemma FlushKeeps(st: State)
    requires Inv(st) && Enabled(st, Flush)
    ensures Inv(Apply(st, Flush))
  {
    hide MessageBlocks, InChunk;
    assert st.pending == [st.pending[0]] + st.pending[1..];
    LeasesFrame(st, Apply(st, Flush), |st.messages|);
  }

  /** Taking `out` away from where it was, and from what is allocated, keeps the count. */
  lemma TakeAway(others: multiset<int>, out: multiset<int>, all: multiset<int>, granted: multiset<int>, returned: multiset<int>)
    requires others + out == all && granted == returned + all
    ensures out <= all && others == all - out && granted == (returned + out) + (all - out)
  {
  }

  lemma ReleaseGoes(messages: multiset<int>, held: multiset<int>, pending: multiset<int>, out: multiset<int>, rest: multiset<int>)
    ensures Sum(messages, held, pending, out + rest) == Sum(messages, held, pending, rest) + out
  {
  }

  lemma DrainCounts(st: State)
    requires Counted(st) && Enabled(st, DrainRelease)
    ensures Counted(Apply(st, DrainRelease)) && multiset(st.releases[..1]) <= multiset(st.live)
  {
    hide MessageBlocks, Sum;
    var out, rest := st.releases[..1], st.releases[1..];
    assert st.releases == out + rest;
    ReleaseGoes(MessageBlocks(st.messages), multiset(st.held), multiset(st.pending), multiset(out), multiset(rest));
    TakeAway(Sum(MessageBlocks(st.messages), multiset(st.held), multiset(st.pending), multiset(rest)),
             multiset(out), multiset(st.live), st.granted, st.returned);
    TakeOut(st.live, out);
  }

  lemma DrainKeeps(st: State)
    requires Inv(st) && Enabled(st, DrainRelease)
    ensures Inv(Apply(st, DrainRelease))
  {
    hide Counted, InChunk;
    DrainCounts(st);
    LeasesFrame(st, Apply(st, DrainRelease), |st.messages|);
  }

  lemma LeaseKeeps(st: State, i: nat, b: int)
    requires Inv(st) && Enabled(st, Lease(i, b))
    ensures Inv(Apply(st, Lease(i, b)))
  {
    var st' := Apply(st, Lease(i, b));
    forall x <- st'.leases | x !in st'.held ensures InChunk(st', x) {
      if x == b {
        assert st'.messages[i].stage.Readable? && b in st'.messages[i].blocks;
      } else {
        var j :| 0 <= j < |st.messages| && st.messages[j].stage.Readable? && x in st.messages[j].blocks;
        assert st'.messages[j] == st.messages[j];
      }
    }
  }

  lemma StepKeeps(st: State, step: Step)
    requires Inv(st) && Enabled(st, step)
    ensures Inv(Apply(st, step))
  {
    hide Inv, Return, Without;
    match step
    case Start(stream, b) => StartKeeps(st, stream, b);
    case Extend(i, b) => ExtendKeeps(st, i, b);
    case Discard(i) => WholeKeeps(st, i);
    case Drop(i) => WholeKeeps(st, i);
    case BuildFrame(i) => ReturnKeeps(st, i, 1);
    case Refuse(i) => RefuseKeeps(st, i);
    case Lease(i, b) => LeaseKeeps(st, i, b);
    case Spend(i) => SpendKeeps(st, i);
    case DropLease(b) => DropLeaseKeeps(st, b);
    case Flush => FlushKeeps(st);
    case DrainRelease => DrainKeeps(st);
    case TakeShm(i) => MovedKeeps(st, i, Outgoing);
    case Put(i) => MovedKeeps(st, i, Queued);
    case TakeFallback(i) => MovedKeeps(st, i, Framing);
    case Pop(i) => MovedKeeps(st, i, Batched);
    case Deliver(i) => MovedKeeps(st, i, Inbox);
    case Walk(i) => MovedKeeps(st, i, Readable);
  }

  lemma WholeKeeps(st: State, i: nat)
    requires Inv(st) && i < |st.messages| && !st.messages[i].stage.Readable?
    ensures Inv(Return(st, st.messages[i].blocks).(messages := Without(st.messages, i, |st.messages[i].blocks|)))
  {
    hide Inv;
    var blocks := st.messages[i].blocks;
    ReturnKeeps(st, i, |blocks|);
    assert blocks[..|blocks|] == blocks;
  }

  lemma {:induction false} RunKeeps(st: State, steps: seq<Step>)
    requires Inv(st) && Exec(st, steps).Some?
    ensures Inv(Exec(st, steps).value)
    decreases |steps|
  {
    hide Inv, Apply;
    if steps != [] {
      StepKeeps(st, steps[0]);
      RunKeeps(Apply(st, steps[0]), steps[1..]);
    }
  }

  /** The blocks a step gives back to the allocators. */
  function Returned(st: State, step: Step): seq<int>
    requires Enabled(st, step)
  {
    match step
    case Discard(i) => st.messages[i].blocks
    case Drop(i) => st.messages[i].blocks
    case BuildFrame(i) => st.messages[i].blocks[..1]
    case DrainRelease => st.releases[..1]
    case _ => []
  }

  /** Over every run: an allocated block is in exactly one place and any other block in none; what
      has been granted and not returned is what is allocated, so no grant is returned twice and none
      is lost; and every block a step returns is allocated at that moment. */
  lemma BlocksAreConserved(start: State, steps: seq<Step>, b: int, next: Step)
    requires Init(start) && Exec(start, steps).Some?
    ensures var st := Exec(start, steps).value;
            && Everywhere(st)[b] == (if b in st.live then 1 else 0)
            && st.granted[b] == st.returned[b] + (if b in st.live then 1 else 0)
            && (Enabled(st, next) ==> multiset(Returned(st, next)) <= multiset(st.live))
  {
    RunKeeps(start, steps);
    var st := Exec(start, steps).value;
    CountedOnce(st, b);
    if Enabled(st, next) { ReturnsLive(st, next); }
  }

  lemma ReturnsLive(st: State, step: Step)
    requires Inv(st) && Enabled(st, step)
    ensures multiset(Returned(st, step)) <= multiset(st.live)
  {
    match step
    case Discard(i) => ReplaceBlocks(st.messages, i, st.messages[i]);
    case Drop(i) => ReplaceBlocks(st.messages, i, st.messages[i]);
    case BuildFrame(i) => ReturnKeeps(st, i, 1);
    case DrainRelease => DrainCounts(st);
    case _ =>
  }

  /** Over every run: a block that a chunk or a zero-copy result still refers to is allocated, so it
      cannot be granted again, and nothing is on its way to release it. */
  lemma ReadersAreSafe(start: State, steps: seq<Step>, b: int)
    requires Init(start) && Exec(start, steps).Some?
    requires var st := Exec(start, steps).value; b in st.leases || InChunk(st, b)
    ensures var st := Exec(start, steps).value;
            && (forall stream :: !Enabled(st, Start(stream, b))) && (forall i :: !Enabled(st, Extend(i, b)))
            && b !in st.pending && b !in st.releases
  {
    RunKeeps(start, steps);
    var st := Exec(start, steps).value;
    CountedOnce(st, b);
    if InChunk(st, b) {
      var i :| 0 <= i < |st.messages| && st.messages[i].stage.Readable? && b in st.messages[i].blocks;
      BlockIn(st.messages, i, b);
    }
    assert b in MessageBlocks(st.messages) + multiset(st.held);
  }
}
