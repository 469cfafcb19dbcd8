/** The V5 read buffer of src/buffer/buf_v5.rs: messages are walked into a list of chunks, and every
    kind of read takes bytes off the front of that list, without a copy when one chunk holds them. */
module ReadBuffer {
  import opened Common
  import opened Wrappers
  import opened Sequences
  import opened Chain
  import opened WriteBuffer

  /** One block of one message: `id` tells apart two deliveries of the same offset. */
  datatype Ref = Ref(id: nat, offset: int)

  /** A block of the peer's segment, pinned once a zero-copy read has borrowed it, or heap bytes. */
  datatype Source = Shm(ref: Ref, pinned: bool) | Heap

  datatype Chunk = Chunk(src: Source, bytes: seq<byte>, pos: nat) {
    predicate Valid() { pos <= |bytes| }
    function Rest(): seq<byte> requires Valid() { bytes[pos..] }
  }

  /** Bytes handed to the caller; `lease` names the block they still live in. */
  datatype Buf = Buf(bytes: seq<byte>, lease: Option<Ref>)

  datatype Input = ShmRoot(root: int) | HeapBytes(bytes: seq<byte>)

  predicate ChunksValid(chunks: seq<Chunk>) {
    forall c <- chunks :: c.Valid()
  }

  /** The bytes still to be read. */
  function Unread(chunks: seq<Chunk>): seq<byte>
    requires ChunksValid(chunks)
  {
    if chunks == [] then [] else chunks[0].Rest() + Unread(chunks[1..])
  }

  /** The blocks a list of chunks refers to. */
  function Refs(chunks: seq<Chunk>): seq<Ref> {
    if chunks == [] then [] else (if chunks[0].src.Shm? then [chunks[0].src.ref] else []) + Refs(chunks[1..])
  }

  lemma {:induction false} UnreadAppend(a: seq<Chunk>, b: seq<Chunk>)
    requires ChunksValid(a) && ChunksValid(b)
    ensures ChunksValid(a + b) && Unread(a + b) == Unread(a) + Unread(b)
  {
    if a == [] {
      assert a + b == b;
    } else {
      assert (a + b)[1..] == a[1..] + b;
      UnreadAppend(a[1..], b);
      Associative(a[0].Rest(), Unread(a[1..]), Unread(b));
    }
  }

  lemma {:induction false} RefsAppend(a: seq<Chunk>, b: seq<Chunk>)
    ensures Refs(a + b) == Refs(a) + Refs(b)
  {
    if a == [] {
      assert a + b == b;
    } else {
      assert (a + b)[1..] == a[1..] + b;
      RefsAppend(a[1..], b);
      Associative(if a[0].src.Shm? then [a[0].src.ref] else [], Refs(a[1..]), Refs(b));
    }
  }

  /** Chunks for the blocks of a chain, nothing read yet, numbered from `id`. */
  function ChunksOf(m: Mapping, chain: seq<int>, id: nat): (r: seq<Chunk>)
    ensures ChunksValid(r)
  {
    if chain == [] then []
    else
      var n := |chain| - 1;
      ChunksOf(m, chain[..n], id) + [Chunk(Shm(Ref(id + n, chain[n]), false), PayloadOf(m, chain[n]), 0)]
  }

  lemma {:induction false} ChunksSpellChain(m: Mapping, chain: seq<int>, id: nat)
    ensures Unread(ChunksOf(m, chain, id)) == ChainBytes(m, chain)
  {
    if chain != [] {
      var n := |chain| - 1;
      var last := Chunk(Shm(Ref(id + n, chain[n]), false), PayloadOf(m, chain[n]), 0);
      ChunksSpellChain(m, chain[..n], id);
      UnreadAppend(ChunksOf(m, chain[..n], id), [last]);
      assert Unread([last]) == last.Rest() + Unread([]);
    }
  }

  /** Where every block delivered so far is: its chunk is still there, or it is spent and leases hold
      it, or it has been given back. Only pinned or held blocks are leased. */
  ghost predicate Owned(ready: seq<Chunk>, held: seq<Ref>, freed: seq<Ref>, leases: multiset<Ref>, issued: seq<Ref>) {
    && multiset(Refs(ready)) + multiset(held) + multiset(freed) == multiset(issued)
    && (forall i | 0 <= i < |issued| :: issued[i].id == i)
    && (forall r <- leases :: r in held || r in Refs(ready))
    && (forall r <- held :: r in leases)
    && (forall c <- ready | c.src.Shm? && !c.src.pinned :: c.src.ref !in leases)
  }

  /** A block is in one place at a time. */
  lemma OnePlace(ready: seq<Chunk>, held: seq<Ref>, freed: seq<Ref>, leases: multiset<Ref>, issued: seq<Ref>, r: Ref)
    requires Owned(ready, held, freed, leases, issued)
    ensures multiset(Refs(ready))[r] + multiset(held)[r] + multiset(freed)[r] <= 1
    ensures r in leases ==> r !in freed
  {
    IssuedOnce(issued, r);
    assert (multiset(Refs(ready)) + multiset(held) + multiset(freed))[r] <= 1;
  }

  lemma {:induction false} IssuedOnce(issued: seq<Ref>, r: Ref)
    requires forall i | 0 <= i < |issued| :: issued[i].id == i
    ensures multiset(issued)[r] <= 1 && (r in issued ==> r.id < |issued|)
  {
    if issued != [] {
      var n := |issued| - 1;
      assert issued == issued[..n] + [issued[n]];
      IssuedOnce(issued[..n], r);
    }
  }

  /** The chain a root names, within the transfer limit. */
  ghost predicate Acceptable(m: Mapping, root: int, chain: seq<int>) {
    IsChain(m, root, chain) && |ChainBytes(m, chain)| <= MAX_TRANSFER_SIZE
  }

  lemma {:induction false} PrefixIsShorter(m: Mapping, chain: seq<int>, k: nat)
    requires k <= |chain|
    ensures |ChainBytes(m, chain[..k])| <= |ChainBytes(m, chain)|
    decreases |chain|
  {
    if k < |chain| {
      PrefixIsShorter(m, chain[..|chain| - 1], k);
      assert chain[..|chain| - 1][..k] == chain[..k];
    } else {
      assert chain[..k] == chain;
    }
  }

  /** What the walk adds up never passes the limit on an acceptable chain. */
  lemma StaysBelowLimit(m: Mapping, root: int, chain: seq<int>, seen: seq<int>, at: int)
    requires Acceptable(m, root, chain) && OnTrack(m, chain, seen, at) && at > 0
    ensures |ChainBytes(m, seen)| + |PayloadOf(m, at)| <= MAX_TRANSFER_SIZE
  {
    StaysOnTrack(m, root, chain, seen, at);
    PrefixIsShorter(m, chain, |seen| + 1);
    assert chain[..|seen| + 1][..|seen|] == seen;
  }

  /** Every block of a partial walk is readable. */
  ghost predicate AllReadable(m: Mapping, walked: seq<int>) {
    forall x <- walked :: m.Readable(x)
  }

  lemma RefIn(ready: seq<Chunk>, c: Chunk)
    requires c in ready && c.src.Shm?
    ensures c.src.ref in Refs(ready)
  {
    if ready[0] != c { RefIn(ready[1..], c); }
  }

  lemma RefsOfOne(c: Chunk)
    ensures Refs([c]) == if c.src.Shm? then [c.src.ref] else []
  {
    assert Refs([c]) == (if c.src.Shm? then [c.src.ref] else []) + Refs([]);
  }

  /** A block that is numbered next has not been seen before. */
  lemma FreshRef(ready: seq<Chunk>, held: seq<Ref>, freed: seq<Ref>, leases: multiset<Ref>, issued: seq<Ref>, r: Ref)
    requires Owned(ready, held, freed, leases, issued) && r.id == |issued|
    ensures r !in leases
  {
    IssuedOnce(issued, r);
    assert r !in multiset(Refs(ready)) + multiset(held) + multiset(freed);
  }

  /** A new chunk behind the others. */
  lemma PushOwned(ready: seq<Chunk>, held: seq<Ref>, freed: seq<Ref>, leases: multiset<Ref>, issued: seq<Ref>, c: Chunk)
    requires Owned(ready, held, freed, leases, issued) && ChunksValid(ready) && c.Valid()
    requires c.src.Shm? ==> !c.src.pinned && c.src.ref.id == |issued|
    ensures Owned(ready + [c], held, freed, leases, issued + Refs([c]))
  {
    hide Refs, Unread;
    RefsOfOne(c);
    RefsAppend(ready, [c]);
    if c.src.Shm? { FreshRef(ready, held, freed, leases, issued, c.src.ref); }
  }

  /** The front chunk goes: its block to the held ones if it is leased, back to the peer otherwise. */
  lemma PopOwned(ready: seq<Chunk>, held: seq<Ref>, freed: seq<Ref>, leases: multiset<Ref>, issued: seq<Ref>)
    requires Owned(ready, held, freed, leases, issued) && ready != []
    ensures var src := ready[0].src;
            if src.Heap? then Owned(ready[1..], held, freed, leases, issued)
            else if src.pinned && src.ref in leases then Owned(ready[1..], held + [src.ref], freed, leases, issued)
            else Owned(ready[1..], held, freed + [src.ref], leases, issued)
  {
    assert forall c <- ready[1..] :: c in ready;
    var src := ready[0].src;
    if src.Shm? && src.ref in leases {
      assert src.pinned by { assert ready[0] in ready; }
    }
  }

  /** The front chunk's block is borrowed once more. */
  lemma PinOwned(ready: seq<Chunk>, held: seq<Ref>, freed: seq<Ref>, leases: multiset<Ref>, issued: seq<Ref>, front: Chunk)
    requires Owned(ready, held, freed, leases, issued) && ready != [] && ready[0].src.Shm?
    requires front.src == Shm(ready[0].src.ref, true)
    ensures Owned([front] + ready[1..], held, freed, leases + multiset{front.src.ref}, issued)
  {
    var ready' := [front] + ready[1..];
    assert ready'[1..] == ready[1..] && Refs(ready') == Refs(ready);
    forall c <- ready' | c.src.Shm? && !c.src.pinned ensures c.src.ref !in leases + multiset{front.src.ref} {
      assert c in ready[1..] && c in ready;
      RefIn(ready[1..], c);
      OnePlace(ready, held, freed, leases, issued, front.src.ref);
    }
  }

  /** Reading on moves no block. */
  lemma AdvanceOwned(ready: seq<Chunk>, held: seq<Ref>, freed: seq<Ref>, leases: multiset<Ref>, issued: seq<Ref>, front: Chunk)
    requires Owned(ready, held, freed, leases, issued) && ready != [] && front.src == ready[0].src
    ensures Owned([front] + ready[1..], held, freed, leases, issued)
  {
    var ready' := [front] + ready[1..];
    assert ready'[1..] == ready[1..] && Refs(ready') == Refs(ready);
    forall c <- ready' | c.src.Shm? && !c.src.pinned ensures c.src.ref !in leases {
      assert (c == front && ready[0] in ready) || (c in ready[1..] && c in ready);
    }
  }

  /** A lease ends; with the last one a held block goes back. */
  lemma DropOwned(ready: seq<Chunk>, held: seq<Ref>, freed: seq<Ref>, leases: multiset<Ref>, issued: seq<Ref>, r: Ref)
    requires Owned(ready, held, freed, leases, issued) && r in leases
    ensures var left := leases - multiset{r};
            if r !in left && r in held then Owned(ready, Remove(held, r), freed + [r], left, issued)
            else Owned(ready, held, freed, left, issued)
  {
    hide Refs, Remove;
    var left := leases - multiset{r};
    if r !in left && r in held {
      RemoveOne(held, r);
      OnePlace(ready, held, freed, leases, issued, r);
      forall x ensures x in Remove(held, r) <==> x in held && x != r { RemoveOnly(held, r, x); }
    }
  }

  /** Without chunks and leases, every block has been given back exactly once. */
  lemma AllBack(held: seq<Ref>, freed: seq<Ref>, leases: multiset<Ref>, issued: seq<Ref>)
    requires Owned([], held, freed, leases, issued)
    ensures leases == multiset{} ==> multiset(freed) == multiset(issued)
  {
    if held != [] {
      assert held[0] in held && held[0] in leases;
    }
  }

  /** A walk from `root` has seen `walked` and stands before `offset`. The visited set is built only
      once there is a second block. */
  ghost predicate Walk(m: Mapping, root: int, walked: seq<int>, offset: int, nodes: nat, visited: Option<set<int>>) {
    && nodes == |walked| <= MAX_CHAIN_NODES && Linked(m, walked, offset) && Distinct(walked) && AllReadable(m, walked)
    && (if walked == [] then offset == root else walked[0] == root > 0 && offset >= 0)
    && visited == (if nodes <= 1 then None else Some(set o <- walked))
    && forall chain | Acceptable(m, root, chain) :: OnTrack(m, chain, walked, offset)
  }

  lemma WalkStarts(m: Mapping, root: int)
    ensures Walk(m, root, [], root, 0, None)
  {
  }

  /** One more step is fine exactly when none of the checks fails, and none does on a good chain. */
  lemma WalkOn(m: Mapping, root: int, walked: seq<int>, offset: int, nodes: nat, visited: Option<set<int>>)
    requires Walk(m, root, walked, offset, nodes, visited) && offset > 0
    ensures var known := if visited.Some? then visited.value else {root};
            && (forall chain | Acceptable(m, root, chain) ::
                  && nodes < MAX_CHAIN_NODES && (nodes > 0 ==> offset !in known) && m.Readable(offset)
                  && |ChainBytes(m, walked)| + |PayloadOf(m, offset)| <= MAX_TRANSFER_SIZE)
            && (nodes < MAX_CHAIN_NODES && (nodes > 0 ==> offset !in known) && m.Readable(offset) ==>
                  Walk(m, root, walked + [offset], m.HeaderAt(offset).next, nodes + 1,
                       if nodes == 0 then None else Some(known + {offset})))
  {
    var known := if visited.Some? then visited.value else {root};
    assert nodes > 0 ==> known == set o <- walked;
    forall chain | Acceptable(m, root, chain)
      ensures nodes < MAX_CHAIN_NODES && offset !in walked && m.Readable(offset)
      ensures OnTrack(m, chain, walked + [offset], m.HeaderAt(offset).next)
      ensures |ChainBytes(m, walked)| + |PayloadOf(m, offset)| <= MAX_TRANSFER_SIZE
    {
      StaysOnTrack(m, root, chain, walked, offset);
      StaysBelowLimit(m, root, chain, walked, offset);
    }
    if nodes < MAX_CHAIN_NODES && (nodes > 0 ==> offset !in known) && m.Readable(offset) {
      LinkOneMore(m, walked, offset);
      assert (set o <- walked + [offset]) == (set o <- walked) + {offset};
    }
  }

  lemma WalkEnds(m: Mapping, root: int, walked: seq<int>, offset: int, nodes: nat, visited: Option<set<int>>)
    requires Walk(m, root, walked, offset, nodes, visited) && offset <= 0 && |ChainBytes(m, walked)| <= MAX_TRANSFER_SIZE
    ensures Acceptable(m, root, walked)
  {
  }

  /** An input the reader can take: heap bytes, or a root that names an acceptable chain. */
  ghost predicate Good(m: Mapping, input: Input) {
    input.ShmRoot? ==> exists chain :: Acceptable(m, input.root, chain)
  }

  /** The bytes an input stands for. */
  ghost function InputBytes(m: Mapping, input: Input): seq<byte>
    requires Good(m, input)
  {
    match input
    case HeapBytes(bytes) => bytes
    case ShmRoot(root) => var chain :| Acceptable(m, root, chain); ChainBytes(m, chain)
  }

  ghost function AllBytes(m: Mapping, inputs: seq<Input>): seq<byte>
    requires forall input <- inputs :: Good(m, input)
  {
    if inputs == [] then [] else AllBytes(m, inputs[..|inputs| - 1]) + InputBytes(m, inputs[|inputs| - 1])
  }

  function Roots(inputs: seq<Input>): seq<int> {
    if inputs == [] then [] else (if inputs[0].ShmRoot? then [inputs[0].root] else []) + Roots(inputs[1..])
  }

  /** A root stands for the bytes of whichever chain it names. */
  lemma RootBytes(m: Mapping, root: int, chain: seq<int>)
    requires Acceptable(m, root, chain)
    ensures Good(m, ShmRoot(root)) && InputBytes(m, ShmRoot(root)) == ChainBytes(m, chain)
  {
    var other :| Acceptable(m, root, other) && InputBytes(m, ShmRoot(root)) == ChainBytes(m, other);
    ChainIsUnique(m, root, chain, other);
  }

  /** What the write buffer hands over, the read buffer takes exactly when it has no more blocks than the
      walk follows, and it stands for the same bytes. With the default block sizes it always is taken. */
  lemma RoundTrip(m: Mapping, chain: seq<int>)
    requires Message(m, chain) && chain != [] && |ChainBytes(m, chain)| <= MAX_TRANSFER_SIZE
    ensures Good(m, ShmRoot(chain[0])) <==> |chain| <= MAX_CHAIN_NODES
    ensures |chain| <= MAX_CHAIN_NODES ==> InputBytes(m, ShmRoot(chain[0])) == ChainBytes(m, chain)
    ensures Roomy(m, chain, MIN_ROOM) ==> |chain| <= MAX_CHAIN_NODES
  {
    hide Apart, Dense, ChainBytes, Distinct, Linked, Roomy;
    MessageIsChain(m, chain);
    if Roomy(m, chain, MIN_ROOM) { MessageIsShort(m, chain); }
    if |chain| <= MAX_CHAIN_NODES {
      RootBytes(m, chain[0], chain);
    } else if Good(m, ShmRoot(chain[0])) {
      var other :| Acceptable(m, chain[0], other);
      LinkedAgree(m, chain, other);
      assert false;
    }
  }

  /** Taking bytes off the front chunk takes them off the front of what is unread. */
  lemma FrontTaken(ready: seq<Chunk>, take: nat)
    requires ChunksValid(ready) && ready != [] && ready[0].pos + take <= |ready[0].bytes|
    ensures var front := ready[0];
            var rest := [front.(pos := front.pos + take)] + ready[1..];
            && ChunksValid(rest) && rest[1..] == ready[1..]
            && Unread(ready) == front.bytes[front.pos..front.pos + take] + Unread(rest)
  {
    var front := ready[0];
    var rest := [front.(pos := front.pos + take)] + ready[1..];
    assert front in ready && forall c <- ready[1..] :: c in ready;
    assert rest[1..] == ready[1..];
    var taken := front.bytes[front.pos..front.pos + take];
    assert front.Rest() == taken + rest[0].Rest();
    Associative(taken, rest[0].Rest(), Unread(ready[1..]));
  }

  lemma NothingUnread()
    ensures Unread([]) == []
  {
  }

  lemma NothingWalked(m: Mapping, id: nat)
    ensures ChunksOf(m, [], id) == [] && ChainBytes(m, []) == []
  {
  }

  /** One more block walked. */
  lemma WalkedOneMore(m: Mapping, walked: seq<int>, at: int, id: nat)
    ensures ChunksOf(m, walked + [at], id)
         == ChunksOf(m, walked, id) + [Chunk(Shm(Ref(id + |walked|, at), false), PayloadOf(m, at), 0)]
    ensures ChainBytes(m, walked + [at]) == ChainBytes(m, walked) + PayloadOf(m, at)
  {
    assert (walked + [at])[..|walked|] == walked;
  }

  lemma WalkFacts(m: Mapping, root: int, walked: seq<int>, offset: int, nodes: nat, visited: Option<set<int>>)
    requires Walk(m, root, walked, offset, nodes, visited)
    ensures AllReadable(m, walked) && nodes == |walked| <= MAX_CHAIN_NODES && (nodes <= 1 ==> visited.None?)
  {
  }

  lemma UnreadOne(c: Chunk)
    requires c.Valid()
    ensures Unread([c]) == c.Rest()
  {
    assert Unread([c]) == c.Rest() + Unread([]);
  }

  /** Copy the first `size` unread bytes together. */
  method Gather(chunks: seq<Chunk>, size: nat) returns (out: seq<byte>)
    requires ChunksValid(chunks) && size <= |Unread(chunks)|
    ensures out == Unread(chunks)[..size]
  {
    out := [];
    var k := 0;
    ghost var rest := Unread(chunks);
    while k < |chunks| && |out| < size
      invariant k <= |chunks| && |out| <= size
      invariant Unread(chunks) == out + rest && (|out| < size ==> rest == Unread(chunks[k..]))
    {
      var c := chunks[k];
      assert c in chunks;
      assert chunks[k..][0] == c && chunks[k..][1..] == chunks[k + 1..];
      var take := if |c.bytes| - c.pos < size - |out| then |c.bytes| - c.pos else size - |out|;
      ghost var taken, left := c.bytes[c.pos..c.pos + take], c.bytes[c.pos + take..];
      assert c.Rest() == taken + left;
      Associative(taken, left, Unread(chunks[k + 1..]));
      Associative(out, taken, left + Unread(chunks[k + 1..]));
      rest := left + Unread(chunks[k + 1..]);
      out := out + c.bytes[c.pos..c.pos + take];
      k := k + 1;
    }
  }

  lemma AllBytesOneMore(m: Mapping, inputs: seq<Input>, k: nat)
    requires k < |inputs| && (forall input <- inputs[..k] :: Good(m, input)) && Good(m, inputs[k])
    ensures forall input <- inputs[..k + 1] :: Good(m, input)
    ensures AllBytes(m, inputs[..k + 1]) == AllBytes(m, inputs[..k]) + InputBytes(m, inputs[k])
  {
    hide Good, InputBytes;
    assert inputs[..k + 1] == inputs[..k] + [inputs[k]];
    assert inputs[..k + 1][..k] == inputs[..k];
  }

  class ReadBuffer {
    var ready: seq<Chunk>
    var len: nat
    /** Blocks whose chunk is spent while a lease holds them. */
    var held: seq<Ref>
    /** Blocks given back to the peer, oldest first. */
    var freed: seq<Ref>
    /** The zero-copy results still out, by block. */
    var leases: multiset<Ref>
    /** Every block delivered so far: history, not state of the source. */
    var issued: seq<Ref>

    ghost predicate Valid()
      reads this
    {
      ChunksValid(ready) && len == |Contents()| && Owned(ready, held, freed, leases, issued)
    }

    ghost function Contents(): seq<byte>
      requires ChunksValid(ready)
      reads this
    {
      Unread(ready)
    }

    constructor ()
      ensures Valid() && Contents() == [] && ready == [] && issued == [] && leases == multiset{}
    {
      ready, len, held, freed, leases, issued := [], 0, [], [], multiset{}, [];
    }

    method Push(c: Chunk)
      requires Valid() && c.Valid() && (c.src.Shm? ==> !c.src.pinned && c.src.ref.id == |issued|)
      modifies this
      ensures Valid() && ready == old(ready) + [c] && Contents() == old(Contents()) + c.Rest()
      ensures issued == old(issued) + Refs([c]) && freed == old(freed) && leases == old(leases) && held == old(held)
    {
      hide Owned, Unread, Refs;
      PushOwned(ready, held, freed, leases, issued, c);
      UnreadAppend(ready, [c]);
      UnreadOne(c);
      ready := ready + [c];
      len := len + |c.bytes| - c.pos;
      issued := issued + Refs([c]);
    }

    /** Drop the front chunk. Its block goes back, unless a lease holds it. */
    method DropFront()
      requires Valid() && ready != []
      modifies this
      ensures Valid() && ready == old(ready)[1..] && leases == old(leases) && issued == old(issued)
      ensures old(freed) <= freed
    {
      hide Owned;
      PopOwned(ready, held, freed, leases, issued);
      var front := ready[0];
      assert front in ready;
      if front.src.Shm? {
        if front.src.pinned && front.src.ref in leases { held := held + [front.src.ref]; }
        else { freed := freed + [front.src.ref]; }
      }
      len := len - (|front.bytes| - front.pos);
      ready := ready[1..];
      assert old(Contents()) == front.Rest() + Contents();
    }

    method PopIfSpent()
      requires Valid()
      modifies this
      ensures Valid() && Contents() == old(Contents()) && leases == old(leases) && issued == old(issued)
      ensures ready == if old(ready) != [] && old(ready)[0].pos == |old(ready)[0].bytes| then old(ready)[1..] else old(ready)
      ensures old(freed) <= freed
    {
      hide Owned;
      if ready == [] || |ready[0].bytes| != ready[0].pos { return; }
      assert ready[0].Rest() == [];
      DropFront();
    }

    /** Take up to `want` bytes off the front chunk. */
    method TakeFront(want: nat) returns (out: seq<byte>)
      requires Valid() && ready != []
      modifies this
      ensures Valid() && leases == old(leases) && issued == old(issued) && old(freed) <= freed
      ensures |out| <= want && old(Contents()) == out + Contents()
      ensures |out| == want || (|out| == |old(ready)[0].bytes| - old(ready)[0].pos < want && |ready| < |old(ready)|)
      ensures |ready| <= |old(ready)|
    {
      hide Owned, Unread;
      var front := ready[0];
      assert front in ready;
      var take := if |front.bytes| - front.pos < want then |front.bytes| - front.pos else want;
      out := front.bytes[front.pos..front.pos + take];
      var moved := front.(pos := front.pos + take);
      AdvanceOwned(ready, held, freed, leases, issued, moved);
      FrontTaken(ready, take);
      ready := [moved] + ready[1..];
      len := len - take;
      PopIfSpent();
    }

    /** Give the front chunk's block out on a lease, for a zero-copy result. */
    method LeaseFront(size: nat) returns (buf: Buf)
      requires Valid() && ready != [] && size <= |ready[0].Rest()|
      modifies this
      ensures Valid() && Contents() == old(Contents()) && len == old(len) && |ready| == |old(ready)|
      ensures ready[0].bytes == old(ready)[0].bytes && ready[0].pos == old(ready)[0].pos && ready[1..] == old(ready)[1..]
      ensures issued == old(issued) && freed == old(freed)
      ensures buf.bytes == old(Contents())[..size]
      ensures leases == old(leases) + if buf.lease.Some? then multiset{buf.lease.value} else multiset{}
      ensures buf.lease.Some? <==> old(ready)[0].src.Shm?
    {
      hide Owned;
      var front := ready[0];
      assert Contents() == front.Rest() + Unread(ready[1..]);
      buf := Buf(front.bytes[front.pos..front.pos + size], None);
      if front.src.Shm? {
        var pinned := front.(src := Shm(front.src.ref, true));
        PinOwned(ready, held, freed, leases, issued, pinned);
        ready := [pinned] + ready[1..];
        assert ready[1..] == old(ready)[1..];
        leases := leases + multiset{front.src.ref};
        buf := buf.(lease := Some(front.src.ref));
      }
    }

    /** Take `size` bytes, without a copy when the front chunk holds them all. It succeeds exactly when
        that many bytes are there; a refusal changes nothing. */
    method ReadExact(size: nat) returns (r: Result<Buf, StreamError>)
      requires Valid()
      modifies this
      ensures Valid() && issued == old(issued) && old(freed) <= freed
      ensures r.Ok? <==> size <= |old(Contents())|
      ensures r.Ok? ==> |r.value.bytes| == size && old(Contents()) == r.value.bytes + Contents()
      ensures r.Ok? ==> leases == old(leases) + if r.value.lease.Some? then multiset{r.value.lease.value} else multiset{}
      ensures r.Err? ==> unchanged(this)
    {
      hide Owned;
      if size == 0 { return Ok(Buf([], None)); }
      if len < size { return Err(NotEnoughData); }
      if ready != [] && |ready[0].bytes| - ready[0].pos >= size {
        var buf := LeaseFront(size);
        var same := TakeFront(size);
        assert same == old(Contents())[..size];
        return Ok(buf);
      }
      var out := [];
      while |out| < size
        invariant Valid() && issued == old(issued) && old(freed) <= freed && leases == old(leases)
        invariant |out| <= size && old(Contents()) == out + Contents()
        decreases |ready|, size - |out|
      {
        if ready == [] { break; }
        var more := TakeFront(size - |out|);
        Associative(out, more, Contents());
        out := out + more;
      }
      return Ok(Buf(out, None));
    }

    /** Look at `size` bytes without consuming them. */
    method Peek(size: nat) returns (r: Result<Buf, StreamError>)
      requires Valid()
      modifies this
      ensures Valid() && Contents() == old(Contents()) && issued == old(issued) && freed == old(freed)
      ensures r.Ok? <==> size <= |old(Contents())|
      ensures r.Ok? ==> r.value.bytes == old(Contents())[..size]
      ensures leases == old(leases) + if r.Ok? && r.value.lease.Some? then multiset{r.value.lease.value} else multiset{}
      ensures r.Err? ==> unchanged(this)
    {
      hide Owned;
      if size == 0 { return Ok(Buf([], None)); }
      if len < size { return Err(NotEnoughData); }
      if ready != [] && |ready[0].bytes| - ready[0].pos >= size {
        assert ready[0] in ready;
        var buf := LeaseFront(size);
        return Ok(buf);
      }
      var out := Gather(ready, size);
      return Ok(Buf(out, None));
    }

    /** Skip `size` bytes. */
    method Discard(size: nat) returns (r: Result<nat, StreamError>)
      requires Valid()
      modifies this
      ensures Valid() && issued == old(issued) && leases == old(leases) && old(freed) <= freed
      ensures r.Ok? <==> size <= |old(Contents())|
      ensures r.Ok? ==> r.value == size && Contents() == old(Contents())[size..]
      ensures r.Err? ==> unchanged(this)
    {
      hide Owned, Unread;
      NothingUnread();
      if len < size { return Err(NotEnoughData); }
      ghost var out := [];
      var dropped := 0;
      while dropped < size
        invariant Valid() && issued == old(issued) && old(freed) <= freed && leases == old(leases)
        invariant |out| == dropped <= size && old(Contents()) == out + Contents()
        decreases |ready|, size - dropped
      {
        if ready == [] { break; }
        var more := TakeFront(size - dropped);
        Associative(out, more, Contents());
        dropped := dropped + |more|;
        out := out + more;
      }
      return Ok(dropped);
    }

    /** Copy out as much of `size` bytes as there is. */
    method Read(size: nat) returns (out: seq<byte>)
      requires Valid()
      modifies this
      ensures Valid() && issued == old(issued) && leases == old(leases) && old(freed) <= freed
      ensures |out| == if size < |old(Contents())| then size else |old(Contents())|
      ensures old(Contents()) == out + Contents()
    {
      hide Owned, Unread;
      NothingUnread();
      out := [];
      while |out| < size
        invariant Valid() && issued == old(issued) && old(freed) <= freed && leases == old(leases)
        invariant |out| <= size && old(Contents()) == out + Contents()
        decreases |ready|, size - |out|
      {
        if ready == [] { break; }
        var more := TakeFront(size - |out|);
        Associative(out, more, Contents());
        out := out + more;
      }
    }

    /** The rest of the front chunk. It is refused when that chunk is empty, even if there is more
        behind it; when no chunk is empty, exactly when there is nothing to read. */
    method ReadChunk() returns (r: Result<Buf, StreamError>)
      requires Valid()
      modifies this
      ensures Valid() && issued == old(issued) && old(freed) <= freed
      ensures r.Ok? <==> old(ready) != [] && old(ready)[0].pos < |old(ready)[0].bytes|
      ensures (forall c <- old(ready) :: c.pos < |c.bytes|) ==> (r.Ok? <==> old(Contents()) != [])
      ensures r.Ok? ==> r.value.bytes != [] && old(Contents()) == r.value.bytes + Contents()
      ensures r.Err? ==> unchanged(this)
    {
      hide Owned;
      if ready == [] { return Err(NotEnoughData); }
      assert ready[0] in ready && Contents() == ready[0].Rest() + Unread(ready[1..]);
      if |ready[0].bytes| == ready[0].pos { return Err(NotEnoughData); }
      r := ReadExact(|ready[0].bytes| - ready[0].pos);
    }

    /** A zero-copy result is dropped. The block goes back with the last of them, once its chunk is
        spent. */
    method DropLease(ref: Ref)
      requires Valid() && ref in leases
      modifies this
      ensures Valid() && Contents() == old(Contents()) && issued == old(issued)
      ensures leases == old(leases) - multiset{ref}
      ensures freed == old(freed) + if ref !in leases && ref in old(held) then [ref] else []
      ensures ready == old(ready)
    {
      hide Owned;
      DropOwned(ready, held, freed, leases, issued, ref);
      leases := leases - multiset{ref};
      if ref !in leases && ref in held {
        held := Remove(held, ref);
        freed := freed + [ref];
      }
    }

    /** Follow one message's chain. It ends on any contents and accepts exactly the roots that name a
        chain within the transfer limit, whose bytes then become readable. */
    method WalkChain(m: Mapping, root: int) returns (r: Result<nat, StreamError>)
      requires Valid()
      modifies this
      ensures Valid() && freed == old(freed) && leases == old(leases)
      ensures r.Ok? ==> exists chain ::
                && Acceptable(m, root, chain) && ready == old(ready) + ChunksOf(m, chain, |old(issued)|)
                && Contents() == old(Contents()) + ChainBytes(m, chain) && r.value == |ChainBytes(m, chain)|
      ensures r.Err? ==> forall chain :: !Acceptable(m, root, chain)
      ensures r.Err? ==> exists walked ::
                AllReadable(m, walked) && ready == old(ready) + ChunksOf(m, walked, |old(issued)|)
    {
      hide Owned, Acceptable, Mapping.Readable, Unread, ChunksOf, ChainBytes, Walk, AllReadable;
      ghost var walked: seq<int> := [];
      NothingWalked(m, |issued|);
      var visited: Option<set<int>>, nodes, total, offset := None, 0, 0, root;
      WalkStarts(m, root);
      while offset > 0
        invariant Valid() && freed == old(freed) && leases == old(leases)
        invariant |issued| == |old(issued)| + nodes
        invariant Walk(m, root, walked, offset, nodes, visited)
        invariant ready == old(ready) + ChunksOf(m, walked, |old(issued)|) && total == |ChainBytes(m, walked)| <= MAX_TRANSFER_SIZE
        decreases MAX_CHAIN_NODES - nodes
      {
        WalkFacts(m, root, walked, offset, nodes, visited);
        WalkOn(m, root, walked, offset, nodes, visited);
        if nodes >= MAX_CHAIN_NODES { return Err(BrokenBuffer); }
        if nodes > 0 {
          var known := if visited.Some? then visited.value else {root};
          if offset in known { return Err(BrokenBuffer); }
          visited := Some(known + {offset});
        }
        nodes := nodes + 1;
        var block := m.Read(offset);
        if block.None? { return Err(BrokenBuffer); }
        if total + |block.value.0| > MAX_TRANSFER_SIZE { return Err(SizeTooLarge); }
        Push(Chunk(Shm(Ref(|issued|, offset), false), block.value.0, 0));
        total := total + |block.value.0|;
        WalkedOneMore(m, walked, offset, |old(issued)|);
        walked := walked + [offset];
        offset := block.value.1;
      }
      ChunksSpellChain(m, walked, |old(issued)|);
      UnreadAppend(old(ready), ChunksOf(m, walked, |old(issued)|));
      WalkEnds(m, root, walked, offset, nodes, visited);
      return Ok(total);
    }

    /** Walk one delivered input. */
    method TakeInput(m: Mapping, input: Input) returns (r: Result<nat, StreamError>)
      requires Valid()
      modifies this
      ensures Valid() && freed == old(freed) && leases == old(leases)
      ensures r.Ok? <==> Good(m, input)
      ensures r.Ok? ==> Contents() == old(Contents()) + InputBytes(m, input) && r.value == |InputBytes(m, input)|
      ensures old(Contents()) <= Contents()
    {
      hide Owned, Acceptable;
      if input.HeapBytes? {
        Push(Chunk(Heap, input.bytes, 0));
        return Ok(|input.bytes|);
      }
      r := WalkChain(m, input.root);
      if r.Ok? {
        ghost var chain :| Acceptable(m, input.root, chain) && Contents() == old(Contents()) + ChainBytes(m, chain)
                           && r.value == |ChainBytes(m, chain)|;
        RootBytes(m, input.root, chain);
      } else {
        ghost var walked :| ready == old(ready) + ChunksOf(m, walked, |old(issued)|);
        UnreadAppend(old(ready), ChunksOf(m, walked, |old(issued)|));
      }
    }

    /** Make everything delivered readable, in order. It succeeds exactly when every input is good;
        at the first bad one it stops, and the roots behind it are handed back for release. */
    method DrainPending(m: Mapping, inputs: seq<Input>) returns (r: Result<nat, StreamError>, released: seq<int>)
      requires Valid()
      modifies this
      ensures Valid() && freed == old(freed) && leases == old(leases)
      ensures r.Ok? <==> forall input <- inputs :: Good(m, input)
      ensures r.Ok? ==> Contents() == old(Contents()) + AllBytes(m, inputs) && r.value == |AllBytes(m, inputs)| && released == []
      ensures r.Err? ==> exists k: nat | k < |inputs| ::
                && !Good(m, inputs[k]) && (forall input <- inputs[..k] :: Good(m, input))
                && released == Roots(inputs[k + 1..]) && old(Contents()) + AllBytes(m, inputs[..k]) <= Contents()
    {
      hide Owned, Good, InputBytes, Unread;
      var total := 0;
      for k := 0 to |inputs|
        invariant Valid() && freed == old(freed) && leases == old(leases)
        invariant forall input <- inputs[..k] :: Good(m, input)
        invariant Contents() == old(Contents()) + AllBytes(m, inputs[..k]) && total == |AllBytes(m, inputs[..k])|
      {
        var added := TakeInput(m, inputs[k]);
        if added.Err? {
          released := Roots(inputs[k + 1..]);
          return Err(added.error), released;
        }
        total := total + added.value;
        AllBytesOneMore(m, inputs, k);
        Associative(old(Contents()), AllBytes(m, inputs[..k]), InputBytes(m, inputs[k]));
      }
      assert inputs[..|inputs|] == inputs;
      return Ok(total), [];
    }

    /** The reader goes away: every block it still has a chunk for goes back, or stays with its leases. */
    method Close()
      requires Valid()
      modifies this
      ensures Valid() && ready == [] && issued == old(issued) && leases == old(leases) && old(freed) <= freed
      ensures leases == multiset{} ==> multiset(freed) == multiset(issued)
    {
      hide Owned;
      while ready != []
        invariant Valid() && issued == old(issued) && leases == old(leases) && old(freed) <= freed
        decreases |ready|
      {
        DropFront();
      }
      AllBack(held, freed, leases, issued);
    }
  }

  /** A chain of two blocks, the first of which is empty. */
  const EMPTY_FIRST: Mapping :=
    Mapping(map[RQ_SIZE := Header(RQ_SIZE, RQ_SIZE + 24, 0, 0), RQ_SIZE + 24 := Header(RQ_SIZE + 24, 0, 1, 1)],
            seq(RQ_SIZE + 49, _ => 7))

  lemma EmptyFirstChain()
    ensures Acceptable(EMPTY_FIRST, RQ_SIZE, [RQ_SIZE, RQ_SIZE + 24]) && |ChainBytes(EMPTY_FIRST, [RQ_SIZE, RQ_SIZE + 24])| == 1
    ensures ChunksOf(EMPTY_FIRST, [RQ_SIZE, RQ_SIZE + 24], 0) != []
    ensures ChunksOf(EMPTY_FIRST, [RQ_SIZE, RQ_SIZE + 24], 0)[0].pos == |ChunksOf(EMPTY_FIRST, [RQ_SIZE, RQ_SIZE + 24], 0)[0].bytes|
  {
    var m, x, y := EMPTY_FIRST, RQ_SIZE, RQ_SIZE + 24;
    assert m.Readable(x) && m.Readable(y);
    assert Linked(m, [x, y], 0);
    WalkedOneMore(m, [], x, 0);
    WalkedOneMore(m, [x], y, 0);
    NothingWalked(m, 0);
    assert [] + [x] == [x] && [x] + [y] == [x, y];
  }

  /** A run in which a chunk is refused although a byte is left: the peer has handed over an empty block in
      front of another. */
  method RefusedBeforeTheLast() returns (r: Result<Buf, StreamError>, left: nat)
    ensures r.Err? && left == 1
  {
    hide Acceptable, ChunksOf, ChainBytes, Owned, Unread;
    EmptyFirstChain();
    var b := new ReadBuffer();
    var walked := b.WalkChain(EMPTY_FIRST, RQ_SIZE);
    ghost var chain :| Acceptable(EMPTY_FIRST, RQ_SIZE, chain) && b.ready == [] + ChunksOf(EMPTY_FIRST, chain, 0)
                       && b.Contents() == [] + ChainBytes(EMPTY_FIRST, chain);
    AcceptedOnce(EMPTY_FIRST, RQ_SIZE, chain, [RQ_SIZE, RQ_SIZE + 24]);
    assert [] + ChunksOf(EMPTY_FIRST, chain, 0) == ChunksOf(EMPTY_FIRST, chain, 0);
    r := b.ReadChunk();
    left := b.len;
  }

  lemma AcceptedOnce(m: Mapping, root: int, a: seq<int>, b: seq<int>)
    requires Acceptable(m, root, a) && Acceptable(m, root, b)
    ensures a == b
  {
    ChainIsUnique(m, root, a, b);
  }
}
