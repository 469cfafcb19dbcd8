/** The V5 write buffer of src/buffer/buf_v5.rs: a message is written into a chain of blocks of the
    local segment while that is possible, and continues on the heap once it is not. */
module WriteBuffer {
  import opened Common
  import opened Wrappers
  import opened Sequences
  import opened Chain

  const USIZE_MAX: nat := TWO_64 - 1
  const DEFAULT_CHUNK: nat := 4096
  /** Room in the smallest block a segment with the default block sizes hands out. */
  const MIN_ROOM: nat := MIN_BLOCK_SIZE - ALLOCATOR_HEADER_SIZE - BUFFER_HEADER_SIZE

  /** What the segment's manager answers when a block is asked for. */
  datatype Grant = Granted(offset: int, cap: nat) | Refused | ManagerClosed

  datatype HeapChunk = HeapChunk(bytes: seq<byte>, capacity: nat)

  function HeapBytes(chunks: seq<HeapChunk>): seq<byte> {
    if chunks == [] then [] else HeapBytes(chunks[..|chunks| - 1]) + chunks[|chunks| - 1].bytes
  }

  function PayloadOf(m: Mapping, x: int): seq<byte> {
    if m.Readable(x) then m.Payload(x) else []
  }

  /** The bytes of a message, block by block. */
  function ChainBytes(m: Mapping, chain: seq<int>): seq<byte> {
    if chain == [] then [] else ChainBytes(m, chain[..|chain| - 1]) + PayloadOf(m, chain[|chain| - 1])
  }

  /** Where the block at `x` ends. */
  function EndOf(m: Mapping, x: int): int { x + BUFFER_HEADER_SIZE + m.HeaderAt(x).cap }

  ghost predicate DisjointFrom(m: Mapping, x: int, end: int, chain: seq<int>) {
    forall i | 0 <= i < |chain| :: end <= chain[i] || EndOf(m, chain[i]) <= x
  }

  /** What a segment promises for a block it grants: it lies behind the release queue and inside the
      segment, has room for the request, and overlaps no block of this message. */
  ghost predicate Honours(m: Mapping, chain: seq<int>, size: nat, g: Grant) {
    g.Granted? ==>
      && RQ_SIZE <= g.offset && g.offset + BUFFER_HEADER_SIZE + g.cap <= |m.bytes|
      && size <= g.cap
      && DisjointFrom(m, g.offset, g.offset + BUFFER_HEADER_SIZE + g.cap, chain)
  }

  /** No two blocks of the message overlap. */
  ghost predicate Apart(m: Mapping, chain: seq<int>) {
    forall i | 0 <= i < |chain| :: DisjointFrom(m, chain[i], EndOf(m, chain[i]), chain[..i])
  }

  /** A block was given up only for a write that did not fit any more. */
  ghost predicate DenseAt(m: Mapping, chain: seq<int>, k: nat)
    requires k < |chain|
  {
    && 0 < m.HeaderAt(chain[k]).len
    && (k + 1 < |chain| ==> m.HeaderAt(chain[k]).cap < m.HeaderAt(chain[k]).len + m.HeaderAt(chain[k + 1]).len)
  }

  ghost predicate Dense(m: Mapping, chain: seq<int>) {
    forall k: nat | k < |chain| :: DenseAt(m, chain, k)
  }

  /** Every block has at least this much room. */
  ghost predicate Roomy(m: Mapping, chain: seq<int>, room: nat) {
    forall x <- chain :: room <= m.HeaderAt(x).cap
  }

  /** A message under construction. */
  ghost predicate Message(m: Mapping, chain: seq<int>) {
    Linked(m, chain, 0) && Apart(m, chain) && Dense(m, chain)
  }

  function Splice(bytes: seq<byte>, at: nat, data: seq<byte>): (r: seq<byte>)
    requires at + |data| <= |bytes|
    ensures |r| == |bytes| && r[at..at + |data|] == data
    ensures forall i | 0 <= i < |bytes| && !(at <= i < at + |data|) :: r[i] == bytes[i]
  {
    bytes[..at] + data + bytes[at + |data|..]
  }

  /** `data` appended to the block at `x`, which has room for it. */
  function Appended(m: Mapping, x: int, data: seq<byte>): Mapping
    requires m.Readable(x) && m.HeaderAt(x).len + |data| <= m.HeaderAt(x).cap
  {
    var h := m.HeaderAt(x);
    Mapping(m.headers[x := h.(len := h.len + |data|)], Splice(m.bytes, x + BUFFER_HEADER_SIZE + h.len, data))
  }

  /** A granted block filled with `data` and linked behind the message's last. */
  function Grown(m: Mapping, chain: seq<int>, x: int, cap: nat, data: seq<byte>): Mapping
    requires 0 <= x && x + BUFFER_HEADER_SIZE + |data| <= |m.bytes|
  {
    var headers := if chain == [] then m.headers
                   else var last := chain[|chain| - 1]; m.headers[last := m.HeaderAt(last).(next := x)];
    Mapping(headers[x := Header(x, 0, |data|, cap)], Splice(m.bytes, x + BUFFER_HEADER_SIZE, data))
  }

  lemma {:induction false} SameBytes(m: Mapping, m': Mapping, chain: seq<int>)
    requires forall i | 0 <= i < |chain| :: PayloadOf(m', chain[i]) == PayloadOf(m, chain[i])
    ensures ChainBytes(m', chain) == ChainBytes(m, chain)
  {
    if chain != [] { SameBytes(m, m', chain[..|chain| - 1]); }
  }

  /** A block whose header says the same about its payload, and whose payload was not written to,
      holds the same payload. */
  lemma SamePayload(m: Mapping, m': Mapping, x: int, at: nat, data: seq<byte>)
    requires m.Readable(x) && at + |data| <= |m.bytes| && m'.bytes == Splice(m.bytes, at, data)
    requires EndOf(m, x) <= at || at + |data| <= x + BUFFER_HEADER_SIZE
    requires m'.HeaderAt(x) == m.HeaderAt(x).(next := m'.HeaderAt(x).next) && m'.Readable(x)
    ensures PayloadOf(m', x) == PayloadOf(m, x)
  {
  }

  /** Blocks of a message are pairwise different. */
  lemma ApartDistinct(m: Mapping, chain: seq<int>)
    requires Apart(m, chain)
    ensures Distinct(chain)
  {
    forall i, j | 0 <= i < j < |chain| ensures chain[i] != chain[j] {
      assert DisjointFrom(m, chain[j], EndOf(m, chain[j]), chain[..j]);
      assert chain[..j][i] == chain[i];
    }
  }

  /** Apartness depends on nothing but the blocks' sizes. */
  lemma ApartFrame(m: Mapping, m': Mapping, chain: seq<int>)
    requires Apart(m, chain) && forall x <- chain :: m'.HeaderAt(x).cap == m.HeaderAt(x).cap
    ensures Apart(m', chain)
  {
    forall i | 0 <= i < |chain| ensures DisjointFrom(m', chain[i], EndOf(m', chain[i]), chain[..i]) {
      assert DisjointFrom(m, chain[i], EndOf(m, chain[i]), chain[..i]);
    }
  }

  /** There is room for `data` behind what the last block holds. */
  ghost predicate Fits(m: Mapping, chain: seq<int>, data: seq<byte>) {
    chain != [] && m.Readable(chain[|chain| - 1])
    && m.HeaderAt(chain[|chain| - 1]).len + |data| <= m.HeaderAt(chain[|chain| - 1]).cap
  }

  lemma AppendShape(m: Mapping, chain: seq<int>, data: seq<byte>)
    requires Message(m, chain) && Fits(m, chain, data)
    ensures Message(Appended(m, chain[|chain| - 1], data), chain)
  {
    var m' := Appended(m, chain[|chain| - 1], data);
    ApartDistinct(m, chain);
    ApartFrame(m, m', chain);
    forall k: nat | k < |chain| ensures LinkedAt(m', chain, 0, k) && DenseAt(m', chain, k) {
      assert LinkedAt(m, chain, 0, k) && DenseAt(m, chain, k);
    }
  }

  /** Appending to a block adds to its payload. */
  lemma AppendedPayload(m: Mapping, x: int, data: seq<byte>)
    requires m.Readable(x) && m.HeaderAt(x).len + |data| <= m.HeaderAt(x).cap
    ensures PayloadOf(Appended(m, x, data), x) == PayloadOf(m, x) + data
  {
    var m', from, len := Appended(m, x, data), x + BUFFER_HEADER_SIZE, m.HeaderAt(x).len;
    assert m'.Readable(x);
    assert m'.bytes[from..from + len] == m.bytes[from..from + len];
    assert m'.bytes[from..from + len + |data|] == m'.bytes[from..from + len] + m'.bytes[from + len..from + len + |data|];
  }

  /** Appending to the last block leaves the payloads before it alone. */
  lemma AppendFrame(m: Mapping, chain: seq<int>, data: seq<byte>, i: nat)
    requires Message(m, chain) && Fits(m, chain, data) && i < |chain| - 1
    ensures PayloadOf(Appended(m, chain[|chain| - 1], data), chain[i]) == PayloadOf(m, chain[i])
  {
    var n := |chain| - 1;
    var m' := Appended(m, chain[n], data);
    ApartDistinct(m, chain);
    assert LinkedAt(m, chain, 0, i);
    assert DisjointFrom(m, chain[n], EndOf(m, chain[n]), chain[..n]);
    assert chain[..n][i] == chain[i];
    SamePayload(m, m', chain[i], chain[n] + BUFFER_HEADER_SIZE + m.HeaderAt(chain[n]).len, data);
  }

  /** Writing behind what the last block holds. */
  lemma AppendKeeps(m: Mapping, chain: seq<int>, data: seq<byte>)
    requires Message(m, chain) && Fits(m, chain, data)
    ensures var m' := Appended(m, chain[|chain| - 1], data);
            Message(m', chain) && ChainBytes(m', chain) == ChainBytes(m, chain) + data
  {
    hide Message, Mapping.Readable, Mapping.HeaderAt, Appended, PayloadOf;
    var n := |chain| - 1;
    var m' := Appended(m, chain[n], data);
    AppendShape(m, chain, data);
    forall i | 0 <= i < n ensures PayloadOf(m', chain[..n][i]) == PayloadOf(m, chain[..n][i]) {
      AppendFrame(m, chain, data, i);
    }
    SameBytes(m, m', chain[..n]);
    AppendedPayload(m, chain[n], data);
  }

  /** The message could not take `data` into its last block, and was granted a block for it. */
  ghost predicate Grows(m: Mapping, chain: seq<int>, g: Grant, data: seq<byte>) {
    && g.Granted? && data != [] && Honours(m, chain, |data|, g)
    && (chain != [] ==> m.HeaderAt(chain[|chain| - 1]).cap < m.HeaderAt(chain[|chain| - 1]).len + |data|)
  }

  lemma GrowHeaders(m: Mapping, chain: seq<int>, g: Grant, data: seq<byte>, i: nat)
    requires Message(m, chain) && Grows(m, chain, g, data) && i < |chain|
    ensures var m' := Grown(m, chain, g.offset, g.cap, data);
            m'.HeaderAt(chain[i]) == if i == |chain| - 1 then m.HeaderAt(chain[i]).(next := g.offset) else m.HeaderAt(chain[i])
    ensures m.Readable(chain[i]) && chain[i] != g.offset
  {
    ApartDistinct(m, chain);
    assert LinkedAt(m, chain, 0, i);
  }

  lemma GrowLinks(m: Mapping, chain: seq<int>, g: Grant, data: seq<byte>)
    requires Message(m, chain) && Grows(m, chain, g, data)
    ensures var m' := Grown(m, chain, g.offset, g.cap, data);
            Linked(m', chain + [g.offset], 0) && Dense(m', chain + [g.offset])
  {
    var m', grown := Grown(m, chain, g.offset, g.cap, data), chain + [g.offset];
    forall k: nat | k < |grown| ensures LinkedAt(m', grown, 0, k) && DenseAt(m', grown, k) {
      if k < |chain| {
        GrowHeaders(m, chain, g, data, k);
        if k + 1 < |chain| { GrowHeaders(m, chain, g, data, k + 1); }
        assert LinkedAt(m, chain, 0, k) && DenseAt(m, chain, k);
      }
    }
  }

  lemma GrowApart(m: Mapping, chain: seq<int>, g: Grant, data: seq<byte>)
    requires Message(m, chain) && Grows(m, chain, g, data)
    ensures Apart(Grown(m, chain, g.offset, g.cap, data), chain + [g.offset])
  {
    var m', grown := Grown(m, chain, g.offset, g.cap, data), chain + [g.offset];
    forall i: nat | i < |chain| ensures EndOf(m', chain[i]) == EndOf(m, chain[i]) {
      GrowHeaders(m, chain, g, data, i);
    }
    forall i | 0 <= i < |grown| ensures DisjointFrom(m', grown[i], EndOf(m', grown[i]), grown[..i]) {
      if i < |chain| {
        assert DisjointFrom(m, chain[i], EndOf(m, chain[i]), chain[..i]);
        assert grown[..i] == chain[..i];
      } else {
        assert grown[..i] == chain;
      }
    }
  }

  lemma GrowPayload(m: Mapping, chain: seq<int>, g: Grant, data: seq<byte>, i: nat)
    requires Message(m, chain) && Grows(m, chain, g, data) && i < |chain|
    ensures PayloadOf(Grown(m, chain, g.offset, g.cap, data), chain[i]) == PayloadOf(m, chain[i])
  {
    GrowHeaders(m, chain, g, data, i);
    SamePayload(m, Grown(m, chain, g.offset, g.cap, data), chain[i], g.offset + BUFFER_HEADER_SIZE, data);
  }

  /** Continuing in a new block. */
  lemma GrowKeeps(m: Mapping, chain: seq<int>, g: Grant, data: seq<byte>)
    requires Message(m, chain) && Grows(m, chain, g, data)
    ensures var m' := Grown(m, chain, g.offset, g.cap, data);
            Message(m', chain + [g.offset]) && ChainBytes(m', chain + [g.offset]) == ChainBytes(m, chain) + data
  {
    var m', grown := Grown(m, chain, g.offset, g.cap, data), chain + [g.offset];
    GrowLinks(m, chain, g, data);
    GrowApart(m, chain, g, data);
    forall i | 0 <= i < |chain| ensures PayloadOf(m', chain[i]) == PayloadOf(m, chain[i]) {
      GrowPayload(m, chain, g, data, i);
    }
    SameBytes(m, m', chain);
    assert grown[..|grown| - 1] == chain;
    assert LinkedAt(m', grown, 0, |chain|);
    assert PayloadOf(m', g.offset) == data;
  }

  lemma NeighboursHold(m: Mapping, chain: seq<int>, k: nat, room: nat)
    requires Message(m, chain) && Roomy(m, chain, room) && k + 1 < |chain|
    ensures |PayloadOf(m, chain[k])| + |PayloadOf(m, chain[k + 1])| > room
  {
    assert LinkedAt(m, chain, 0, k) && LinkedAt(m, chain, 0, k + 1) && DenseAt(m, chain, k);
  }

  /** Any two neighbours hold more than the smallest block, so long messages have long payloads. */
  lemma {:induction false} LongChainsHoldMuch(m: Mapping, chain: seq<int>, n: nat, room: nat)
    requires Message(m, chain) && Roomy(m, chain, room) && n <= |chain|
    ensures 2 * |ChainBytes(m, chain[..n])| >= (n - 1) * room
    decreases n
  {
    hide Message, PayloadOf, Roomy;
    if n >= 2 {
      LongChainsHoldMuch(m, chain, n - 2, room);
      NeighboursHold(m, chain, n - 2, room);
      assert chain[..n][..n - 1] == chain[..n - 1] && chain[..n - 1][..n - 2] == chain[..n - 2];
      assert |ChainBytes(m, chain[..n])|
          == |ChainBytes(m, chain[..n - 2])| + |PayloadOf(m, chain[n - 2])| + |PayloadOf(m, chain[n - 1])|;
      assert (n - 1) * room == (n - 3) * room + 2 * room;
    }
  }

  /** With the default block sizes, a message within the transfer limit has no more blocks than the
      receiving side follows. */
  lemma MessageIsShort(m: Mapping, chain: seq<int>)
    requires Message(m, chain) && Roomy(m, chain, MIN_ROOM) && |ChainBytes(m, chain)| <= MAX_TRANSFER_SIZE
    ensures |chain| <= MAX_CHAIN_NODES
  {
    hide Message, ChainBytes, Roomy;
    LongChainsHoldMuch(m, chain, |chain|, MIN_ROOM);
    assert chain[..|chain|] == chain;
  }

  /** The receiving side accepts a message exactly when it has no more blocks than the walk follows: its
      root then names this chain, which passes the cycle check. */
  lemma MessageIsChain(m: Mapping, chain: seq<int>)
    requires Message(m, chain) && chain != []
    ensures chain[0] > 0 && (IsChain(m, chain[0], chain) <==> |chain| <= MAX_CHAIN_NODES)
  {
    hide Apart, Dense, ChainBytes, Distinct;
    ApartDistinct(m, chain);
    assert LinkedAt(m, chain, 0, 0);
  }

  /** Appending changes no block's room, and a granted block is as roomy as the grant. */
  lemma AppendRoomy(m: Mapping, chain: seq<int>, data: seq<byte>, room: nat)
    requires Fits(m, chain, data) && Roomy(m, chain, room)
    ensures Roomy(Appended(m, chain[|chain| - 1], data), chain, room)
  {
  }

  lemma GrowRoomy(m: Mapping, chain: seq<int>, g: Grant, data: seq<byte>, room: nat)
    requires Grows(m, chain, g, data) && Roomy(m, chain, room) && room <= g.cap
    ensures Roomy(Grown(m, chain, g.offset, g.cap, data), chain + [g.offset], room)
  {
  }

  /** No block of `other` overlaps a block of `chain`, or the granted one. */
  ghost predicate Elsewhere(m: Mapping, other: seq<int>, chain: seq<int>, g: Grant) {
    && (forall x <- chain :: DisjointFrom(m, x, EndOf(m, x), other))
    && (g.Granted? ==> DisjointFrom(m, g.offset, g.offset + BUFFER_HEADER_SIZE + g.cap, other))
  }

  /** The headers and payloads of `other` are the same in both. */
  ghost predicate Untouched(m: Mapping, m': Mapping, other: seq<int>) {
    |m'.bytes| == |m.bytes| && forall x <- other :: m'.HeaderAt(x) == m.HeaderAt(x) && PayloadOf(m', x) == PayloadOf(m, x)
  }

  lemma Survives(m: Mapping, m': Mapping, root: int, other: seq<int>)
    requires IsChain(m, root, other) && Untouched(m, m', other)
    ensures IsChain(m', root, other) && ChainBytes(m', other) == ChainBytes(m, other)
  {
    forall k: nat | k < |other| ensures LinkedAt(m', other, 0, k) {
      assert LinkedAt(m, other, 0, k);
    }
    SameBytes(m, m', other);
  }

  lemma ChainIsLinked(m: Mapping, root: int, chain: seq<int>)
    requires IsChain(m, root, chain)
    ensures Linked(m, chain, 0)
  {
  }

  lemma AppendElsewhere(m: Mapping, chain: seq<int>, data: seq<byte>, root: int, other: seq<int>)
    requires Fits(m, chain, data) && IsChain(m, root, other)
    requires DisjointFrom(m, chain[|chain| - 1], EndOf(m, chain[|chain| - 1]), other)
    ensures Untouched(m, Appended(m, chain[|chain| - 1], data), other)
  {
    hide IsChain, Splice;
    var x := chain[|chain| - 1];
    var m' := Appended(m, x, data);
    ChainIsLinked(m, root, other);
    forall k: nat | k < |other| ensures m'.HeaderAt(other[k]) == m.HeaderAt(other[k]) && PayloadOf(m', other[k]) == PayloadOf(m, other[k]) {
      assert LinkedAt(m, other, 0, k);
      SamePayload(m, m', other[k], x + BUFFER_HEADER_SIZE + m.HeaderAt(x).len, data);
    }
  }

  lemma GrowElsewhere(m: Mapping, chain: seq<int>, g: Grant, data: seq<byte>, root: int, other: seq<int>)
    requires Grows(m, chain, g, data) && IsChain(m, root, other) && Elsewhere(m, other, chain, g)
    ensures Untouched(m, Grown(m, chain, g.offset, g.cap, data), other)
  {
    var m' := Grown(m, chain, g.offset, g.cap, data);
    forall k: nat | k < |other| ensures m'.HeaderAt(other[k]) == m.HeaderAt(other[k]) && PayloadOf(m', other[k]) == PayloadOf(m, other[k]) {
      assert LinkedAt(m, other, 0, k);
      if chain != [] { assert DisjointFrom(m, chain[|chain| - 1], EndOf(m, chain[|chain| - 1]), other); }
      SamePayload(m, m', other[k], g.offset + BUFFER_HEADER_SIZE, data);
    }
  }

  lemma LastReadable(m: Mapping, chain: seq<int>)
    requires Message(m, chain) && chain != []
    ensures m.Readable(chain[|chain| - 1])
  {
    assert LinkedAt(m, chain, 0, |chain| - 1);
  }

  lemma EmptyChunk(chunks: seq<HeapChunk>, chunk: HeapChunk)
    requires chunk.bytes == []
    ensures HeapBytes(chunks + [chunk]) == HeapBytes(chunks)
  {
    assert (chunks + [chunk])[..|chunks|] == chunks;
  }

  lemma LastChunk(chunks: seq<HeapChunk>, data: seq<byte>)
    requires chunks != []
    ensures var last := |chunks| - 1;
            HeapBytes(chunks[last := chunks[last].(bytes := chunks[last].bytes + data)]) == HeapBytes(chunks) + data
  {
    var last := |chunks| - 1;
    assert chunks[last := chunks[last].(bytes := chunks[last].bytes + data)][..last] == chunks[..last];
  }

  lemma EmptyMessage(m: Mapping)
    ensures Message(m, []) && ChainBytes(m, []) == [] && HeapBytes([]) == []
  {
  }

  class WriteBuffer {
    /** The local segment, written through. */
    var mem: Mapping
    var pending: seq<int>
    var fallback: seq<HeapChunk>
    var len: nat

    ghost predicate Valid()
      reads this
    {
      && Message(mem, pending) && len == |Written()|
      && (fallback == [] ==> len <= MAX_TRANSFER_SIZE)
      && forall c <- fallback :: |c.bytes| <= c.capacity
    }

    /** The message so far. */
    ghost function Written(): seq<byte>
      reads this
    {
      ChainBytes(mem, pending) + HeapBytes(fallback)
    }

    constructor (mem: Mapping)
      ensures Valid() && this.mem == mem && pending == [] && fallback == [] && Written() == []
    {
      this.mem, pending, fallback, len := mem, [], [], 0;
    }

    /** Continue on the heap, in the last chunk if it has room. */
    method WriteFallback(data: seq<byte>)
      requires Valid()
      modifies this
      ensures Valid() && Written() == old(Written()) + data && fallback != []
      ensures mem == old(mem) && pending == old(pending)
    {
      hide Message, ChainBytes, HeapBytes;
      len := len + |data|;
      var reusable := fallback != [] && fallback[|fallback| - 1].capacity - |fallback[|fallback| - 1].bytes| >= |data|;
      if !reusable {
        var chunk := HeapChunk([], if |data| > DEFAULT_CHUNK then |data| else DEFAULT_CHUNK);
        EmptyChunk(fallback, chunk);
        fallback := fallback + [chunk];
      }
      var last := |fallback| - 1;
      LastChunk(fallback, data);
      fallback := fallback[last := fallback[last].(bytes := fallback[last].bytes + data)];
      Associative(ChainBytes(mem, pending), old(HeapBytes(fallback)), data);
    }

    /** The write needs a block of its own. */
    predicate NeedsBlock(size: nat)
      reads this
    {
      pending == [] || mem.HeaderAt(pending[|pending| - 1]).len + size > mem.HeaderAt(pending[|pending| - 1]).cap
    }

    /** The write cannot go to shared memory whatever the segment says. */
    predicate PastShm(size: nat, inFallback: bool)
      reads this
    {
      fallback != [] || inFallback || size > MAX_TRANSFER_SIZE || len > MAX_TRANSFER_SIZE - size
    }

    /** Append `data`. Whatever path it takes, the message grows by exactly these bytes; a refused
        write changes nothing; and the message leaves shared memory exactly when it must. */
    method WriteBytes(data: seq<byte>, open: bool, inFallback: bool, grant: Grant) returns (r: Result<nat, StreamError>)
      requires Valid() && Honours(mem, pending, |data|, grant)
      modifies this
      ensures Valid()
      ensures r.Ok? ==> r.value == |data| && Written() == old(Written()) + data
      ensures r.Err? ==> unchanged(this)
      ensures r.Err? <==>
                && data != []
                && (|data| > USIZE_MAX - old(len) || !open
                    || (!old(PastShm(|data|, inFallback)) && old(NeedsBlock(|data|)) && grant.ManagerClosed?))
      ensures r.Ok? && data != [] ==>
                (fallback != [] <==> old(PastShm(|data|, inFallback)) || (old(NeedsBlock(|data|)) && grant.Refused?))
      ensures pending == old(pending) || (grant.Granted? && pending == old(pending) + [grant.offset])
      ensures r.Ok? && grant.Granted? && data != [] && !old(PastShm(|data|, inFallback)) && old(NeedsBlock(|data|)) ==>
                pending == old(pending) + [grant.offset] && mem == Grown(old(mem), old(pending), grant.offset, grant.cap, data)
      // Blocks as roomy as every grant stay as roomy as every grant.
      ensures forall room: nat | Roomy(old(mem), old(pending), room) && (grant.Granted? ==> room <= grant.cap) ::
                Roomy(mem, pending, room)
      // A message already handed over keeps its bytes, if the segment grants none of its blocks again.
      ensures forall root, other | IsChain(old(mem), root, other) && Elsewhere(old(mem), other, old(pending), grant) ::
                IsChain(mem, root, other) && ChainBytes(mem, other) == ChainBytes(old(mem), other)
    {
      hide Message, ChainBytes, HeapBytes, Honours, IsChain, Elsewhere, Roomy;
      if data == [] { return Ok(0); }
      if |data| > USIZE_MAX - len { return Err(SizeTooLarge); }
      if !open { return Err(StreamClosed); }
      if PastShm(|data|, inFallback) {
        WriteFallback(data);
        return Ok(|data|);
      }
      if NeedsBlock(|data|) && grant.ManagerClosed? { return Err(SessionShutdown); }
      if NeedsBlock(|data|) && grant.Refused? {
        WriteFallback(data);
        return Ok(|data|);
      }
      WriteShm(data, grant);
      return Ok(|data|);
    }

    /** Continue in the last block if it has room, in a granted one otherwise. */
    method WriteShm(data: seq<byte>, grant: Grant)
      requires Valid() && Honours(mem, pending, |data|, grant) && data != []
      requires !PastShm(|data|, false) && (NeedsBlock(|data|) ==> grant.Granted?)
      modifies this
      ensures Valid() && Written() == old(Written()) + data && fallback == []
      ensures pending == old(pending) + if old(NeedsBlock(|data|)) then [grant.offset] else []
      ensures old(NeedsBlock(|data|)) ==> mem == Grown(old(mem), old(pending), grant.offset, grant.cap, data)
      ensures forall room: nat | Roomy(old(mem), old(pending), room) && (grant.Granted? ==> room <= grant.cap) ::
                Roomy(mem, pending, room)
      ensures forall root, other | IsChain(old(mem), root, other) && Elsewhere(old(mem), other, old(pending), grant) ::
                IsChain(mem, root, other) && ChainBytes(mem, other) == ChainBytes(old(mem), other)
    {
      hide Message, ChainBytes, Appended, Grown, IsChain, Mapping.HeaderAt, DisjointFrom, EndOf, Untouched, Roomy;
      len := len + |data|;
      if !NeedsBlock(|data|) {
        LastReadable(mem, pending);
        AppendKeeps(mem, pending, data);
        forall root, other | IsChain(mem, root, other) && Elsewhere(mem, other, pending, grant)
          ensures IsChain(Appended(mem, pending[|pending| - 1], data), root, other)
          ensures ChainBytes(Appended(mem, pending[|pending| - 1], data), other) == ChainBytes(mem, other)
        {
          AppendElsewhere(mem, pending, data, root, other);
          Survives(mem, Appended(mem, pending[|pending| - 1], data), root, other);
        }
        forall room: nat | Roomy(mem, pending, room) ensures Roomy(Appended(mem, pending[|pending| - 1], data), pending, room) {
          AppendRoomy(mem, pending, data, room);
        }
        mem := Appended(mem, pending[|pending| - 1], data);
      } else {
        GrowKeeps(mem, pending, grant, data);
        forall root, other | IsChain(mem, root, other) && Elsewhere(mem, other, pending, grant)
          ensures IsChain(Grown(mem, pending, grant.offset, grant.cap, data), root, other)
          ensures ChainBytes(Grown(mem, pending, grant.offset, grant.cap, data), other) == ChainBytes(mem, other)
        {
          GrowElsewhere(mem, pending, grant, data, root, other);
          Survives(mem, Grown(mem, pending, grant.offset, grant.cap, data), root, other);
        }
        forall room: nat | Roomy(mem, pending, room) && room <= grant.cap
          ensures Roomy(Grown(mem, pending, grant.offset, grant.cap, data), pending + [grant.offset], room)
        {
          GrowRoomy(mem, pending, grant, data, room);
        }
        mem := Grown(mem, pending, grant.offset, grant.cap, data);
        pending := pending + [grant.offset];
      }
    }

    /** Take the message's blocks out for the hand-over. The chain they form spells the message, and it
        is one the peer accepts exactly when it is short enough, which it always is with the default
        block sizes. */
    method TakeShm() returns (r: Result<Option<seq<int>>, StreamError>)
      requires Valid()
      modifies this
      ensures Valid() && mem == old(mem)
      ensures r.Err? <==> old(fallback) != []
      ensures r.Err? ==> unchanged(this)
      ensures r == Ok(None) ==> old(Written()) == []
      ensures r.Ok? && r.value.Some? ==>
                var chain := r.value.value;
                && chain == old(pending) != [] && (IsChain(mem, chain[0], chain) <==> |chain| <= MAX_CHAIN_NODES)
                && (Roomy(mem, chain, MIN_ROOM) ==> IsChain(mem, chain[0], chain))
                && ChainBytes(mem, chain) == old(Written()) && |old(Written())| <= MAX_TRANSFER_SIZE
      ensures r.Ok? ==> Written() == [] && pending == []
    {
      hide Message, ChainBytes, HeapBytes, IsChain, Roomy;
      EmptyMessage(mem);
      if fallback != [] { return Err(BrokenBuffer); }
      if pending == [] { return Ok(None); }
      MessageIsChain(mem, pending);
      if Roomy(mem, pending, MIN_ROOM) { MessageIsShort(mem, pending); }
      var chain := pending;
      pending, len := [], 0;
      return Ok(Some(chain));
    }

    /** The payloads of the message's blocks, in order. */
    method BlockChunks() returns (chunks: seq<seq<byte>>)
      ensures Flatten(chunks) == ChainBytes(mem, pending)
    {
      chunks := [];
      for k := 0 to |pending|
        invariant Flatten(chunks) == ChainBytes(mem, pending[..k])
      {
        assert pending[..k + 1][..k] == pending[..k];
        assert (chunks + [PayloadOf(mem, pending[k])])[..|chunks|] == chunks;
        chunks := chunks + [PayloadOf(mem, pending[k])];
      }
      assert pending[..|pending|] == pending;
    }

    /** What the message has on the heap, in order, behind `front`. */
    method HeapChunks(front: seq<seq<byte>>) returns (chunks: seq<seq<byte>>)
      ensures Flatten(chunks) == Flatten(front) + HeapBytes(fallback)
    {
      chunks := front;
      for k := 0 to |fallback|
        invariant Flatten(chunks) == Flatten(front) + HeapBytes(fallback[..k])
      {
        assert fallback[..k + 1][..k] == fallback[..k];
        assert (chunks + [fallback[k].bytes])[..|chunks|] == chunks;
        chunks := chunks + [fallback[k].bytes];
      }
      assert fallback[..|fallback|] == fallback;
    }

    /** Take everything as chunks for the socket, block payloads first. */
    method TakeFallback() returns (chunks: seq<seq<byte>>, blocks: seq<int>)
      requires Valid()
      modifies this
      ensures Valid() && Written() == [] && pending == [] && fallback == [] && mem == old(mem)
      ensures Flatten(chunks) == old(Written()) && blocks == old(pending)
    {
      blocks := pending;
      chunks := BlockChunks();
      chunks := HeapChunks(chunks);
      pending, fallback, len := [], [], 0;
    }
  }
}
