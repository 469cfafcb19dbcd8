/** Messages as chains of blocks in the sender's segment, as the receiving side sees them
    (src/v5/dynshm.rs). The peer writes the headers, so nothing in them is trusted. */
module Chain {
  import opened Common
  import opened Wrappers
  import opened Sequences

  /** The buffer header in front of a payload. */
  datatype Header = Header(offset: int, next: int, len: nat, cap: nat)

  /** A mapped segment: arbitrary bytes, and what a header read at an offset yields; where the map
      has no entry the header reads as zeroes. */
  datatype Mapping = Mapping(headers: map<int, Header>, bytes: seq<byte>) {
    function HeaderAt(x: int): Header { if x in headers then headers[x] else Header(0, 0, 0, 0) }

    predicate InBounds(x: int) { RQ_SIZE <= x <= |bytes| - BUFFER_HEADER_SIZE }

    /** A header that may be followed: it names its own offset, its room lies inside the mapping, and
        the next block, if any, could be one. */
    predicate Readable(x: int) {
      var h := HeaderAt(x);
      && InBounds(x) && h.offset == x && h.len <= h.cap && h.cap <= |bytes| - x - BUFFER_HEADER_SIZE
      && (h.next == 0 || (InBounds(h.next) && h.next != x))
    }

    /** The payload at an offset and the offset of the next block. */
    function Read(x: int): (r: Option<(seq<byte>, int)>)
      ensures r.Some? <==> Readable(x)
      ensures r.Some? ==> r.value == (Payload(x), HeaderAt(x).next)
    {
      if x < RQ_SIZE || x > |bytes| - BUFFER_HEADER_SIZE then None
      else
        var h := HeaderAt(x);
        if h.offset != x || h.len > h.cap then None
        else if h.cap > |bytes| - x - BUFFER_HEADER_SIZE then None
        else if h.next != 0 && (h.next < RQ_SIZE || h.next > |bytes| - BUFFER_HEADER_SIZE || h.next == x) then None
        else Some((bytes[x + BUFFER_HEADER_SIZE..x + BUFFER_HEADER_SIZE + h.len], h.next))
    }

    function Payload(x: int): seq<byte>
      requires Readable(x)
    {
      bytes[x + BUFFER_HEADER_SIZE..x + BUFFER_HEADER_SIZE + HeaderAt(x).len]
    }
  }

  /** Block `k` is readable and leads to the next one, the last one to `end`. */
  ghost predicate LinkedAt(m: Mapping, chain: seq<int>, end: int, k: nat)
    requires k < |chain|
  {
    m.Readable(chain[k]) && m.HeaderAt(chain[k]).next == if k + 1 < |chain| then chain[k + 1] else end
  }

  ghost predicate Linked(m: Mapping, chain: seq<int>, end: int) {
    forall k: nat | k < |chain| :: LinkedAt(m, chain, end, k)
  }

  /** `chain` is the whole message that starts at `root`: readable blocks linked in this order, the
      last one ending the chain, no block twice, and no more of them than a segment can hold. */
  ghost predicate IsChain(m: Mapping, root: int, chain: seq<int>) {
    && (if root <= 0 then chain == [] else chain != [] && chain[0] == root)
    && Linked(m, chain, 0) && Distinct(chain) && |chain| <= MAX_CHAIN_NODES
  }

  /** A walk has seen the first `|seen|` blocks of the chain and is about to look at `at`. */
  ghost predicate OnTrack(m: Mapping, chain: seq<int>, seen: seq<int>, at: int) {
    |seen| <= |chain| && seen == chain[..|seen|] && (at > 0 <==> |seen| < |chain|) && (at > 0 ==> at == chain[|seen|])
  }

  /** A walk that never goes wrong stays on the one chain there is. */
  lemma StaysOnTrack(m: Mapping, root: int, chain: seq<int>, seen: seq<int>, at: int)
    requires IsChain(m, root, chain) && OnTrack(m, chain, seen, at) && at > 0
    ensures |seen| < MAX_CHAIN_NODES && at !in seen && m.Readable(at)
    ensures OnTrack(m, chain, seen + [at], m.HeaderAt(at).next)
  {
    assert LinkedAt(m, chain, 0, |seen|);
    assert chain[..|seen| + 1] == seen + [at];
    if |seen| + 1 < |chain| { assert LinkedAt(m, chain, 0, |seen| + 1); }
  }

  lemma {:induction false} ChainsAgree(m: Mapping, root: int, a: seq<int>, b: seq<int>, k: nat)
    requires IsChain(m, root, a) && IsChain(m, root, b) && k <= |a|
    ensures OnTrack(m, b, a[..k], if k < |a| then a[k] else 0)
  {
    if k < |a| { assert LinkedAt(m, a, 0, k); }
    if k > 0 {
      ChainsAgree(m, root, a, b, k - 1);
      assert LinkedAt(m, a, 0, k - 1);
      StaysOnTrack(m, root, b, a[..k - 1], a[k - 1]);
      assert a[..k] == a[..k - 1] + [a[k - 1]];
    }
  }

  /** Two lists of linked blocks from the same start are the same, however long they are. */
  lemma LinkedAgree(m: Mapping, a: seq<int>, b: seq<int>)
    requires Linked(m, a, 0) && Linked(m, b, 0) && a != [] && b != [] && a[0] == b[0]
    ensures a == b
  {
    var n := if |a| < |b| then |a| else |b|;
    forall k: nat | k < n ensures a[k] == b[k] { LinkedAgreeAt(m, a, b, k); }
    BlocksPositive(m, a);
    BlocksPositive(m, b);
    assert LinkedAt(m, a, 0, n - 1) && LinkedAt(m, b, 0, n - 1);
  }

  lemma BlocksPositive(m: Mapping, a: seq<int>)
    requires Linked(m, a, 0)
    ensures forall k | 0 <= k < |a| :: a[k] > 0
  {
    forall k | 0 <= k < |a| ensures a[k] > 0 { assert LinkedAt(m, a, 0, k); }
  }

  lemma {:induction false} LinkedAgreeAt(m: Mapping, a: seq<int>, b: seq<int>, k: nat)
    requires Linked(m, a, 0) && Linked(m, b, 0) && k < |a| && k < |b| && a[0] == b[0]
    ensures a[k] == b[k]
  {
    if k > 0 {
      LinkedAgreeAt(m, a, b, k - 1);
      assert LinkedAt(m, a, 0, k - 1) && LinkedAt(m, b, 0, k - 1);
    }
  }

  /** A root names at most one chain. */
  lemma ChainIsUnique(m: Mapping, root: int, a: seq<int>, b: seq<int>)
    requires IsChain(m, root, a) && IsChain(m, root, b)
    ensures a == b
  {
    ChainsAgree(m, root, a, b, |a|);
  }

  /** One more block at the end. */
  lemma LinkOneMore(m: Mapping, chain: seq<int>, at: int)
    requires Linked(m, chain, at) && m.Readable(at)
    ensures Linked(m, chain + [at], m.HeaderAt(at).next)
  {
    var grown, end := chain + [at], m.HeaderAt(at).next;
    forall k: nat | k < |grown| ensures LinkedAt(m, grown, end, k) {
      assert k < |chain| ==> LinkedAt(m, chain, at, k);
    }
  }

  /** The walk of `free_chain`. It ends on any contents, succeeds exactly when the root names a chain,
      and then yields the chain's blocks in order. */
  method CollectChain(m: Mapping, root: int) returns (r: Result<seq<int>, ManagerError>)
    ensures r.Ok? ==> IsChain(m, root, r.value)
    ensures r.Err? ==> forall chain :: !IsChain(m, root, chain)
  {
    var offsets, visited, offset := [], {}, root;
    while offset > 0
      invariant |offsets| <= MAX_CHAIN_NODES && Distinct(offsets) && visited == set o <- offsets
      invariant Linked(m, offsets, offset)
      invariant if offsets == [] then offset == root else offsets[0] == root > 0 && offset >= 0
      invariant forall chain | IsChain(m, root, chain) :: OnTrack(m, chain, offsets, offset)
      decreases MAX_CHAIN_NODES - |offsets|
    {
      forall chain | IsChain(m, root, chain)
        ensures |offsets| < MAX_CHAIN_NODES && offset !in offsets && m.Readable(offset)
        ensures OnTrack(m, chain, offsets + [offset], m.HeaderAt(offset).next)
      {
        StaysOnTrack(m, root, chain, offsets, offset);
      }
      if |offsets| >= MAX_CHAIN_NODES { return Err(OutOfBounds); }
      if offset in visited { return Err(InvalidOffset); }
      visited := visited + {offset};
      var block := m.Read(offset);
      if block.None? { return Err(InvalidOffset); }
      LinkOneMore(m, offsets, offset);
      offsets := offsets + [offset];
      offset := block.value.1;
    }
    return Ok(offsets);
  }

  /** The receiving side's way of giving blocks back: a list of offsets not handed over yet, because
      the release queue was full, and the queue itself. `room` is how many pushes the queue takes
      before it is full. */
  class RemoteManager {
    /** Everything pushed so far, oldest first. */
    var queued: seq<int>
    var pending: seq<int>
    var closed: bool

    constructor ()
      ensures queued == pending == [] && !closed
    {
      queued, pending, closed := [], [], false;
    }

    /** Push what fits and keep the rest: nothing is lost, and the order of release is kept. */
    method FlushReleases(room: nat) returns (r: Result<(), ManagerError>)
      modifies this
      ensures queued + pending == old(queued) + old(pending) && closed == old(closed)
      ensures |queued| == |old(queued)| + if room < |old(pending)| then room else |old(pending)|
      ensures r == if pending == [] then Ok(()) else Err(ReleaseQueueFull)
    {
      var pushed := 0;
      while pushed < |pending| && pushed < room
        invariant pushed <= |pending| && pushed <= room && pending == old(pending) && closed == old(closed)
        invariant queued == old(queued) + pending[..pushed]
      {
        queued := queued + [pending[pushed]];
        pushed := pushed + 1;
      }
      pending := pending[pushed..];
      return if pending == [] then Ok(()) else Err(ReleaseQueueFull);
    }

    /** Release one block. It is scheduled exactly when it names itself. */
    method Free(m: Mapping, x: int, room: nat) returns (r: Result<(), ManagerError>)
      modifies this
      ensures closed == old(closed)
      ensures !closed && m.InBounds(x) && m.HeaderAt(x).offset == x ==>
                queued + pending == old(queued) + old(pending) + [x] && (r.Ok? <==> pending == [])
      ensures closed || !m.InBounds(x) || m.HeaderAt(x).offset != x ==> r.Err? && unchanged(this)
    {
      if closed { return Err(Closed); }
      if !m.InBounds(x) { return Err(OutOfBounds); }
      if m.HeaderAt(x).offset != x { return Err(NotAllocated); }
      pending := pending + [x];
      r := FlushReleases(room);
    }

    /** Release a whole message: all of its blocks, in chain order, or none of them. */
    method FreeChain(m: Mapping, root: int, room: nat) returns (r: Result<(), ManagerError>)
      modifies this
      ensures closed == old(closed)
      ensures !closed ==> forall chain | IsChain(m, root, chain) ::
                queued + pending == old(queued) + old(pending) + chain && (r.Ok? <==> pending == [])
      ensures closed || (forall chain :: !IsChain(m, root, chain)) ==> r.Err? && unchanged(this)
    {
      if closed { return Err(Closed); }
      var chain := CollectChain(m, root);
      if chain.Err? { return Err(chain.error); }
      forall c | IsChain(m, root, c) ensures c == chain.value {
        ChainIsUnique(m, root, c, chain.value);
      }
      pending := pending + chain.value;
      r := FlushReleases(room);
    }

    method RetryPending(room: nat) returns (r: Result<(), ManagerError>)
      modifies this
      ensures queued + pending == old(queued) + old(pending) && closed == old(closed)
      ensures !closed && room >= |old(pending)| ==> pending == [] && r.Ok?
      ensures closed ==> r == Err(Closed) && unchanged(this)
    {
      if closed { return Err(Closed); }
      r := FlushReleases(room);
    }
  }
}
