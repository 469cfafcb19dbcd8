/** A segment may be built with blocks far below the default size. A message within the transfer limit
    can then have more blocks than the receiving side follows: here blocks of 64 bytes, which have room
    for 32, get 17 bytes each. */
module TinyBlocks {
  import opened Common
  import opened Chain
  import opened WriteBuffer

  const PIECE: seq<byte> := seq(17, _ => 0)
  const TOO_MANY: nat := MAX_CHAIN_NODES + 1
  const TOTAL: nat := RQ_SIZE + 8 + 64 * TOO_MANY

  /** Where the buffer of the `i`-th block starts. */
  function At(i: nat): int { RQ_SIZE + 8 + 64 * i }

  function Blocks(n: nat): (chain: seq<int>)
    ensures |chain| == n && forall i | 0 <= i < n :: chain[i] == At(i)
  {
    seq(n, i requires 0 <= i => At(i))
  }

  /** The header of a filled block, with or without one behind it. */
  function Full(x: int, more: bool): Header { Header(x, if more then x + 64 else 0, 17, 32) }

  /** The segment once `n` pieces have been written. */
  function Filled(n: nat): Mapping {
    Mapping(map i: nat | 0 <= i < n :: At(i) := Full(At(i), i + 1 < n), seq(TOTAL, _ => 0))
  }

  lemma FilledHeader(n: nat, i: nat)
    requires i < n
    ensures At(i) in Filled(n).headers && Filled(n).headers[At(i)] == Full(At(i), i + 1 < n)
  {
  }

  /** The segment may grant the next block. */
  lemma NextGranted(n: nat)
    requires n < TOO_MANY
    ensures Honours(Filled(n), Blocks(n), 17, Granted(At(n), 32))
  {
    forall i | 0 <= i < n ensures EndOf(Filled(n), Blocks(n)[i]) <= At(n) {
      FilledHeader(n, i);
    }
  }

  lemma SameZeroes(n: nat)
    requires n < TOO_MANY
    ensures Splice(Filled(n).bytes, At(n) + BUFFER_HEADER_SIZE, PIECE) == Filled(n + 1).bytes
  {
    var zeroes, spliced := Filled(n + 1).bytes, Splice(Filled(n).bytes, At(n) + BUFFER_HEADER_SIZE, PIECE);
    var at := At(n) + BUFFER_HEADER_SIZE;
    forall i | at <= i < at + 17 ensures spliced[i] == 0 { assert spliced[at..at + 17][i - at] == PIECE[i - at]; }
  }

  /** What a piece does to the headers. */
  lemma SameHeaders(n: nat)
    requires n < TOO_MANY
    ensures Grown(Filled(n), Blocks(n), At(n), 32, PIECE).headers == Filled(n + 1).headers
  {
    hide Splice;
    var before, after := Filled(n).headers, Filled(n + 1).headers;
    var grown := Grown(Filled(n), Blocks(n), At(n), 32, PIECE).headers;
    if n > 0 { FilledHeader(n, n - 1); }
    forall x | x in grown ensures x in after && grown[x] == after[x] {
      assert x == At(n) || x in before;
    }
    forall x | x in after ensures x in grown {
      assert x == At(n) || x in before;
    }
  }

  lemma OnePiece(n: nat)
    requires n < TOO_MANY
    ensures Grown(Filled(n), Blocks(n), At(n), 32, PIECE) == Filled(n + 1)
    ensures Blocks(n) + [At(n)] == Blocks(n + 1)
  {
    hide Filled, Splice;
    SameZeroes(n);
    SameHeaders(n);
  }

  /** The last block is full up: the next piece needs a block of its own. */
  lemma NoRoomLeft(n: nat)
    requires 0 < n
    ensures var last := Filled(n).HeaderAt(Blocks(n)[n - 1]); last.len + 17 > last.cap
  {
    FilledHeader(n, n - 1);
  }

  /** Write one piece too many, each into a block of its own. The message is far below the transfer
      limit and is handed over, but its root names no chain the receiving side would accept. */
  method TooManyBlocks() returns (mem: Mapping, chain: seq<int>)
    ensures chain != [] && Message(mem, chain) && |ChainBytes(mem, chain)| == 17 * TOO_MANY < MAX_TRANSFER_SIZE
    ensures forall other :: !IsChain(mem, chain[0], other)
  {
    hide Message, ChainBytes, Filled, Grown, Honours, IsChain, HeapBytes, Mapping.HeaderAt, Elsewhere, Blocks;
    var w := new WriteBuffer(Mapping(map[], seq(TOTAL, _ => 0)));
    Nothing();
    for k := 0 to TOO_MANY
      invariant w.Valid() && w.mem == Filled(k) && w.pending == Blocks(k) && w.fallback == [] && w.len == 17 * k
    {
      NextGranted(k);
      OnePiece(k);
      if k > 0 { NoRoomLeft(k); }
      var r := w.WriteBytes(PIECE, true, false, Granted(At(k), 32));
    }
    var taken := w.TakeShm();
    mem, chain := w.mem, taken.value.value;
    forall other ensures !IsChain(mem, chain[0], other) { NotAccepted(mem, chain, other); }
  }

  lemma Nothing()
    ensures Mapping(map[], seq(TOTAL, _ => 0)) == Filled(0) && Blocks(0) == []
  {
  }

  lemma NotAccepted(m: Mapping, chain: seq<int>, other: seq<int>)
    requires Message(m, chain) && |chain| > MAX_CHAIN_NODES
    ensures !IsChain(m, chain[0], other)
  {
    hide Apart, Dense, Linked;
    MessageIsChain(m, chain);
    if IsChain(m, chain[0], other) {
      LinkedAgree(m, chain, other);
      assert false;
    }
  }
}
