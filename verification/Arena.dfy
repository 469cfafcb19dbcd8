/** The bytes of a region and the `[MAGIC:4][value:4]` headers allocators stamp into them
    (src/v5/region.rs). */
module Arena {
  import opened Common
  import opened Wrappers

  const MAGIC: nat := 0x0BAD_F00D

  datatype Error =
    | InvalidArenaSize
    | BlockSizeNotPowerOfTwo
    | InvalidBlockSizeOrder
    | BlockTooSmallForHeader
    | InvalidSizeClassConfiguration
    | InvalidOffset
    | NotAllocated
    | CorruptMetadata

  /** One block handed out by an allocator, in offsets into the arena. */
  datatype Allocation = Allocation(blockOffset: nat, dataOffset: nat, len: nat, cap: nat)

  /** The little-endian word at `at`. */
  function Word(a: array<byte>, at: nat): (w: nat)
    requires at + 4 <= a.Length
    reads a
    ensures w < TWO_32
  {
    a[at] as nat + 0x100 * a[at + 1] as nat + 0x1_0000 * a[at + 2] as nat + 0x100_0000 * a[at + 3] as nat
  }

  function ReadHeader(a: array<byte>, offset: nat): Option<(nat, nat)>
    reads a
  {
    if offset + ALLOCATOR_HEADER_SIZE <= a.Length then Some((Word(a, offset), Word(a, offset + 4))) else None
  }

  /** The bytes of a word add up to it. */
  lemma BytesOf(w: nat)
    requires w < TWO_32
    ensures w == w % 256 + 0x100 * (w / 256 % 256) + 0x1_0000 * (w / 0x1_0000 % 256) + 0x100_0000 * (w / 0x100_0000)
    ensures w / 0x100_0000 < 256
  {
    assert w / 256 / 256 == w / 0x1_0000 && w / 0x1_0000 / 256 == w / 0x100_0000;
  }

  method WriteWord(a: array<byte>, at: nat, w: nat)
    requires at + 4 <= a.Length && w < TWO_32
    modifies a
    ensures Word(a, at) == w
    ensures forall i | 0 <= i < a.Length && !(at <= i < at + 4) :: a[i] == old(a[i])
    ensures forall j: nat | j + 4 <= a.Length && (j + 4 <= at || at + 4 <= j) :: Word(a, j) == old(Word(a, j))
  {
    var b0, b1, b2, b3 := w % 256, w / 256 % 256, w / 0x1_0000 % 256, w / 0x100_0000;
    BytesOf(w);
    Fill(a, at, [b0 as byte, b1 as byte, b2 as byte, b3 as byte]);
    assert a[at] == a[at..at + 4][0] && a[at + 1] == a[at..at + 4][1];
    assert a[at + 2] == a[at..at + 4][2] && a[at + 3] == a[at..at + 4][3];
  }

  method WriteHeader(a: array<byte>, offset: nat, value: nat)
    requires offset + ALLOCATOR_HEADER_SIZE <= a.Length && value < TWO_32
    modifies a
    ensures ReadHeader(a, offset) == Some((MAGIC, value))
    ensures forall i | 0 <= i < a.Length && !(offset <= i < offset + ALLOCATOR_HEADER_SIZE) :: a[i] == old(a[i])
    ensures forall j: nat | j + 4 <= a.Length && (j + 4 <= offset || offset + 8 <= j) :: Word(a, j) == old(Word(a, j))
  {
    WriteWord(a, offset, MAGIC);
    WriteWord(a, offset + 4, value);
  }

  method ClearMagic(a: array<byte>, offset: nat)
    requires offset + ALLOCATOR_HEADER_SIZE <= a.Length
    modifies a
    ensures Word(a, offset) == 0
    ensures forall i | 0 <= i < a.Length && !(offset <= i < offset + 4) :: a[i] == old(a[i])
    ensures forall j: nat | j + 4 <= a.Length && (j + 4 <= offset || offset + 4 <= j) :: Word(a, j) == old(Word(a, j))
  {
    WriteWord(a, offset, 0);
  }

  /** Copy payload bytes in. */
  method Fill(a: array<byte>, at: nat, data: seq<byte>)
    requires at + |data| <= a.Length
    modifies a
    ensures a[at..at + |data|] == data
    ensures forall i | 0 <= i < a.Length && !(at <= i < at + |data|) :: a[i] == old(a[i])
    ensures forall j: nat | j + 4 <= a.Length && (j + 4 <= at || at + |data| <= j) :: Word(a, j) == old(Word(a, j))
  {
    forall i | 0 <= i < |data| { a[at + i] := data[i]; }
    assert forall i | at <= i < at + |data| :: a[i] == data[i - at];
  }
}
