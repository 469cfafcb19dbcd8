/** The V4 buffer of src/buffer/linked.rs over the slice list of src/buffer/slice.rs: bytes are written
    at a cursor into slices of fixed room, allocated as they are needed, and read off the front. */
module LinkedBuffer {
  import opened Common
  import opened Wrappers
  import opened Sequences

  const DEFAULT_SLICE: nat := 4096

  /** What `update` writes into a slice's shared header for the peer. */
  datatype Seal = Seal(start: nat, size: nat, next: Option<nat>)

  datatype Slice = Slice(id: nat, data: seq<byte>, start: nat, read: nat, write: nat, shm: bool, seal: Option<Seal>) {
    predicate Valid() { read <= write <= |data| && start <= read }
    function Size(): nat requires Valid() { write - read }
    function Rest(): seq<byte> requires Valid() { data[read..write] }
    /** Nothing has been written, and everything can be. */
    predicate Unused() { start == read == write == 0 < |data| }

    /** `chunk` copied in behind what the slice holds. */
    function Appended(chunk: seq<byte>): (s: Slice)
      requires Valid() && write + |chunk| <= |data|
      ensures s.Valid() && s.Rest() == Rest() + chunk && s.id == id
    {
      var s := this.(data := data[..write] + chunk + data[write + |chunk|..], write := write + |chunk|);
      assert s.data[read..write + |chunk|] == data[read..write] + chunk;
      s
    }

    function Skipped(n: nat): (s: Slice)
      requires Valid() && n <= Size()
      ensures s.Valid() && Rest() == Rest()[..n] + s.Rest() && s.id == id
    {
      this.(read := read + n)
    }
  }

  predicate AllValid(slices: seq<Slice>) {
    forall s <- slices :: s.Valid()
  }

  /** The bytes still to be read. */
  function Unread(slices: seq<Slice>): seq<byte>
    requires AllValid(slices)
  {
    if slices == [] then [] else slices[0].Rest() + Unread(slices[1..])
  }

  function Ids(slices: seq<Slice>): (ids: seq<nat>)
    ensures |ids| == |slices|
  {
    seq(|slices|, i requires 0 <= i < |slices| => slices[i].id)
  }

  lemma FrontId(slices: seq<Slice>)
    requires slices != []
    ensures Ids(slices) == [slices[0].id] + Ids(slices[1..])
  {
  }

  /** Reading off the front slice reads off the front of what is unread. */
  lemma FrontRead(slices: seq<Slice>, n: nat)
    requires AllValid(slices) && slices != [] && slices[0].Valid() && n <= slices[0].Size()
    ensures var rest := [slices[0].Skipped(n)] + slices[1..];
            && AllValid(rest) && rest[1..] == slices[1..]
            && Unread(slices) == slices[0].Rest()[..n] + Unread(rest)
  {
    var rest := [slices[0].Skipped(n)] + slices[1..];
    UnreadFront(slices);
    assert rest[1..] == slices[1..];
    UnreadFront(rest);
    Associative(slices[0].Rest()[..n], rest[0].Rest(), Unread(slices[1..]));
  }

  /** From `from` on, no slice has been used. */
  predicate UnusedFrom(slices: seq<Slice>, from: nat) {
    forall i | from <= i < |slices| :: slices[i].Unused()
  }

  lemma FrontUnused(slices: seq<Slice>, n: nat, from: nat)
    requires UnusedFrom(slices, from) && slices != [] && slices[0].Valid() && n <= slices[0].Size()
    ensures UnusedFrom([slices[0].Skipped(n)] + slices[1..], from)
  {
  }

  lemma UnreadFront(slices: seq<Slice>)
    requires AllValid(slices) && slices != []
    ensures slices[0].Valid() && AllValid(slices[1..]) && Unread(slices) == slices[0].Rest() + Unread(slices[1..])
  {
    assert slices[0] in slices;
  }

  lemma {:induction false} UnusedIsEmpty(slices: seq<Slice>)
    requires UnusedFrom(slices, 0)
    ensures AllValid(slices) && Unread(slices) == []
  {
    if slices != [] {
      assert UnusedFrom(slices[1..], 0);
      UnusedIsEmpty(slices[1..]);
    }
  }

  lemma {:induction false} UnreadAppend(a: seq<Slice>, b: seq<Slice>)
    requires AllValid(a) && AllValid(b)
    ensures AllValid(a + b) && Unread(a + b) == Unread(a) + Unread(b)
  {
    if a == [] {
      assert a + b == b;
    } else {
      UnreadFront(a);
      assert (a + b)[1..] == a[1..] + b;
      UnreadAppend(a[1..], b);
      Associative(a[0].Rest(), Unread(a[1..]), Unread(b));
    }
  }

  /** With nothing used behind slice `k`, writing to it adds to the end of what is unread. */
  lemma {:induction false} WriteAt(slices: seq<Slice>, k: nat, chunk: seq<byte>)
    requires AllValid(slices) && k < |slices| && UnusedFrom(slices, k + 1)
    requires slices[k].Valid() && slices[k].write + |chunk| <= |slices[k].data|
    ensures var slices' := slices[k := slices[k].Appended(chunk)];
            AllValid(slices') && Unread(slices') == Unread(slices) + chunk
  {
    var slices' := slices[k := slices[k].Appended(chunk)];
    UnreadFront(slices);
    if k == 0 {
      assert slices'[1..] == slices[1..] && UnusedFrom(slices[1..], 0);
      UnusedIsEmpty(slices[1..]);
    } else {
      assert slices'[1..] == slices[1..][k - 1 := slices[1..][k - 1].Appended(chunk)];
      assert UnusedFrom(slices[1..], k);
      WriteAt(slices[1..], k - 1, chunk);
      Associative(slices[0].Rest(), Unread(slices[1..]), chunk);
    }
  }

  function Sum(caps: seq<nat>): nat {
    if caps == [] then 0 else Sum(caps[..|caps| - 1]) + caps[|caps| - 1]
  }

  lemma {:induction false} SumAppend(a: seq<nat>, b: seq<nat>)
    ensures Sum(a + b) == Sum(a) + Sum(b)
    decreases |b|
  {
    if b == [] {
      assert a + b == a;
    } else {
      var n := |b| - 1;
      assert (a + b)[..|a| + n] == a + b[..n];
      SumAppend(a, b[..n]);
    }
  }

  function Caps(slices: seq<Slice>): seq<nat> {
    seq(|slices|, i requires 0 <= i < |slices| => |slices[i].data|)
  }

  /** How much a list of unused slices can take. */
  function Room(slices: seq<Slice>): nat {
    Sum(Caps(slices))
  }

  lemma RoomOneMore(slices: seq<Slice>, s: Slice)
    ensures Caps(slices + [s]) == Caps(slices) + [|s.data|] && Room(slices + [s]) == Room(slices) + |s.data|
  {
    assert Caps(slices + [s]) == Caps(slices) + [|s.data|];
    assert Caps(slices + [s])[..|slices|] == Caps(slices);
  }

  function RoomOf(s: Slice): nat { if s.write <= |s.data| then |s.data| - s.write else 0 }

  /** The room left in each slice. */
  function Rooms(slices: seq<Slice>): seq<nat> {
    seq(|slices|, i requires 0 <= i < |slices| => RoomOf(slices[i]))
  }

  // ------------------------------------------------------------------ what the free lists give

  /** What the shared free lists have when they are asked: one slice of this room, or several. */
  datatype Answer = One(cap: nat) | Several(caps: seq<nat>)

  /** One slice of the answer has room for `size`. */
  predicate Offers(a: Answer, size: nat) { a.One? && a.cap >= size && a.cap > 0 }

  /** Slices until there is room for `size`, or there are no more. */
  function TakeCaps(caps: seq<nat>, size: nat): (r: seq<nat>)
    ensures forall c <- r :: c > 0
  {
    if caps == [] || size == 0 then []
    else if caps[0] == 0 then TakeCaps(caps[1..], size)
    else [caps[0]] + TakeCaps(caps[1..], if caps[0] < size then size - caps[0] else 0)
  }

  function HeapCap(size: nat): nat { if size < DEFAULT_SLICE then DEFAULT_SLICE else size }

  function SeveralOf(a: Answer): seq<nat> { if a.Several? then a.caps else [] }

  /** The rooms of the slices an allocation of `size` bytes gets: one from the free lists, or several of
      them, with the heap for what is missing. */
  function Granted(schedule: nat -> Answer, asked: nat, size: nat): (caps: seq<nat>)
    ensures (forall c <- caps :: c > 0) && Sum(caps) >= size
  {
    if Offers(schedule(asked), size) then
      assert [schedule(asked).cap][..0] == [];
      [schedule(asked).cap]
    else
      var many := TakeCaps(SeveralOf(schedule(asked + 1)), size);
      if Sum(many) >= size then many
      else
        assert (many + [HeapCap(size - Sum(many))])[..|many|] == many;
        many + [HeapCap(size - Sum(many))]
  }

  function AskedAfter(schedule: nat -> Answer, asked: nat, size: nat): nat {
    if Offers(schedule(asked), size) then asked + 1 else asked + 2
  }

  /** Nothing is got exactly when nothing is asked for and nothing is free. */
  lemma GrantedNothing(schedule: nat -> Answer, asked: nat, size: nat)
    ensures Granted(schedule, asked, size) == [] <==> size == 0 && !Offers(schedule(asked), 0)
  {
  }

  lemma GrantedCases(schedule: nat -> Answer, asked: nat, size: nat)
    ensures var many := TakeCaps(SeveralOf(schedule(asked + 1)), size);
            Granted(schedule, asked, size) == if Offers(schedule(asked), size) then [schedule(asked).cap]
                                              else if Sum(many) >= size then many else many + [HeapCap(size - Sum(many))]
  {
  }

  lemma OneCap(s: Slice)
    ensures Caps([s]) == [|s.data|]
  {
  }

  /** Slices handed out one after the other. */
  predicate Consecutive(slices: seq<Slice>, from: nat) {
    forall i | 0 <= i < |slices| :: slices[i].id == from + i
  }

  predicate AllShared(slices: seq<Slice>) {
    forall s <- slices :: s.shm
  }

  /** Unused shared slices, handed out one after the other. */
  ghost predicate FreshFrom(slices: seq<Slice>, from: nat) {
    UnusedFrom(slices, 0) && AllShared(slices) && Consecutive(slices, from)
  }

  lemma NoneFresh(from: nat)
    ensures FreshFrom([], from)
  {
  }

  lemma FreshOneMore(slices: seq<Slice>, s: Slice, from: nat)
    requires FreshFrom(slices, from) && s.Unused() && s.shm && s.id == from + |slices|
    ensures FreshFrom(slices + [s], from)
  {
  }

  class SliceManager {
    const schedule: nat -> Answer
    var asked: nat
    var nextId: nat

    constructor (schedule: nat -> Answer)
      ensures this.schedule == schedule && asked == 0 && nextId == 0
    {
      this.schedule, asked, nextId := schedule, 0, 0;
    }

    method NewSlice(cap: nat, shm: bool) returns (s: Slice)
      requires cap > 0
      modifies this
      ensures s.Unused() && |s.data| == cap && s.shm == shm && asked == old(asked)
      ensures s.id == old(nextId) && nextId == old(nextId) + 1
    {
      s := Slice(nextId, seq(cap, _ => 0), 0, 0, 0, shm, None);
      nextId := nextId + 1;
    }

    /** `alloc_shm_buffer`: one slice with room for `size`, or none. */
    method AllocOne(size: nat) returns (r: Option<Slice>)
      modifies this
      ensures r.Some? <==> Offers(schedule(old(asked)), size)
      ensures r.Some? ==> r.value.Unused() && r.value.shm && |r.value.data| == schedule(old(asked)).cap
      ensures r.Some? ==> r.value.id == old(nextId) && nextId == old(nextId) + 1
      ensures r.None? ==> nextId == old(nextId)
      ensures asked == old(asked) + 1
    {
      var answer := schedule(asked);
      asked := asked + 1;
      if answer.One? && answer.cap >= size && answer.cap > 0 {
        var s := NewSlice(answer.cap, true);
        return Some(s);
      }
      return None;
    }

    /** `alloc_shm_buffers`: slices until there is room for `size`, or no more are free. */
    method AllocMany(size: nat) returns (slices: seq<Slice>, room: nat)
      modifies this
      ensures FreshFrom(slices, old(nextId)) && room == Room(slices) && nextId == old(nextId) + |slices|
      ensures Caps(slices) == TakeCaps(SeveralOf(schedule(old(asked))), size)
      ensures asked == old(asked) + 1
    {
      hide Sum, TakeCaps, Caps, Room, FreshFrom;
      var caps := if schedule(asked).Several? then schedule(asked).caps else [];
      asked := asked + 1;
      var k := 0;
      slices, room := [], 0;
      NoRoom();
      NoneFresh(nextId);
      TakeEnds(caps, size);
      while k < |caps| && room < size
        invariant k <= |caps| && FreshFrom(slices, old(nextId)) && room == Room(slices)
        invariant Caps(slices) + TakeCaps(caps[k..], Missing(size, room)) == TakeCaps(caps, size)
        invariant nextId == old(nextId) + |slices| && asked == old(asked) + 1
      {
        if caps[k] > 0 {
          TakeStep(Caps(slices), caps, k, room, size);
          var s := NewSlice(caps[k], true);
          RoomOneMore(slices, s);
          FreshOneMore(slices, s, old(nextId));
          slices := slices + [s];
          room := room + caps[k];
        } else {
          SkipStep(caps, k, room, size);
        }
        k := k + 1;
      }
      TakeDone(caps, k, room, size);
    }
  }

  function Missing(size: nat, room: nat): nat { if room < size then size - room else 0 }

  /** One more of the free slices is taken. */
  lemma TakeStep(taken: seq<nat>, caps: seq<nat>, k: nat, room: nat, size: nat)
    requires k < |caps| && room < size && caps[k] > 0
    ensures taken + TakeCaps(caps[k..], Missing(size, room))
         == taken + [caps[k]] + TakeCaps(caps[k + 1..], Missing(size, room + caps[k]))
  {
    assert caps[k..][1..] == caps[k + 1..];
    Associative(taken, [caps[k]], TakeCaps(caps[k + 1..], Missing(size, room + caps[k])));
  }

  /** Or passed over. */
  lemma SkipStep(caps: seq<nat>, k: nat, room: nat, size: nat)
    requires k < |caps| && room < size && caps[k] == 0
    ensures TakeCaps(caps[k..], Missing(size, room)) == TakeCaps(caps[k + 1..], Missing(size, room))
  {
    assert caps[k..][1..] == caps[k + 1..];
  }

  lemma TakeEnds(caps: seq<nat>, size: nat)
    ensures [] + TakeCaps(caps[0..], Missing(size, 0)) == TakeCaps(caps, size)
  {
    assert caps[0..] == caps;
  }

  lemma TakeDone(caps: seq<nat>, k: nat, room: nat, size: nat)
    requires k <= |caps| && (k == |caps| || room >= size)
    ensures TakeCaps(caps[k..], Missing(size, room)) == []
  {
  }

  lemma NoRoom()
    ensures Room([]) == 0 && Caps([]) == []
  {
  }

  /** Without leading slices that have nothing to read. */
  function Lead(slices: seq<Slice>): (r: seq<Slice>)
    requires AllValid(slices)
    ensures AllValid(r) && Unread(r) == Unread(slices) && (r != [] ==> r[0].Size() > 0)
  {
    if slices == [] then []
    else
      UnreadFront(slices);
      if slices[0].Size() == 0 then Lead(slices[1..]) else slices
  }

  /** What a bounded read gets: the run of non-empty slices at the front, `max` of them at most. */
  function Span(slices: seq<Slice>, max: nat): seq<byte>
    requires AllValid(slices)
  {
    if slices == [] || max == 0 then []
    else
      UnreadFront(slices);
      if slices[0].Size() == 0 then [] else slices[0].Rest() + Span(slices[1..], max - 1)
  }

  /** A read of `n` bytes from `max` slices reads slices to their end and then meets an empty one, with
      more to read behind it. */
  predicate MeetsGap(slices: seq<Slice>, n: nat, max: nat)
    requires AllValid(slices)
  {
    && Unread(slices) != [] && n > 0 && max > 0
    && (UnreadFront(slices);
        slices[0].Size() == 0 || (slices[0].Size() < n && MeetsGap(slices[1..], n - slices[0].Size(), max - 1)))
  }

  /** The gap in so many words: an empty slice behind `k` slices that the read takes whole, without
      having all it wants or all there is. */
  ghost predicate GapAt(slices: seq<Slice>, n: nat, max: nat, k: nat)
    requires AllValid(slices)
  {
    && k < |slices| && k < max && AllValid(slices[..k]) && AllValid(slices[k..])
    && (forall i | 0 <= i < k :: slices[i].Valid() && slices[i].Size() > 0)
    && slices[k].Valid() && slices[k].Size() == 0
    && |Unread(slices[..k])| < n && Unread(slices[k..]) != []
  }

  lemma {:induction false} FindGap(slices: seq<Slice>, n: nat, max: nat) returns (k: nat)
    requires AllValid(slices) && MeetsGap(slices, n, max)
    ensures GapAt(slices, n, max, k)
    decreases |slices|
  {
    UnreadFront(slices);
    if slices[0].Size() == 0 {
      assert slices[..0] == [] && slices[0..] == slices;
      k := 0;
    } else {
      var j := FindGap(slices[1..], n - slices[0].Size(), max - 1);
      k := j + 1;
      GapStep(slices, n, max, k);
    }
  }

  lemma {:induction false} GapIsMet(slices: seq<Slice>, n: nat, max: nat, k: nat)
    requires AllValid(slices) && GapAt(slices, n, max, k)
    ensures MeetsGap(slices, n, max)
    decreases k
  {
    UnreadFront(slices);
    if slices[0].Size() == 0 {
      assert slices[0..] == slices;
    } else {
      GapStep(slices, n, max, k);
      GapIsMet(slices[1..], n - slices[0].Size(), max - 1, k - 1);
    }
  }

  lemma GapIsThere(slices: seq<Slice>, n: nat, max: nat)
    requires AllValid(slices)
    ensures MeetsGap(slices, n, max) <==> exists k: nat :: GapAt(slices, n, max, k)
  {
    hide MeetsGap, GapAt;
    if MeetsGap(slices, n, max) {
      var k := FindGap(slices, n, max);
    }
    if k: nat :| GapAt(slices, n, max, k) {
      GapIsMet(slices, n, max, k);
    }
  }

  lemma GapStep(slices: seq<Slice>, n: nat, max: nat, k: nat)
    requires AllValid(slices) && slices != [] && AllValid(slices[1..]) && slices[0].Valid() && slices[0].Size() > 0
    ensures GapAt(slices, n, max, k) <==>
            k > 0 && slices[0].Size() < n && max > 0 && GapAt(slices[1..], n - slices[0].Size(), max - 1, k - 1)
  {
    if 0 < k < |slices| {
      assert slices[..k][1..] == slices[1..][..k - 1] && slices[k..] == slices[1..][k - 1..];
      assert AllValid(slices[..k]) && AllValid(slices[k..]);
      UnreadFront(slices[..k]);
    }
  }

  function Min(a: nat, b: nat): nat { if a < b then a else b }

  lemma NothingUnread()
    ensures Unread([]) == []
  {
  }

  lemma SmallRemainder(n: nat)
    ensures n % TWO_32 == 0 && n > 0 ==> n >= TWO_32
  {
  }

  lemma {:induction false} LeadOfNothing(slices: seq<Slice>)
    requires AllValid(slices) && Unread(slices) == []
    ensures Lead(slices) == []
  {
    if slices != [] {
      UnreadFront(slices);
      LeadOfNothing(slices[1..]);
    }
  }

  lemma SpanOfNothing(slices: seq<Slice>, max: nat)
    requires AllValid(slices) && Unread(slices) == []
    ensures Span(slices, max) == []
  {
    if slices != [] { UnreadFront(slices); }
  }

  /** What is read of the front slice is the next part of the span. */
  lemma SpanStep(slices: seq<Slice>, take: nat, max: nat, out: seq<byte>)
    requires AllValid(slices) && slices != [] && slices[0].Valid() && 0 < take <= slices[0].Size() && max > 0
    ensures AllValid(slices[1..])
    ensures var more := slices[0].Rest()[..take];
            && out + more <= out + Span(slices, max)
            && (take == slices[0].Size() ==> (out + more) + Span(slices[1..], max - 1) == out + Span(slices, max))
  {
    UnreadFront(slices);
    var more, left := slices[0].Rest()[..take], slices[0].Rest()[take..];
    assert slices[0].Rest() == more + left;
    Associative(more, left, Span(slices[1..], max - 1));
    Associative(out, more, left + Span(slices[1..], max - 1));
    Associative(out, more, Span(slices[1..], max - 1));
  }

  /** The first `n` bytes of the front slice are the first unread ones. */
  lemma PeekFront(slices: seq<Slice>, n: nat)
    requires AllValid(slices) && slices != [] && slices[0].Valid() && n <= slices[0].Size()
    ensures var s := slices[0];
            && AllValid(slices[1..]) && s.read + n <= |s.data| && s.Rest() == s.data[s.read..s.read + n] + s.Rest()[n..]
            && Unread(slices) == s.data[s.read..s.read + n] + (s.Rest()[n..] + Unread(slices[1..]))
  {
    var s := slices[0];
    UnreadFront(slices);
    FrontOfSlice(s.data, s.read, s.write, n);
    Associative(s.data[s.read..s.read + n], s.Rest()[n..], Unread(slices[1..]));
  }

  lemma PeekStep(all: seq<byte>, out: seq<byte>, slices: seq<Slice>, n: nat) returns (rest: seq<byte>)
    requires AllValid(slices) && slices != [] && slices[0].Valid() && n <= slices[0].Size() && all == out + Unread(slices)
    ensures var s := slices[0];
            && AllValid(slices[1..]) && s.read + n <= |s.data|
            && all == out + s.data[s.read..s.read + n] + rest && (n == s.Size() ==> rest == Unread(slices[1..]))
  {
    var s := slices[0];
    PeekFront(slices, n);
    rest := s.Rest()[n..] + Unread(slices[1..]);
    Associative(out, s.data[s.read..s.read + n], rest);
  }

  /** Copy the first `size` unread bytes together. */
  method PeekAcross(slices: seq<Slice>, size: nat) returns (out: seq<byte>)
    requires AllValid(slices) && size <= |Unread(slices)|
    ensures out == Unread(slices)[..size]
  {
    hide Unread;
    NothingUnread();
    out := [];
    var ahead := slices;
    ghost var rest := Unread(slices);
    while |out| < size && ahead != []
      invariant AllValid(ahead) && |out| <= size && Unread(slices) == out + rest && (|out| < size ==> rest == Unread(ahead))
      decreases |ahead|
    {
      var s := ahead[0];
      assert s in ahead;
      var take := Min(s.write - s.read, size - |out|);
      rest := PeekStep(Unread(slices), out, ahead, take);
      out := out + s.data[s.read..s.read + take];
      ahead := ahead[1..];
    }
  }

  // ------------------------------------------------------------------ whose slices they are

  /** The slices are different ones out of those handed out before `next`, and all of them are shared if
      the buffer says so. */
  ghost predicate Own(slices: seq<Slice>, shm: bool, next: nat) {
    Distinct(Ids(slices)) && (shm ==> AllShared(slices)) && forall s <- slices :: s.id < next
  }

  lemma OwnSame(a: seq<Slice>, b: seq<Slice>, shm: bool, next: nat)
    requires Own(a, shm, next) && |a| == |b| && forall i | 0 <= i < |a| :: b[i].id == a[i].id && b[i].shm == a[i].shm
    ensures Own(b, shm, next) && Ids(b) == Ids(a)
  {
    assert Ids(b) == Ids(a);
  }

  lemma OwnPart(a: seq<Slice>, shm: bool, next: nat, lo: nat, hi: nat)
    requires Own(a, shm, next) && lo <= hi <= |a|
    ensures Own(a[lo..hi], shm, next) && Ids(a[lo..hi]) == Ids(a)[lo..hi]
  {
    assert Ids(a[lo..hi]) == Ids(a)[lo..hi];
  }

  lemma OwnMore(a: seq<Slice>, more: seq<Slice>, shm: bool, shm': bool, next: nat)
    requires Own(a, shm, next) && Consecutive(more, next) && (shm' ==> shm && AllShared(more))
    ensures Own(a + more, shm', next + |more|)
  {
    var ids := Ids(a + more);
    forall i, j | 0 <= i < j < |ids| ensures ids[i] != ids[j] {
      if j < |a| {
        assert Ids(a)[i] != Ids(a)[j];
      } else if i < |a| {
        assert a[i] in a;
      }
    }
  }

  lemma OwnOneMore(a: seq<Slice>, s: Slice, shm: bool, next: nat)
    requires Own(a, shm, next) && s.id < next && s.id !in Ids(a)
    ensures Own(a + [s], shm && s.shm, next)
  {
    assert Ids(a + [s]) == Ids(a) + [s.id];
  }

  // ------------------------------------------------------------------ the room ahead of the cursor

  lemma RoomsOfUnused(slices: seq<Slice>)
    requires UnusedFrom(slices, 0)
    ensures Rooms(slices) == Caps(slices)
  {
  }

  lemma RoomsAppend(a: seq<Slice>, b: seq<Slice>)
    ensures Rooms(a + b) == Rooms(a) + Rooms(b)
  {
  }

  /** The rooms ahead, from slice `k` on. */
  function RoomsFrom(slices: seq<Slice>, k: nat): seq<nat>
    requires k <= |slices|
  {
    Rooms(slices)[k..]
  }

  /** Writing to a slice takes exactly that much off its room, and moving on from a full one takes
      nothing. */
  lemma RoomTaken(slices: seq<Slice>, slices': seq<Slice>, k: nat, n: nat)
    requires AllValid(slices) && AllValid(slices') && k < |slices| == |slices'|
    requires forall i | k < i < |slices| :: slices'[i] == slices[i]
    requires |slices'[k].data| == |slices[k].data| && slices'[k].write == slices[k].write + n
    ensures Sum(RoomsFrom(slices, k)) == Sum(RoomsFrom(slices', k)) + n
  {
    assert slices[k] in slices && slices'[k] in slices';
    FrontRoom(RoomsFrom(slices, k));
    FrontRoom(RoomsFrom(slices', k));
    assert RoomsFrom(slices, k)[1..] == RoomsFrom(slices', k)[1..];
  }

  lemma FrontRoom(rooms: seq<nat>)
    requires rooms != []
    ensures Sum(rooms) == rooms[0] + Sum(rooms[1..])
  {
    SumAppend([rooms[0]], rooms[1..]);
    assert rooms == [rooms[0]] + rooms[1..] && [rooms[0]][..0] == [];
  }

  lemma NothingStarves(schedule: nat -> Answer, asked: nat, rest: int)
    requires rest <= 0
    ensures !Starves(schedule, asked, rest)
  {
  }

  /** A full slice adds nothing to the room ahead. */
  lemma FullRoom(slices: seq<Slice>, k: nat)
    requires AllValid(slices) && k < |slices| && slices[k].write == |slices[k].data|
    ensures Sum(RoomsFrom(slices, k)) == Sum(RoomsFrom(slices, k + 1)) && (k + 1 == |slices| ==> RoomsFrom(slices, k + 1) == [])
    ensures Sum([]) == 0
  {
    assert slices[k] in slices;
    FrontRoom(RoomsFrom(slices, k));
    assert RoomsFrom(slices, k)[1..] == RoomsFrom(slices, k + 1);
  }

  /** Unused slices behind the others are the room ahead of their end. */
  lemma NewRooms(slices: seq<Slice>, more: seq<Slice>)
    requires UnusedFrom(more, 0)
    ensures RoomsFrom(slices + more, |slices|) == Caps(more)
  {
    RoomsAppend(slices, more);
    RoomsOfUnused(more);
  }

  lemma AllUnusedRooms(slices: seq<Slice>, more: seq<Slice>)
    requires UnusedFrom(slices, 0) && UnusedFrom(more, 0)
    ensures RoomsFrom(slices + more, 0) == Caps(slices) + Caps(more)
  {
    RoomsAppend(slices, more);
    RoomsOfUnused(slices);
    RoomsOfUnused(more);
  }

  /** Some answers run dry: with `rest` bytes to place, an allocation is asked for a multiple of 4 GiB,
      which is cut to nothing, while no slice is free. */
  predicate Starves(schedule: nat -> Answer, asked: nat, rest: int)
    decreases rest
  {
    && rest > 0
    && var caps := Granted(schedule, asked, rest % TWO_32);
       caps == []
       || (FrontRoom(caps); assert caps[0] in caps; Starves(schedule, AskedAfter(schedule, asked, rest % TWO_32), rest - Sum(caps)))
  }

  /** Only what is 4 GiB or more can starve. */
  lemma {:induction false} StarvesLate(schedule: nat -> Answer, asked: nat, rest: int)
    requires Starves(schedule, asked, rest)
    ensures rest >= TWO_32
    decreases rest
  {
    var caps := Granted(schedule, asked, rest % TWO_32);
    if caps == [] {
      GrantedNothing(schedule, asked, rest % TWO_32);
      SmallRemainder(rest);
    } else {
      FrontRoom(caps);
      assert caps[0] in caps;
      StarvesLate(schedule, AskedAfter(schedule, asked, rest % TWO_32), rest - Sum(caps));
    }
  }

  /** Neither the first slice ahead nor the next has room for `size` bytes. */
  predicate Crowded(rooms: seq<nat>, size: nat) {
    rooms != [] && rooms[0] < size && (|rooms| > 1 ==> rooms[1] < size)
  }

  /** A slice is offered for the length cut to 32 bits, and it is too small for the length. */
  predicate CutShort(a: Answer, size: nat) {
    Offers(a, size % TWO_32) && a.cap < size
  }

  datatype Outcome = Done | NoMoreBuffer | Panic

  datatype Discarded = Skipped(n: nat) | Refused | Spins

  class LinkedBuffer {
    const manager: SliceManager
    var slices: seq<Slice>
    /** The slice being written. */
    var cursor: Option<nat>
    var len: nat
    var shm: bool
    /** Slices read to their end, and slices given back unused, oldest first. */
    var retired: seq<nat>
    var recycled: seq<nat>

    ghost predicate Shape()
      reads this, manager
    {
      && AllValid(slices) && Own(slices, shm, manager.nextId)
      && (cursor.Some? ==> cursor.value < |slices|)
      && UnusedFrom(slices, if cursor.Some? then cursor.value + 1 else 0)
    }

    ghost predicate Valid()
      reads this, manager
    {
      Shape() && len == |Contents()|
    }

    ghost function Contents(): seq<byte>
      requires AllValid(slices)
      reads this
    {
      Unread(slices)
    }

    /** Everything this buffer has had, in order: what it has let go, then what it has. */
    ghost function Passed(): seq<nat>
      reads this`retired, this`slices
    {
      retired + Ids(slices)
    }

    /** The rooms ahead of the cursor; without one, those of all slices and of what an allocation of
        `size` bytes gets. */
    ghost function Ahead(size: nat): seq<nat>
      requires Shape()
      reads this, manager
    {
      if cursor.Some? then RoomsFrom(slices, cursor.value)
      else Caps(slices) + Granted(manager.schedule, manager.asked, size % TWO_32)
    }

    /** Which question to the free lists comes next, once there is a cursor. */
    ghost function NextAsk(size: nat): nat
      reads this, manager
    {
      if cursor.Some? then manager.asked else AskedAfter(manager.schedule, manager.asked, size % TWO_32)
    }

    constructor (manager: SliceManager)
      ensures Valid() && Contents() == [] && this.manager == manager && slices == [] && shm && cursor.None?
    {
      this.manager := manager;
      slices, cursor, len, shm, retired, recycled := [], None, 0, true, [], [];
    }

    /** Put unused slices behind the others. */
    method PushUnused(more: seq<Slice>)
      requires AllValid(slices) && (cursor.Some? ==> cursor.value < |slices|)
      requires UnusedFrom(slices, if cursor.Some? then cursor.value + 1 else 0) && UnusedFrom(more, 0)
      requires Own(slices + more, shm, manager.nextId)
      modifies this`slices
      ensures Shape() && Contents() == old(Contents()) && slices == old(slices) + more
    {
      hide Own;
      UnusedIsEmpty(more);
      UnreadAppend(slices, more);
      slices := slices + more;
    }

    /** A slice of the heap, for what shared memory cannot take. */
    method HeapSlice(size: nat) returns (s: Slice)
      modifies this`shm, manager
      ensures s.Unused() && |s.data| == HeapCap(size) && !s.shm && !shm && manager.asked == old(manager.asked)
      ensures s.id == old(manager.nextId) && manager.nextId == old(manager.nextId) + 1
    {
      s := manager.NewSlice(if size < DEFAULT_SLICE then DEFAULT_SLICE else size, false);
      shm := false;
    }

    /** Get room for `size` bytes: one slice, or several, or what is missing from the heap. */
    method Alloc(size: nat) returns (ghost more: seq<Slice>)
      requires Shape() && size < TWO_32
      modifies this`slices, this`shm, manager
      ensures Shape() && Contents() == old(Contents()) && slices == old(slices) + more && UnusedFrom(more, 0)
      ensures Caps(more) == Granted(manager.schedule, old(manager.asked), size)
      ensures manager.asked == AskedAfter(manager.schedule, old(manager.asked), size)
    {
      hide Own, Sum, TakeCaps, Unread, Caps, Granted;
      GrantedCases(manager.schedule, manager.asked, size);
      var one := manager.AllocOne(size);
      if one.Some? {
        OneCap(one.value);
        OwnMore(slices, [one.value], shm, shm, old(manager.nextId));
        PushUnused([one.value]);
        return [one.value];
      }
      var many, room := manager.AllocMany(size);
      if room >= size {
        OwnMore(slices, many, shm, shm, old(manager.nextId));
        PushUnused(many);
        return many;
      }
      var heap := HeapSlice(size - room);
      RoomOneMore(many, heap);
      OwnMore(slices, many + [heap], old(shm), shm, old(manager.nextId));
      PushUnused(many + [heap]);
      return many + [heap];
    }

    /** Write behind what the cursor's slice holds. */
    method WriteHere(chunk: seq<byte>)
      requires Shape() && cursor.Some? && slices[cursor.value].write + |chunk| <= |slices[cursor.value].data|
      modifies this`slices
      ensures Shape() && Contents() == old(Contents()) + chunk && |slices| == |old(slices)| && Ids(slices) == old(Ids(slices))
      ensures forall i | 0 <= i < |slices| && i != cursor.value :: slices[i] == old(slices)[i]
      ensures slices[cursor.value].write == old(slices)[cursor.value].write + |chunk|
      ensures |slices[cursor.value].data| == |old(slices)[cursor.value].data|
    {
      hide Own, Ids;
      var k := cursor.value;
      assert slices[k] in slices;
      WriteAt(slices, k, chunk);
      OwnSame(slices, slices[k := slices[k].Appended(chunk)], shm, manager.nextId);
      slices := slices[k := slices[k].Appended(chunk)];
    }

    /** Move the cursor on. What it leaves behind, used or not, is not written again. */
    method MoveTo(k: nat)
      requires Shape() && k < |slices| && (cursor.Some? ==> cursor.value <= k)
      modifies this`cursor
      ensures Shape() && cursor == Some(k)
    {
      hide Own;
      cursor := Some(k);
    }

    predicate Fits(k: nat, size: nat)
      requires k < |slices| && slices[k].Valid()
      reads this
    {
      slices[k].write + size <= |slices[k].data|
    }

    /** `reserve`, with the bytes the caller then puts there: contiguous room in the cursor's slice, in
        the next one, or in a new one. It adds exactly these bytes, but for two cases. A length is cut to
        32 bits when a slice is asked for, so from 4 GiB on the new slice can be too small, and then the
        length is counted and the bytes are not. And a buffer without slices panics when the length, cut
        to 32 bits, is nothing and no slice is free. */
    method Reserve(data: seq<byte>) returns (r: Outcome)
      requires Valid()
      modifies this, manager
      ensures Shape() && retired == old(retired) && recycled == old(recycled)
      ensures old(Ids(slices)) <= Ids(slices)
      ensures r.Done? ==> Valid() && Contents() == old(Contents()) + data
      ensures r.NoMoreBuffer? <==>
                Crowded(old(Ahead(|data|)), |data|) && CutShort(manager.schedule(old(NextAsk(|data|))), |data|)
      ensures r.NoMoreBuffer? ==> |data| >= TWO_32 && Contents() == old(Contents()) && len == old(len) + |data| && !Valid()
      ensures r.Panic? <==>
                && old(cursor).None? && old(slices) == []
                && |data| % TWO_32 == 0 && !Offers(manager.schedule(old(manager.asked)), 0)
      ensures r.Panic? ==> Contents() == old(Contents()) && len == old(len)
      // Too large for the cursor's slice and for the next, it goes behind all others, which stay as they are.
      ensures old(cursor).Some? && Crowded(old(Ahead(|data|)), |data|) ==>
                |slices| == |old(slices)| + 1 && slices[..|old(slices)|] == old(slices)
    {
      hide Unread, Ids, Own, Granted, Rooms, Offers;
      NothingAhead(|data|);
      var ok := StartWriting(|data|);
      if !ok { return Panic; }
      var k := cursor.value;
      FitsByRooms(k, |data|);
      if Fits(k, |data|) {
        ReserveIn(k, data);
        return Done;
      }
      if k + 1 < |slices| && Fits(k + 1, |data|) {
        ReserveIn(k + 1, data);
        return Done;
      }
      r := ReserveNew(data);
    }

    /** There is nothing ahead exactly when there is no slice and none is got. */
    lemma NothingAhead(size: nat)
      requires Shape()
      ensures Ahead(size) == [] <==>
                && cursor.None? && slices == [] && size % TWO_32 == 0 && !Offers(manager.schedule(manager.asked), 0)
    {
      hide Own;
      GrantedNothing(manager.schedule, manager.asked, size % TWO_32);
    }

    lemma FitsByRooms(k: nat, size: nat)
      requires Shape() && k < |slices|
      ensures slices[k].Valid() && (k + 1 < |slices| ==> slices[k + 1].Valid())
      ensures var rooms := RoomsFrom(slices, k);
              && |rooms| == |slices| - k && (Fits(k, size) <==> size <= rooms[0])
              && (k + 1 < |slices| ==> (Fits(k + 1, size) <==> size <= rooms[1]))
    {
      hide Own;
      assert slices[k] in slices && (k + 1 < |slices| ==> slices[k + 1] in slices);
    }

    /** Put `data` into slice `k`, which has room for it. */
    method ReserveIn(k: nat, data: seq<byte>)
      requires Valid() && k < |slices| && (cursor.Some? ==> cursor.value <= k) && slices[k].Valid() && Fits(k, |data|)
      modifies this`slices, this`cursor, this`len
      ensures Valid() && Contents() == old(Contents()) + data && Ids(slices) == old(Ids(slices))
      ensures |slices| == |old(slices)| && forall i | 0 <= i < |slices| && i != k :: slices[i] == old(slices)[i]
    {
      hide Unread, Own;
      MoveTo(k);
      WriteHere(data);
      len := len + |data|;
    }

    /** Put `data` into a new slice. What lies between is skipped and stays unused. */
    method ReserveNew(data: seq<byte>) returns (r: Outcome)
      requires Valid()
      modifies this`slices, this`cursor, this`len, this`shm, manager
      ensures Shape() && old(Ids(slices)) <= Ids(slices) && slices != []
      ensures r.NoMoreBuffer? <==> CutShort(manager.schedule(old(manager.asked)), |data|)
      ensures r.Done? || r.NoMoreBuffer?
      ensures r.Done? ==> Valid() && Contents() == old(Contents()) + data
      ensures r.NoMoreBuffer? ==> |data| >= TWO_32 && Contents() == old(Contents()) && len == old(len) + |data|
      ensures |slices| == |old(slices)| + 1 && slices[..|old(slices)|] == old(slices)
    {
      hide Unread, Own;
      var slice;
      var one := manager.AllocOne(|data| % TWO_32);
      if one.Some? { slice := one.value; } else { slice := HeapSlice(|data|); }
      OwnMore(slices, [slice], old(shm), shm, old(manager.nextId));
      PushUnused([slice]);
      if |data| > |slice.data| {
        MoveTo(|slices| - 1);
        len := len + |data|;
        return NoMoreBuffer;
      }
      ReserveIn(|slices| - 1, data);
      return Done;
    }

    /** Write what fits the cursor's slice. */
    method WriteSome(data: seq<byte>) returns (n: nat)
      requires Shape() && cursor.Some?
      modifies this`slices
      ensures Shape() && n <= |data| && Contents() == old(Contents()) + data[..n] && Ids(slices) == old(Ids(slices))
      ensures |slices| == |old(slices)| && (old(slices)[cursor.value].write < |old(slices)[cursor.value].data| && data != [] ==> n > 0)
      ensures n < |data| ==> slices[cursor.value].write == |slices[cursor.value].data|
      ensures Sum(RoomsFrom(slices, cursor.value)) == old(Sum(RoomsFrom(slices, cursor.value))) - n
    {
      hide Unread, Own, Sum, Rooms, RoomsFrom;
      var s := slices[cursor.value];
      assert s in slices;
      n := Min(|s.data| - s.write, |data|);
      WriteHere(data[..n]);
      RoomTaken(old(slices), slices, cursor.value, n);
    }

    /** Move the cursor from a full slice to the next, getting one if there is none. */
    method NextSlice(rest: nat) returns (ok: bool)
      requires Shape() && cursor.Some? && rest > 0 && slices[cursor.value].write == |slices[cursor.value].data|
      modifies this`slices, this`cursor, this`shm, manager
      ensures Shape() && cursor.Some? && Contents() == old(Contents()) && old(Ids(slices)) <= Ids(slices)
      ensures ok ==> slices[cursor.value].Unused()
      ensures if ok then Starves(manager.schedule, manager.asked, rest - Sum(RoomsFrom(slices, cursor.value)))
                      == old(Starves(manager.schedule, manager.asked, rest - Sum(RoomsFrom(slices, cursor.value))))
              else old(Starves(manager.schedule, manager.asked, rest - Sum(RoomsFrom(slices, cursor.value))))
    {
      hide Unread, Own, Granted, Sum;
      var k := cursor.value;
      FullRoom(slices, k);
      if k + 1 == |slices| {
        ghost var more := Alloc(rest % TWO_32);
        NewRooms(old(slices), more);
        if k + 1 == |slices| { return false; }
      }
      MoveTo(k + 1);
      return true;
    }

    /** The cursor stands on a slice, the front one if it stood nowhere. */
    method StartWriting(size: nat) returns (ok: bool)
      requires Shape()
      modifies this`slices, this`cursor, this`shm, manager
      ensures Shape() && Contents() == old(Contents()) && old(Ids(slices)) <= Ids(slices)
      ensures ok <==> cursor.Some?
      ensures ok <==> old(Ahead(size)) != []
      ensures ok ==> RoomsFrom(slices, cursor.value) == old(Ahead(size)) && manager.asked == old(NextAsk(size))
      ensures old(cursor).Some? ==> cursor == old(cursor) && slices == old(slices)
    {
      hide Unread, Own, Granted;
      if cursor.Some? {
        FitsByRooms(cursor.value, size);
        return true;
      }
      ghost var more := Alloc(size % TWO_32);
      AllUnusedRooms(old(slices), more);
      if slices == [] { return false; }
      MoveTo(0);
      return true;
    }

    /** Copy `data` in, slice by slice. Whatever slices it takes, the buffer grows by exactly these
        bytes. From 4 GiB on the length asked for is cut to 32 bits; when that leaves nothing to ask for
        and nothing is free, the source panics. */
    method WriteBytes(data: seq<byte>) returns (r: Outcome)
      requires Valid()
      modifies this, manager
      ensures Shape() && retired == old(retired) && recycled == old(recycled)
      ensures old(Ids(slices)) <= Ids(slices)
      ensures r.Done? ==> Valid() && Contents() == old(Contents()) + data
      ensures r.Done? || r.Panic?
      ensures r.Panic? <==>
                && data != []
                && (old(Ahead(|data|)) == []
                    || Starves(manager.schedule, old(NextAsk(|data|)), |data| - Sum(old(Ahead(|data|)))))
      ensures r.Panic? ==> |data| >= TWO_32
    {
      hide Unread, Ids, UnusedFrom, Own, Granted, Sum, Starves, Rooms, RoomsFrom;
      if data == [] { return Done; }
      PanicsLate(|data|);
      ghost var doomed := Starves(manager.schedule, NextAsk(|data|), |data| - Sum(Ahead(|data|)));
      var ok := StartWriting(|data|);
      if !ok { return Panic; }
      var n := 0;
      while true
        invariant Shape() && cursor.Some? && n <= |data| && len == old(len)
        invariant Contents() == old(Contents()) + data[..n]
        invariant retired == old(retired) && recycled == old(recycled) && old(Ids(slices)) <= Ids(slices)
        invariant Starves(manager.schedule, manager.asked, |data| - n - Sum(RoomsFrom(slices, cursor.value))) == doomed
        decreases |data| - n, if slices[cursor.value].write < |slices[cursor.value].data| then 0 else 1
      {
        var more := WriteSome(data[n..]);
        assert data[..n + more] == data[..n] + data[n..][..more];
        Associative(old(Contents()), data[..n], data[n..][..more]);
        n := n + more;
        if n == |data| { break; }
        ok := NextSlice(|data| - n);
        if !ok { return Panic; }
      }
      assert data[..n] == data;
      ghost var spare: int := Sum(RoomsFrom(slices, cursor.value));
      NothingStarves(manager.schedule, manager.asked, -spare);
      len := len + n;
      return Done;
    }

    lemma PanicsLate(size: nat)
      requires Shape() && size > 0
      ensures Ahead(size) == [] || Starves(manager.schedule, NextAsk(size), size - Sum(Ahead(size))) ==> size >= TWO_32
    {
      hide Own, Granted, Sum, Starves;
      NothingAhead(size);
      SmallRemainder(size);
      if Starves(manager.schedule, NextAsk(size), size - Sum(Ahead(size))) {
        StarvesLate(manager.schedule, NextAsk(size), size - Sum(Ahead(size)));
      }
    }

    /** `read_next_slice`: retire the front slice, with whatever it still holds. */
    method PopFront()
      requires Shape() && slices != []
      modifies this`slices, this`cursor, this`retired
      ensures Shape() && slices == old(slices)[1..] && Passed() == old(Passed())
      ensures slices == [] ==> cursor.None?
    {
      hide Own, Unread, Ids;
      OwnPart(slices, shm, manager.nextId, 1, |slices|);
      assert slices[1..|slices|] == slices[1..] && AllValid(slices[1..]);
      retired := retired + [slices[0].id];
      slices := slices[1..];
      cursor := if cursor == Some(0) || cursor.None? then None else Some(cursor.value - 1);
      FrontId(old(slices));
      Associative(old(retired), [old(slices)[0].id], Ids(slices));
    }

    /** Read `n` bytes off the front slice, which keeps its place. */
    method ReadFront(n: nat) returns (out: seq<byte>)
      requires Shape() && slices != [] && slices[0].Valid() && n <= slices[0].Size()
      modifies this`slices
      ensures Shape() && |out| == n && old(Contents()) == out + Contents() && Passed() == old(Passed())
      ensures |slices| == |old(slices)| && slices[1..] == old(slices)[1..]
      ensures slices[0] == old(slices)[0].Skipped(n) && out == old(slices)[0].Rest()[..n]
    {
      hide Own, Ids, Unread, UnusedFrom, AllValid;
      var rest := [slices[0].Skipped(n)] + slices[1..];
      FrontRead(slices, n);
      FrontUnused(slices, n, if cursor.Some? then cursor.value + 1 else 0);
      out := slices[0].Rest()[..n];
      OwnSame(slices, rest, shm, manager.nextId);
      slices := rest;
    }

    /** Retire the front slices that have nothing to read. */
    method SkipEmpty()
      requires Shape()
      modifies this`slices, this`cursor, this`retired
      ensures Shape() && slices == Lead(old(slices)) && Contents() == old(Contents()) && Passed() == old(Passed())
    {
      hide Own, Ids, UnusedFrom;
      while slices != [] && slices[0].write == slices[0].read
        invariant Shape() && Lead(slices) == Lead(old(slices)) && Contents() == old(Contents()) && Passed() == old(Passed())
        decreases |slices|
      {
        UnreadFront(slices);
        PopFront();
      }
      if slices != [] { UnreadFront(slices); }
    }

    /** Everything the first slice with something to read holds. Refused exactly when nothing is left. */
    method ReadChunk() returns (r: Result<seq<byte>, StreamError>)
      requires Valid()
      modifies this`slices, this`cursor, this`retired, this`len
      ensures Valid() && Passed() == old(Passed())
      ensures r.Ok? <==> old(Contents()) != []
      ensures r.Ok? ==> r.value != [] && old(Contents()) == r.value + Contents()
      ensures r.Err? ==> Contents() == old(Contents())
    {
      hide Own, Ids, UnusedFrom, Lead, Unread;
      NothingUnread();
      SkipEmpty();
      if slices == [] { return Err(NotEnoughData); }
      UnreadFront(slices);
      var out := ReadFront(slices[0].write - slices[0].read);
      len := len - |out|;
      return Ok(out);
    }

    /** The first `size` bytes: in place if the front slice holds them, put together otherwise. Refused
        exactly when there are fewer, and then nothing changes. */
    method ReadExact(size: nat) returns (r: Result<seq<byte>, StreamError>)
      requires Valid()
      modifies this`slices, this`cursor, this`retired, this`len
      ensures Valid() && Passed() == old(Passed())
      ensures r.Ok? <==> size <= |old(Contents())|
      ensures r.Ok? ==> |r.value| == size && old(Contents()) == r.value + Contents()
      ensures r.Err? ==> unchanged(this)
      ensures old(slices) != [] && old(slices)[0].Valid() && 0 < size <= old(slices)[0].Size() ==>
                |slices| == |old(slices)| && slices[0] == old(slices)[0].Skipped(size) && slices[1..] == old(slices)[1..]
    {
      hide Own, Ids, UnusedFrom, Unread;
      NothingUnread();
      if slices != [] { UnreadFront(slices); }
      if size == 0 { return Ok([]); }
      if len < size { return Err(NotEnoughData); }
      if slices != [] {
        if slices[0].write == slices[0].read { PopFront(); }
      }
      len := len - size;
      if slices != [] {
        UnreadFront(slices);
        if slices[0].write - slices[0].read >= size {
          var out := ReadFront(size);
          return Ok(out);
        }
      }
      var out := Collect(size);
      return Ok(out);
    }

    /** Read up to `want` bytes off the front slice, and retire it if they are not all there. */
    method TakeFront(want: nat) returns (out: seq<byte>)
      requires Shape() && slices != []
      modifies this`slices, this`cursor, this`retired
      ensures Shape() && Passed() == old(Passed()) && old(Contents()) == out + Contents() && |out| <= want
      ensures if |out| == want then |slices| == |old(slices)| else |slices| < |old(slices)|
    {
      hide UnusedFrom, Ids;
      UnreadFront(slices);
      var take := Min(slices[0].write - slices[0].read, want);
      out := ReadFront(take);
      if take != want {
        UnreadFront(slices);
        PopFront();
      }
    }

    /** The slow path: read on from slice to slice. */
    method Collect(size: nat) returns (out: seq<byte>)
      requires Shape() && size <= |Contents()|
      modifies this`slices, this`cursor, this`retired
      ensures Shape() && Passed() == old(Passed())
      ensures |out| == size && old(Contents()) == out + Contents()
    {
      hide Unread, UnusedFrom, Passed;
      NothingUnread();
      out := [];
      while |out| < size
        invariant Shape() && Passed() == old(Passed()) && |out| <= size && old(Contents()) == out + Contents()
        decreases |slices|, size - |out|
      {
        var more := TakeFront(size - |out|);
        Associative(out, more, Contents());
        out := out + more;
      }
    }

    /** The first `size` bytes without consuming them. */
    method Peek(size: nat) returns (r: Result<seq<byte>, StreamError>)
      requires Valid()
      ensures r.Ok? <==> size <= |Contents()|
      ensures r.Ok? ==> r.value == Contents()[..size]
    {
      if size == 0 { return Ok([]); }
      if len < size { return Err(NotEnoughData); }
      if slices != [] {
        UnreadFront(slices);
        if slices[0].write - slices[0].read >= size { return Ok(slices[0].data[slices[0].read..slices[0].read + size]); }
      }
      var out := PeekAcross(slices, size);
      return Ok(out);
    }

    /** Skip `size` bytes. With no slice left the source's loop goes round without an end; that happens
        exactly when nothing is to be skipped and there is no slice. */
    method Discard(size: nat) returns (r: Discarded)
      requires Valid()
      modifies this`slices, this`cursor, this`retired, this`len
      ensures Valid() && Passed() == old(Passed())
      ensures r.Spins? <==> size == 0 && old(slices) == []
      ensures r.Skipped? <==> size <= |old(Contents())| && !(size == 0 && old(slices) == [])
      ensures r.Skipped? ==> r.n == size && Contents() == old(Contents())[size..]
      ensures !r.Skipped? ==> unchanged(this)
    {
      hide Unread, UnusedFrom, Passed, Own;
      NothingUnread();
      if len < size { return Refused; }
      ghost var out := [];
      var n := 0;
      while true
        invariant Shape() && Passed() == old(Passed()) && len == old(len) && n <= size
        invariant |out| == n && old(Contents()) == out + Contents()
        invariant n == size ==> n == 0 && slices == old(slices) && cursor == old(cursor) && retired == old(retired)
        decreases |slices|
      {
        if slices == [] { return Spins; }
        var more := TakeFront(size - n);
        Associative(out, more, Contents());
        out := out + more;
        n := n + |more|;
        if n == size { break; }
      }
      len := len - n;
      return Skipped(n);
    }

    /** `read_available_into`: fill up to `n` bytes of the caller's buffer from at most `max` slices.
        Empty slices at the front are skipped; one behind a slice that was read is an error, and what
        was read before it is gone. So a refusal consumes nothing exactly when there is nothing, and it
        happens exactly then or when the read meets such a gap. */
    method ReadAvailable(n: nat, max: nat) returns (r: Result<nat, StreamError>, out: seq<byte>)
      requires Valid() && (n > 0 ==> max > 0)
      modifies this`slices, this`cursor, this`retired, this`len
      ensures Valid() && Passed() == old(Passed()) && old(Contents()) == out + Contents()
      ensures r.Err? <==> n > 0 && (old(Contents()) == [] || MeetsGap(Lead(old(slices)), n, max))
      ensures r.Err? ==> (out == [] <==> old(Contents()) == [])
      ensures r.Ok? ==> r.value == |out|
      ensures out <= Span(Lead(old(slices)), max) && |out| == Min(n, |Span(Lead(old(slices)), max)|)
    {
      out := [];
      if n == 0 { return Ok(0), []; }
      if len == 0 {
        LeadOfNothing(slices);
        return Err(NotEnoughData), [];
      }
      SkipEmpty();
      r, out := ReadRun(n, max);
    }

    /** One slice of a bounded read. A slice read to its end is retired while there is more. */
    method ReadSlice(want: nat, max: nat) returns (more: seq<byte>, whole: bool)
      requires Valid() && want > 0 && max > 0 && slices != [] && slices[0].Valid() && slices[0].Size() > 0
      modifies this`slices, this`cursor, this`retired, this`len
      ensures Valid() && Passed() == old(Passed()) && old(Contents()) == more + Contents() && 0 < |more| <= want
      ensures !whole ==> |more| == want && more <= Span(old(slices), max) && !MeetsGap(old(slices), want, max)
      ensures whole ==> more + Span(slices, max - 1) == Span(old(slices), max)
      ensures whole ==> (MeetsGap(slices, want - |more|, max - 1) <==> MeetsGap(old(slices), want, max))
    {
      hide Own, Ids, UnusedFrom;
      UnreadFront(slices);
      ghost var before := slices;
      var unread := slices[0].write - slices[0].read;
      var take := Min(unread, want);
      SpanStep(slices, take, max, []);
      more := ReadFront(take);
      assert [] + more == more && [] + Span(before, max) == Span(before, max);
      len := len - take;
      whole := take == unread;
      if !whole { return; }
      UnreadFront(slices);
      if len > 0 {
        PopFront();
      } else {
        SpanOfNothing(slices, max - 1);
        SpanOfNothing(before[1..], max - 1);
      }
    }

    /** The loop of `read_available_into`. */
    method ReadRun(n: nat, max: nat) returns (r: Result<nat, StreamError>, out: seq<byte>)
      requires Valid() && n > 0 && max > 0 && Contents() != [] && slices[0].Valid() && slices[0].Size() > 0
      modifies this`slices, this`cursor, this`retired, this`len
      ensures Valid() && Passed() == old(Passed()) && old(Contents()) == out + Contents()
      ensures r.Err? <==> MeetsGap(old(slices), n, max)
      ensures out != [] && (r.Ok? ==> r.value == |out|)
      ensures out <= Span(old(slices), max) && |out| == Min(n, |Span(old(slices), max)|)
    {
      hide Unread, Span, MeetsGap, Own, Passed;
      out := [];
      var read := 0;
      while len > 0 && |out| < n && read < max
        invariant Valid() && Passed() == old(Passed()) && old(Contents()) == out + Contents()
        invariant |out| <= n && read <= max && (out == [] ==> slices == old(slices) && read == 0)
        invariant out + Span(slices, max - read) == Span(old(slices), max)
        invariant MeetsGap(slices, n - |out|, max - read) <==> MeetsGap(old(slices), n, max)
        decreases max - read
      {
        SomethingThere(slices);
        if slices[0].write == slices[0].read {
          GapHere(slices, n - |out|, max - read);
          return Err(NotEnoughData), out;
        }
        ghost var before := slices;
        var more, whole := ReadSlice(n - |out|, max - read);
        Associative(out, more, Contents());
        out := out + more;
        if !whole { return Ok(|out|), out; }
        read := read + 1;
        Associative(out[..|out| - |more|], more, Span(slices, max - read));
      }
      NoGapLeft(slices, n - |out|, max - read);
      return Ok(|out|), out;
    }

    /** A slice that came from the peer goes behind the others, and the cursor to it. The peer got it from
        the same free lists, and this buffer does not have it. */
    method Append(s: Slice)
      requires Valid() && s.Valid() && s.id < manager.nextId && s.id !in Ids(slices)
      modifies this`slices, this`cursor, this`len, this`shm
      ensures Valid() && Contents() == old(Contents()) + s.Rest()
      ensures slices == old(slices) + [s] && cursor == Some(|slices| - 1) && shm == (old(shm) && s.shm)
    {
      hide Own;
      UnreadFront([s]);
      UnreadAppend(slices, [s]);
      OwnOneMore(slices, s, shm, manager.nextId);
      if !s.shm { shm := false; }
      len := len + s.write - s.read;
      slices := slices + [s];
      cursor := Some(|slices| - 1);
    }

    /** A front slice that is spent and is the one being written goes. */
    method ReleasePreviousRead()
      requires Valid()
      modifies this`slices, this`cursor, this`retired
      ensures Valid() && Contents() == old(Contents()) && Passed() == old(Passed())
    {
      if slices == [] { return; }
      UnreadFront(slices);
      if slices[0].write == slices[0].read && cursor == Some(0) { PopFront(); }
    }

    /** Make the only slice of an empty buffer ready to be written again, unless somebody still reads it
        (`pinned`) or it is not shared. */
    method ReleaseAndReserve(pinned: bool)
      requires Valid()
      modifies this`slices, this`cursor, this`retired
      ensures Valid() && Contents() == old(Contents()) && Passed() == old(Passed())
      ensures |old(Contents())| == 0 && |old(slices)| == 1 && |old(slices)[0].data| > 0 ==>
                if pinned || !old(slices)[0].shm then slices == [] && cursor.None? else |slices| == 1 && slices[0].Unused()
    {
      if len != 0 || |slices| != 1 { return; }
      UnreadFront(slices);
      if pinned || !slices[0].shm {
        PopFront();
        return;
      }
      OwnSame(slices, [slices[0].(start := 0, read := 0, write := 0, seal := None)], shm, manager.nextId);
      slices := [slices[0].(start := 0, read := 0, write := 0, seal := None)];
      UnreadFront(slices);
      assert Ids(slices) == Ids(old(slices));
    }

    /** Retire everything. */
    method Recycle()
      requires Shape()
      modifies this
      ensures Valid() && slices == [] && shm && Passed() == old(Passed())
    {
      while slices != []
        invariant Shape() && Passed() == old(Passed())
        decreases |slices|
      {
        PopFront();
      }
      cursor, shm, len := None, true, 0;
    }

    /** What the peer is told: where the message starts. */
    function Root(): Option<nat>
      reads this
    {
      FirstId(slices)
    }

    /** Seal the message for the peer. Exactly the slices behind the cursor are given back, and every
        one of them is unused; the others are stamped and linked in order. The peer, who goes from the
        root by the stamps alone, sees what each slice holds from its start on, and that is the contents
        if nothing has been read. A message with a part on the heap is left alone. */
    method Finish()
      requires Valid()
      modifies this`slices, this`recycled
      ensures Valid() && Contents() == old(Contents())
      ensures !shm ==> unchanged(this)
      ensures shm ==>
                var kept := if cursor.Some? then cursor.value + 1 else |old(slices)|;
                && UnusedFrom(old(slices), kept) && recycled == old(recycled) + Ids(old(slices))[kept..]
                && |slices| == kept && Sealed(slices)
                && forall i | 0 <= i < kept :: slices[i] == old(slices)[i].(seal := slices[i].seal)
      ensures shm ==> PeerBytes(SharedMemory(slices), Root()) == Shown(slices)
      ensures shm && (forall s <- old(slices) :: s.read == s.start) ==> PeerBytes(SharedMemory(slices), Root()) == old(Contents())
    {
      hide Unread, Sealed, Own, Shown, PeerBytes, SharedMemory, Ids, UnusedFrom;
      if !shm { return; }
      var kept := if cursor.Some? then cursor.value + 1 else |slices|;
      NoneBehind(slices);
      recycled := recycled + Ids(slices)[kept..];
      SealFront(kept);
      PeerReads();
      if forall s <- old(slices) :: s.read == s.start {
        assert forall i | 0 <= i < kept :: old(slices)[i] in old(slices);
      }
    }

    /** Keep the first `kept` slices, and stamp them. */
    method SealFront(kept: nat)
      requires Valid() && kept <= |slices| && UnusedFrom(slices, kept)
      requires kept == if cursor.Some? then cursor.value + 1 else |slices|
      modifies this`slices
      ensures Valid() && Contents() == old(Contents()) && |slices| == kept && Sealed(slices)
      ensures forall i | 0 <= i < kept :: slices[i] == old(slices)[i].(seal := slices[i].seal)
    {
      hide Unread, Sealed, Own, Ids, UnusedFrom;
      SplitUnread(slices, kept);
      OwnPart(slices, shm, manager.nextId, 0, kept);
      var front := slices[..kept];
      assert slices[0..kept] == front;
      slices := StampAll(front);
      OwnSame(front, slices, shm, manager.nextId);
      StampedUnused(old(slices), slices, if cursor.Some? then cursor.value + 1 else 0);
    }

    /** What the peer reads of a sealed buffer. */
    lemma PeerReads()
      requires Shape() && shm && Sealed(slices)
      ensures PeerBytes(SharedMemory(slices), Root()) == Shown(slices)
      ensures (forall i | 0 <= i < |slices| :: slices[i].read == slices[i].start) ==> Shown(slices) == Contents()
    {
      hide Unread, Sealed, Own, Shown, PeerBytes, SharedMemory;
      PeerSees(slices, shm, manager.nextId);
      if forall i | 0 <= i < |slices| :: slices[i].read == slices[i].start { ShownIsUnread(slices); }
    }
  }

  /** Stamps do not make a slice used. */
  lemma StampedUnused(slices: seq<Slice>, front: seq<Slice>, from: nat)
    requires UnusedFrom(slices, from) && |front| <= |slices|
    requires forall i | 0 <= i < |front| :: front[i] == slices[i].(seal := front[i].seal)
    ensures UnusedFrom(front, from)
  {
  }

  lemma NoneBehind(slices: seq<Slice>)
    ensures UnusedFrom(slices, |slices|)
  {
  }

  /** Bring every header up to date. */
  method StampAll(slices: seq<Slice>) returns (r: seq<Slice>)
    requires AllValid(slices)
    ensures |r| == |slices| && Sealed(r) && AllValid(r) && Unread(r) == Unread(slices)
    ensures forall i | 0 <= i < |r| :: r[i] == slices[i].(seal := r[i].seal)
  {
    hide Unread;
    r := slices;
    for k := 0 to |slices|
      invariant |r| == |slices| && forall i | k <= i < |r| :: r[i] == slices[i]
      invariant forall i | 0 <= i < k :: slices[i].Valid() && r[i] == Stamped(slices, i)
    {
      assert slices[k] in slices;
      r := r[k := Stamped(r, k)];
    }
    StampsSeal(slices, r);
    StampsKeep(slices, r);
  }

  lemma StampsSeal(slices: seq<Slice>, r: seq<Slice>)
    requires |r| == |slices| && forall i | 0 <= i < |slices| :: slices[i].Valid() && r[i] == Stamped(slices, i)
    ensures Sealed(r) && forall i | 0 <= i < |r| :: r[i] == slices[i].(seal := r[i].seal)
  {
    forall i | 0 <= i < |r| && r[i].shm ensures r[i].Valid() && r[i] == Stamped(r, i) {
      assert slices[i].Valid() && r[i] == Stamped(slices, i);
      if i + 1 < |r| { assert slices[i + 1].Valid() && r[i + 1] == Stamped(slices, i + 1); }
    }
  }

  /** Slice `i` with its header brought up to date. */
  function Stamped(slices: seq<Slice>, i: nat): Slice
    requires i < |slices| && slices[i].Valid()
  {
    var s := slices[i];
    if !s.shm then s
    else s.(seal := Some(Seal(s.start, s.Size(), if i + 1 < |slices| then Some(slices[i + 1].id) else None)))
  }

  /** Every shared slice says how much it holds, from where, and which slice is next. */
  predicate Sealed(slices: seq<Slice>) {
    forall i | 0 <= i < |slices| && slices[i].shm :: slices[i].Valid() && slices[i] == Stamped(slices, i)
  }

  /** A slice as shared memory has it: the bytes and the stamp. */
  datatype Block = Block(data: seq<byte>, seal: Option<Seal>)

  function SharedMemory(slices: seq<Slice>): map<nat, Block> {
    if slices == [] then map[] else SharedMemory(slices[1..])[slices[0].id := Block(slices[0].data, slices[0].seal)]
  }

  /** What the peer reads, going from block to block by the stamps alone. */
  function PeerBytes(mem: map<nat, Block>, at: Option<nat>): seq<byte>
    decreases mem.Keys
  {
    if at.None? || at.value !in mem || mem[at.value].seal.None? then []
    else
      var b, seal := mem[at.value], mem[at.value].seal.value;
      (if seal.start + seal.size <= |b.data| then b.data[seal.start..seal.start + seal.size] else [])
      + PeerBytes(mem - {at.value}, seal.next)
  }

  /** Where a list starts. */
  function FirstId(slices: seq<Slice>): Option<nat> { if slices == [] then None else Some(slices[0].id) }

  /** What each slice holds from its start on, as many bytes as it has to read. */
  function Shown(slices: seq<Slice>): seq<byte> {
    if slices == [] then []
    else
      var s := slices[0];
      (if s.Valid() then s.data[s.start..s.start + s.Size()] else []) + Shown(slices[1..])
  }

  lemma {:induction false} SharedKeys(slices: seq<Slice>, id: nat)
    ensures id in SharedMemory(slices) <==> id in Ids(slices)
  {
    if slices != [] {
      SharedKeys(slices[1..], id);
      assert Ids(slices) == [slices[0].id] + Ids(slices[1..]);
    }
  }

  /** Without the front slice, shared memory has the others. */
  lemma SharedRest(slices: seq<Slice>)
    requires Distinct(Ids(slices)) && slices != []
    ensures slices[0].id in SharedMemory(slices)
    ensures SharedMemory(slices)[slices[0].id] == Block(slices[0].data, slices[0].seal)
    ensures SharedMemory(slices) - {slices[0].id} == SharedMemory(slices[1..]) && Distinct(Ids(slices[1..]))
  {
    var rest := slices[1..];
    assert Ids(slices) == [slices[0].id] + Ids(rest);
    assert Ids(slices)[1..] == Ids(rest);
    FrontIsOnly(Ids(slices));
    SharedKeys(rest, slices[0].id);
    assert SharedMemory(slices) - {slices[0].id} == SharedMemory(rest);
  }

  /** The links of a sealed list lead through it, and the stamps show what it holds. */
  lemma {:induction false} PeerSees(slices: seq<Slice>, shm: bool, next: nat)
    requires AllValid(slices) && Sealed(slices) && shm && Own(slices, shm, next)
    ensures PeerBytes(SharedMemory(slices), FirstId(slices)) == Shown(slices)
    decreases |slices|
  {
    if slices == [] {
      NothingThere(SharedMemory([]));
    } else {
      hide Sealed, Own, SharedMemory, PeerBytes, Distinct, Ids, Shown;
      UnreadFront(slices);
      ShownFront(slices);
      OwnFacts(slices, shm, next);
      OwnPart(slices, shm, next, 1, |slices|);
      assert slices[1..|slices|] == slices[1..];
      SharedRest(slices);
      SealedRest(slices);
      PeerStep(SharedMemory(slices), slices[0].id);
      PeerSees(slices[1..], shm, next);
    }
  }

  lemma ShownFront(slices: seq<Slice>)
    requires slices != [] && slices[0].Valid()
    ensures Shown(slices) == slices[0].data[slices[0].start..slices[0].start + slices[0].Size()] + Shown(slices[1..])
  {
  }

  lemma PeerStep(mem: map<nat, Block>, at: nat)
    requires at in mem && mem[at].seal.Some? && mem[at].seal.value.start + mem[at].seal.value.size <= |mem[at].data|
    ensures var seal := mem[at].seal.value;
            PeerBytes(mem, Some(at)) == mem[at].data[seal.start..seal.start + seal.size] + PeerBytes(mem - {at}, seal.next)
  {
  }

  lemma NothingThere(mem: map<nat, Block>)
    ensures PeerBytes(mem, None) == []
  {
  }

  lemma OwnFacts(slices: seq<Slice>, shm: bool, next: nat)
    requires Own(slices, shm, next) && slices != []
    ensures Distinct(Ids(slices)) && (shm ==> slices[0].shm)
  {
    assert slices[0] in slices;
  }

  lemma {:induction false} ShownIsUnread(slices: seq<Slice>)
    requires AllValid(slices) && forall i | 0 <= i < |slices| :: slices[i].read == slices[i].start
    ensures Shown(slices) == Unread(slices)
  {
    if slices != [] {
      UnreadFront(slices);
      ShownIsUnread(slices[1..]);
    }
  }

  lemma SealedRest(slices: seq<Slice>)
    requires Sealed(slices) && slices != [] && slices[0].shm
    ensures Sealed(slices[1..]) && slices[0].Valid()
    ensures slices[0].seal == Some(Seal(slices[0].start, slices[0].Size(), FirstId(slices[1..])))
  {
    var rest := slices[1..];
    forall i | 0 <= i < |rest| && rest[i].shm ensures rest[i].Valid() && rest[i] == Stamped(rest, i) {
      assert slices[i + 1] == Stamped(slices, i + 1);
    }
  }

  lemma {:induction false} StampsKeep(a: seq<Slice>, b: seq<Slice>)
    requires AllValid(a) && |a| == |b| && forall i | 0 <= i < |a| :: b[i] == a[i].(seal := b[i].seal)
    ensures AllValid(b) && Unread(b) == Unread(a)
  {
    if a != [] {
      UnreadFront(a);
      StampsKeep(a[1..], b[1..]);
    }
  }

  /** What is not used holds nothing. */
  lemma SplitUnread(slices: seq<Slice>, k: nat)
    requires AllValid(slices) && k <= |slices| && UnusedFrom(slices, k)
    ensures AllValid(slices[..k]) && Unread(slices[..k]) == Unread(slices)
  {
    assert slices == slices[..k] + slices[k..] && UnusedFrom(slices[k..], 0);
    UnusedIsEmpty(slices[k..]);
    UnreadAppend(slices[..k], slices[k..]);
  }

  lemma GapBehindOne(slices: seq<Slice>)
    requires AllValid(slices) && |slices| >= 2 && slices[0].Valid() && slices[0].Rest() == [7] && slices[1].Unused()
    requires |Unread(slices)| > 1
    ensures Lead(slices) == slices && MeetsGap(slices, 16, 64) && Span(slices, 64) == [7]
  {
    UnreadFront(slices);
    UnreadFront(slices[1..]);
    assert slices[0].Size() == |slices[0].Rest()| && MeetsGap(slices[1..], 15, 63) && Span(slices[1..], 63) == [];
  }

  /** A buffer with one full slice that came from the peer, over free lists that offer slices of four
      bytes. */
  method FromPeer(data: seq<byte>) returns (b: LinkedBuffer, s: Slice)
    requires data != []
    ensures fresh(b) && fresh(b.manager) && b.Valid() && b.Contents() == data && b.shm
    ensures b.slices == [s] && b.cursor == Some(0) && b.manager.schedule == (_ => One(4))
    ensures s.Valid() && s.start == s.read == 0 && s.Rest() == s.data == data
  {
    hide Unread;
    var manager := new SliceManager(_ => One(4));
    b := new LinkedBuffer(manager);
    var blank := manager.NewSlice(|data|, true);
    s := blank.Appended(data);
    b.Append(s);
    assert [] + [s] == [s] && s.data == data && s.Rest() == data;
  }

  /** A run that ends in such a gap: a slice of one byte, an unused slice that is too small for the next
      reservation, and the slice of that reservation. The read is refused, and the first byte is gone. */
  method RefusedAfterReading() returns (r: Result<nat, StreamError>, out: seq<byte>, left: nat)
    ensures r.Err? && out == [7] && left == 5
  {
    hide Lead, MeetsGap, Span, Unread, Own;
    var b, one := FromPeer([7]);
    ghost var more := b.Alloc(4);
    ghost var before := b.slices;
    assert |more| == |Caps(more)| == 1 && Caps(more)[0] == 4;
    b.FitsByRooms(0, 5);
    assert b.slices[1] == more[0];
    b.FitsByRooms(1, 5);
    var done := b.Reserve([1, 2, 3, 4, 5]);
    assert b.slices[0] == before[0] && b.slices[1] == before[1];
    GapBehindOne(b.slices);
    r, out := b.ReadAvailable(16, 64);
    left := b.len;
  }

  /** A slice of two bytes is sealed after the first has been read: the stamp gives its start and the one
      byte left, so the peer sees the byte that was read. */
  method SealedAfterReading() returns (b: LinkedBuffer)
    ensures b.Valid() && b.shm && b.Contents() == [8] && PeerBytes(SharedMemory(b.slices), b.Root()) == [7]
  {
    var two;
    b, two := FromPeer([7, 8]);
    var out := b.ReadExact(1);
    hide Own, PeerBytes, SharedMemory, Sealed;
    assert b.slices == [two.Skipped(1)];
    UnreadFront(b.slices);
    b.Finish();
    assert b.slices == [two.Skipped(1).(seal := b.slices[0].seal)];
    assert Shown(b.slices[1..]) == [] && b.slices[0].data[0..1] == [7];
  }

  /** A reservation of 4 GiB: the free lists are asked for nothing, offer a slice of four bytes, and it is
      too small. The length is counted and the bytes are not there. */
  method LostReservation() returns (b: LinkedBuffer, r: Outcome)
    ensures r.NoMoreBuffer? && !b.Valid() && b.Shape() && b.len == TWO_32 + 1 && b.Contents() == [7]
  {
    hide Unread, Own;
    var one;
    b, one := FromPeer([7]);
    b.FitsByRooms(0, TWO_32);
    r := b.Reserve(seq(TWO_32, _ => 0));
  }

  /** A reservation of nothing in an empty buffer, with nothing free. */
  method PanickingReservation() returns (r: Outcome)
    ensures r.Panic?
  {
    var manager := new SliceManager(_ => Several([]));
    var b := new LinkedBuffer(manager);
    r := b.Reserve([]);
  }

  /** A write of 4 GiB to an empty buffer, with nothing free. */
  method PanickingWrite() returns (r: Outcome)
    ensures r.Panic?
  {
    var manager := new SliceManager(_ => Several([]));
    var b := new LinkedBuffer(manager);
    b.NothingAhead(TWO_32);
    r := b.WriteBytes(seq(TWO_32, _ => 0));
  }

  lemma SomethingThere(slices: seq<Slice>)
    requires AllValid(slices) && Unread(slices) != []
    ensures slices != [] && slices[0].Valid()
  {
    assert slices[0] in slices;
  }

  lemma GapHere(slices: seq<Slice>, n: nat, max: nat)
    requires AllValid(slices) && Unread(slices) != [] && slices[0].Valid() && slices[0].Size() == 0 && n > 0 && max > 0
    ensures MeetsGap(slices, n, max) && Span(slices, max) == []
  {
  }

  lemma NoGapLeft(slices: seq<Slice>, n: nat, max: nat)
    requires AllValid(slices) && (Unread(slices) == [] || n == 0 || max == 0)
    ensures !MeetsGap(slices, n, max) && (n > 0 ==> Span(slices, max) == [])
  {
    if Unread(slices) == [] { SpanOfNothing(slices, max); }
  }
}
