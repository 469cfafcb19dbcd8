/** The shared ring of src/v5/mpsc.rs together with the wakeup protocol of src/v5/queue.rs and
    src/session/mod.rs, as one state machine.

    Every atomic load, store or compare-exchange is one step of a sequentially consistent
    interleaving: any number of producers run `try_push` and then claim the consumer's wakeup,
    and one consumer drains. A run is a sequence of step labels; `Exec` says where it ends.

    `claims` and `popped` are history: the values in the order their positions were claimed,
    and the values `try_pop` has returned.
  */
module Ring {
  import opened Wrappers

  /** 2^64: positions are `u64` in the source, and the room test subtracts them with wrap-around. */
  const WORD: nat := 0x1_0000_0000_0000_0000
  /** Turns are `generation << 1`, so a claim past 2^63 would overflow one; no run claims that far. */
  const POSITION_LIMIT: nat := 0x8000_0000_0000_0000

  function WrappingSub(a: nat, b: nat): int {
    if a >= b then a - b else a + WORD - b
  }

  /** The slot index of a position, `position & mask` with `mask == cap - 1`; `GeometryIsDivMod`
      ties this and `Lap` to remainder and quotient. */
  function Slot(cap: nat, position: nat): (i: nat)
    requires cap > 0
    ensures i < cap
    decreases position
  {
    if position < cap then position else Slot(cap, position - cap)
  }

  /** The lap of a position, `position >> cap_shift`. */
  function Lap(cap: nat, position: nat): nat
    requires cap > 0
    decreases position
  {
    if position < cap then 0 else 1 + Lap(cap, position - cap)
  }

  /** Where one producer stands in `try_push` and in the wakeup claim that follows it. */
  datatype Producer<V> =
    | Idle
    | Loaded(value: V, seen: nat)                // `tail` loaded, room not tested yet
    | NeedHead(value: V, seen: nat)              // looked full against the cached head
    | HaveHead(value: V, seen: nat, read: nat)   // `head` loaded, cache not stored yet
    | Checked(value: V, seen: nat)               // room found, about to compare-exchange `tail`
    | Claimed(value: V, position: nat)           // owns `position`, waiting for its turn
    | Writable(value: V, position: nat)          // saw the writable turn
    | Written(value: V, position: nat)           // payload stored, turn not yet
    | Published                                  // `try_push` returned true, wakeup not claimed yet
    | Refused                                    // `try_push` returned false
    | Winner                                     // won the flag, has to send the wakeup
  {
    predicate OwnsSlot() { Claimed? || Writable? || Written? }
  }

  /** Where the consumer stands in a drain. `barrier` is `wait_for_claimed`. */
  datatype Consumer<V> =
    | Asleep
    | PopStart(barrier: bool)
    | PopTurn(barrier: bool, at: nat)
    | PopTail(barrier: bool, at: nat)
    | PopRead(barrier: bool, at: nat)
    | PopFree(barrier: bool, at: nat, value: V)
    | PopHead(barrier: bool, at: nat, value: V)
    | ClearFlag(barrier: bool)
    | PeekHead(barrier: bool)
    | PeekTurn(barrier: bool, at: nat)
    | SetFlag(barrier: bool)

  datatype State<V> = State(
    cap: nat,
    head: nat,
    tail: nat,
    headCache: nat,
    turns: seq<nat>,
    slots: seq<V>,
    producers: map<nat, Producer<V>>,
    consumer: Consumer<V>,
    working: bool,
    inFlight: nat,        // wakeups sent and not yet received
    waiting: nat,         // wakeups received whose drain has not taken the queue lock yet
    claims: seq<V>,
    popped: seq<V>
  )

  datatype Step<V> =
    | LoadTail(p: nat, value: V)
    | TestRoom(p: nat)
    | LoadHead(p: nat)
    | StoreCache(p: nat)
    | CasTail(p: nat, spurious: bool)
    | LoadTurn(p: nat)
    | StorePayload(p: nat)
    | StoreTurn(p: nat)
    | ClaimConsumer(p: nat)
    | GiveUp(p: nat)
    | SendWakeup(p: nat)
    | ReceiveWakeup(all: bool)       // an eventfd read takes every wakeup, a socket event one
    | StartDrain
    | StartUnprompted(barrier: bool) // a barrier drain, or a drain nobody asked for
    | Consume                        // the consumer's next step

  /** A zeroed mapping: every turn is lap zero's writable one. */
  ghost predicate Init<V>(s: State<V>) {
    && 0 < s.cap <= POSITION_LIMIT
    && s.head == s.tail == s.headCache == 0
    && s.turns == seq(s.cap, _ => 0)
    && |s.slots| == s.cap
    && (forall p <- s.producers :: s.producers[p].Idle?)
    && s.consumer.Asleep?
    && !s.working && s.inFlight == s.waiting == 0
    && s.claims == s.popped == []
  }

  predicate Enabled<V>(s: State<V>, step: Step<V>)
    requires Shaped(s)
  {
    match step
    case LoadTail(p, _) => p in s.producers && s.producers[p].Idle?
    case TestRoom(p) => p in s.producers && s.producers[p].Loaded?
    case LoadHead(p) => p in s.producers && s.producers[p].NeedHead?
    case StoreCache(p) => p in s.producers && s.producers[p].HaveHead?
    case CasTail(p, _) => p in s.producers && s.producers[p].Checked? && s.tail + 1 < POSITION_LIMIT
    case LoadTurn(p) => p in s.producers && s.producers[p].Claimed?
    case StorePayload(p) => p in s.producers && s.producers[p].Writable?
    case StoreTurn(p) => p in s.producers && s.producers[p].Written?
    case ClaimConsumer(p) => p in s.producers && (s.producers[p].Published? || s.producers[p].Refused?)
    case GiveUp(p) => p in s.producers && s.producers[p].Refused?
    case SendWakeup(p) => p in s.producers && s.producers[p].Winner?
    case ReceiveWakeup(_) => s.inFlight > 0
    case StartDrain => s.consumer.Asleep? && s.waiting > 0
    case StartUnprompted(_) => s.consumer.Asleep?
    case Consume => !s.consumer.Asleep?
  }

  predicate Shaped<V>(s: State<V>) {
    s.cap > 0 && |s.turns| == |s.slots| == s.cap
  }

  function Put<V>(s: State<V>, p: nat, state: Producer<V>): State<V> {
    s.(producers := s.producers[p := state])
  }

  function Apply<V>(s: State<V>, step: Step<V>): (s': State<V>)
    requires Shaped(s) && Enabled(s, step)
    ensures Shaped(s') && s'.cap == s.cap && s'.producers.Keys == s.producers.Keys
  {
    match step
    case LoadTail(p, v) => Put(s, p, Loaded(v, s.tail))
    case TestRoom(p) =>
      var me := s.producers[p];
      if WrappingSub(me.seen, s.headCache) > s.cap - 1
      then Put(s, p, NeedHead(me.value, me.seen))
      else Put(s, p, Checked(me.value, me.seen))
    case LoadHead(p) =>
      Put(s, p, HaveHead(s.producers[p].value, s.producers[p].seen, s.head))
    case StoreCache(p) =>
      var me := s.producers[p];
      var next := if WrappingSub(me.seen, me.read) > s.cap - 1 then Refused else Checked(me.value, me.seen);
      Put(s, p, next).(headCache := me.read)
    case CasTail(p, spurious) =>
      var me := s.producers[p];
      if s.tail == me.seen && !spurious
      then Put(s, p, Claimed(me.value, me.seen)).(tail := s.tail + 1, claims := s.claims + [me.value])
      else Put(s, p, Loaded(me.value, s.tail))
    case LoadTurn(p) =>
      var me := s.producers[p];
      if s.turns[Slot(s.cap, me.position)] == 2 * Lap(s.cap, me.position)
      then Put(s, p, Writable(me.value, me.position))
      else s
    case StorePayload(p) =>
      var me := s.producers[p];
      Put(s, p, Written(me.value, me.position)).(slots := s.slots[Slot(s.cap, me.position) := me.value])
    case StoreTurn(p) =>
      var me := s.producers[p];
      Put(s, p, Published).(turns := s.turns[Slot(s.cap, me.position) := 2 * Lap(s.cap, me.position) + 1])
    case ClaimConsumer(p) =>
      if s.working then Put(s, p, Idle) else Put(s, p, Winner).(working := true)
    case GiveUp(p) => Put(s, p, Idle)
    case SendWakeup(p) => Put(s, p, Idle).(inFlight := s.inFlight + 1)
    case ReceiveWakeup(all) =>
      s.(inFlight := if all then 0 else s.inFlight - 1, waiting := s.waiting + 1)
    case StartDrain => s.(waiting := s.waiting - 1, consumer := PopStart(false))
    case StartUnprompted(barrier) => s.(consumer := PopStart(barrier))
    case Consume => Drain(s)
  }

  /** One step of `drain_recv_queue_v5_locked` with `try_pop` and `mark_not_working` inlined. */
  function Drain<V>(s: State<V>): (s': State<V>)
    requires Shaped(s) && !s.consumer.Asleep?
    ensures Shaped(s') && s'.cap == s.cap && s'.producers == s.producers
  {
    match s.consumer
    case PopStart(b) => s.(consumer := PopTurn(b, s.head))
    case PopTurn(b, h) =>
      if s.turns[Slot(s.cap, h)] == 2 * Lap(s.cap, h) + 1
      then s.(consumer := PopRead(b, h))
      else s.(consumer := PopTail(b, h))
    case PopTail(b, h) =>
      // Empty ends the inner loop; a claimed head ends it too unless this is a barrier.
      if h == s.tail || !b then s.(consumer := ClearFlag(b)) else s.(consumer := PopStart(b))
    case PopRead(b, h) => s.(consumer := PopFree(b, h, s.slots[Slot(s.cap, h)]))
    case PopFree(b, h, v) =>
      s.(consumer := PopHead(b, h, v), turns := s.turns[Slot(s.cap, h) := 2 * (Lap(s.cap, h) + 1)])
    case PopHead(b, h, v) => s.(consumer := PopStart(b), head := h + 1, popped := s.popped + [v])
    case ClearFlag(b) => s.(consumer := PeekHead(b), working := false)
    case PeekHead(b) => s.(consumer := PeekTurn(b, s.head))
    case PeekTurn(b, h) =>
      if s.turns[Slot(s.cap, h)] == 2 * Lap(s.cap, h) + 1
      then s.(consumer := SetFlag(b))
      else s.(consumer := Asleep)
    case SetFlag(b) => s.(consumer := PopStart(b), working := true)
  }

  /** The state a run of steps ends in, or `None` when one of them was not enabled. */
  function Exec<V>(s: State<V>, steps: seq<Step<V>>): (r: Option<State<V>>)
    requires Shaped(s)
    ensures r.Some? ==> Shaped(r.value) && r.value.cap == s.cap && r.value.producers.Keys == s.producers.Keys
    decreases |steps|
  {
    if steps == [] then Some(s)
    else if Enabled(s, steps[0]) then Exec(Apply(s, steps[0]), steps[1..])
    else None
  }

  // ------------------------------------------------------------------ arithmetic of positions

  lemma {:induction false} GeometryIsDivMod(cap: nat, position: nat)
    requires cap > 0
    ensures Slot(cap, position) == position % cap && Lap(cap, position) == position / cap
    decreases position
  {
    if position >= cap {
      GeometryIsDivMod(cap, position - cap);
      assert position == cap * ((position - cap) / cap + 1) + (position - cap) % cap;
      DivModUnique(cap, position, (position - cap) / cap + 1, (position - cap) % cap);
    }
  }

  lemma DivModUnique(d: nat, n: nat, q: nat, r: nat)
    requires r < d && n == d * q + r
    ensures n / d == q && n % d == r
  {
    var e := n / d - q;
    assert n == d * (n / d) + n % d;
    assert d * e == r - n % d;
    assert e >= 1 ==> d * e >= d;
    assert e <= -1 ==> d * e <= d * -1;
  }

  lemma {:induction false} SlotsDiffer(cap: nat, a: nat, b: nat)
    requires cap > 0 && a < b < a + cap
    ensures Slot(cap, a) != Slot(cap, b)
    decreases b
  {
    if cap <= a {
      SlotsDiffer(cap, a - cap, b - cap);
    }
  }

  /** Within one window of `cap` positions no two share a slot. */
  lemma WindowInjective(cap: nat, low: nat)
    requires cap > 0
    ensures forall a: nat, b: nat | low <= a < low + cap && low <= b < low + cap && a != b ::
              Slot(cap, a) != Slot(cap, b)
  {
    forall a: nat, b: nat | low <= a < low + cap && low <= b < low + cap && a != b
      ensures Slot(cap, a) != Slot(cap, b)
    {
      if a < b { SlotsDiffer(cap, a, b); } else { SlotsDiffer(cap, b, a); }
    }
  }

  // ------------------------------------------------------------------ safety of the ring

  /** The lowest position whose slot the consumer has not handed back: `try_pop` advances the
      slot's turn one step before it advances `head`. */
  function Base<V>(s: State<V>): nat {
    if s.consumer.PopHead? then s.head + 1 else s.head
  }

  /** The payload of position `q` is published. */
  predicate Ready<V>(s: State<V>, q: nat)
    requires Shaped(s)
  {
    s.turns[Slot(s.cap, q)] == 2 * Lap(s.cap, q) + 1
  }

  predicate Unwritten<V>(s: State<V>, q: nat)
    requires Shaped(s)
  {
    s.turns[Slot(s.cap, q)] == 2 * Lap(s.cap, q)
  }

  ghost predicate Owner<V>(s: State<V>, p: nat, q: nat) {
    p in s.producers && s.producers[p].OwnsSlot() && s.producers[p].position == q
  }

  ghost predicate Owned<V>(s: State<V>, q: nat) {
    exists p :: Owner(s, p, q)
  }

  ghost predicate ProducerInv<V>(s: State<V>, me: Producer<V>)
    requires Shaped(s) && |s.claims| == s.tail
  {
    match me
    case Loaded(_, t) => t <= s.tail
    case NeedHead(_, t) => t <= s.tail
    case HaveHead(_, t, h) => t <= s.tail && h <= s.head
    case Checked(_, t) => t <= s.tail && t < s.head + s.cap
    case Claimed(v, q) => Base(s) <= q < s.tail && Unwritten(s, q) && s.claims[q] == v
    case Writable(v, q) => Base(s) <= q < s.tail && Unwritten(s, q) && s.claims[q] == v
    case Written(v, q) =>
      Base(s) <= q < s.tail && Unwritten(s, q) && s.claims[q] == v && s.slots[Slot(s.cap, q)] == v
    case _ => true
  }

  ghost predicate ConsumerInv<V>(s: State<V>)
    requires Shaped(s) && |s.claims| == s.tail
  {
    match s.consumer
    case PopTurn(_, h) => h == s.head
    case PopTail(_, h) => h == s.head
    case PopRead(_, h) => h == s.head < s.tail && Ready(s, h)
    case PopFree(_, h, v) => h == s.head < s.tail && Ready(s, h) && s.claims[h] == v
    case PopHead(_, h, v) => h == s.head < s.tail && s.claims[h] == v
    case PeekTurn(_, h) => h == s.head
    case _ => true
  }

  /** Each claimed position that has not been handed back is either published with its claimed
      value, or still unwritten and owned by a producer; every later position of the window is
      free for the producer of its lap. */
  ghost predicate SlotInv<V>(s: State<V>)
    requires Shaped(s) && |s.claims| == s.tail
  {
    && (forall q: nat | Base(s) <= q < s.tail ::
          (Ready(s, q) && s.slots[Slot(s.cap, q)] == s.claims[q]) || (Unwritten(s, q) && Owned(s, q)))
    && (forall q: nat | s.tail <= q < Base(s) + s.cap :: Unwritten(s, q))
  }

  ghost predicate Exclusive<V>(s: State<V>) {
    forall p, r, q, q' | p != r && Owner(s, p, q) && Owner(s, r, q') :: q != q'
  }

  ghost predicate RingInv<V>(s: State<V>) {
    && Shaped(s) && s.cap <= POSITION_LIMIT
    && s.head <= s.tail <= s.head + s.cap
    && s.tail < POSITION_LIMIT
    && |s.claims| == s.tail
    && s.popped == s.claims[..s.head]
    && s.headCache <= s.head
    && ConsumerInv(s)
    && (forall p <- s.producers :: ProducerInv(s, s.producers[p]))
    && Exclusive(s)
    && SlotInv(s)
  }
}
