/** Safety of the ring over every interleaving. */
module RingSafety {
  import opened Wrappers
  import opened SpecQueue
  import opened Ring

  lemma InitInv<V>(s: State<V>)
    requires Init(s)
    ensures RingInv(s)
  {
    forall q: nat | q < s.cap ensures Unwritten(s, q) {
    }
  }

  /** What `SlotInv` says is kept when turns, payloads and the window are, and owners stay owners. */
  lemma SlotFrame<V>(s: State<V>, s': State<V>)
    requires Shaped(s) && Shaped(s') && |s.claims| == s.tail && SlotInv(s)
    requires s'.cap == s.cap && s'.turns == s.turns && s'.slots == s.slots && s'.claims == s.claims
    requires s'.tail == s.tail && Base(s') == Base(s)
    requires forall r, q | Owner(s, r, q) :: Owner(s', r, q)
    ensures SlotInv(s')
  {
    forall q: nat | Base(s') <= q < s'.tail && !Ready(s', q) ensures Unwritten(s', q) && Owned(s', q) {
      assert !Ready(s, q);
      assert Owned(s, q);
    }
    forall q: nat | Base(s') <= q < s'.tail && Ready(s', q) ensures s'.slots[Slot(s'.cap, q)] == s'.claims[q] {
      assert Ready(s, q);
    }
    forall q: nat | s'.tail <= q < Base(s') + s'.cap ensures Unwritten(s', q) {
      assert Unwritten(s, q);
    }
  }

  /** A step of producer `p` that touches neither turns, slots nor `tail`. */
  lemma LocalStep<V>(s: State<V>, s': State<V>, p: nat)
    requires RingInv(s) && p in s.producers
    requires s' == s.(producers := s'.producers, headCache := s'.headCache,
                      working := s'.working, inFlight := s'.inFlight, waiting := s'.waiting)
    requires p in s'.producers && s'.producers == s.producers[p := s'.producers[p]]
    requires s'.headCache <= s'.head
    requires !s.producers[p].OwnsSlot() && !s'.producers[p].OwnsSlot()
    requires ProducerInv(s', s'.producers[p])
    ensures RingInv(s')
  {
    forall q: nat, r | Owner(s, r, q) ensures Owner(s', r, q) { }
    forall q: nat, r | Owner(s', r, q) ensures Owner(s, r, q) { }
    forall r <- s'.producers ensures ProducerInv(s', s'.producers[r]) {
      if r != p { assert ProducerInv(s, s.producers[r]); }
    }
    SlotFrame(s, s');
  }

  /** A successful CAS: the claimed position gets an owner, and its slot is still unwritten. */
  lemma ClaimSlots<V>(s: State<V>, s': State<V>, p: nat, me: Producer<V>)
    requires RingInv(s) && p in s.producers && !s.producers[p].OwnsSlot() && s.tail < s.head + s.cap
    requires me.Claimed? && me.position == s.tail
    requires s' == Put(s, p, me).(tail := s.tail + 1, claims := s.claims + [me.value])
    ensures SlotInv(s') && Exclusive(s')
  {
    forall q: nat, r | Owner(s, r, q) ensures Owner(s', r, q) && q < s.tail {
      assert ProducerInv(s, s.producers[r]);
    }
    forall q: nat, r | Owner(s', r, q) && r != p ensures Owner(s, r, q) { }
    assert Owner(s', p, s.tail);
    forall q: nat | Base(s') <= q < s'.tail
      ensures (Ready(s', q) && s'.slots[Slot(s'.cap, q)] == s'.claims[q]) || (Unwritten(s', q) && Owned(s', q))
    {
      if q == s.tail { assert Unwritten(s, q); }
      if q < s.tail && !Ready(s, q) { assert Owned(s, q); }
    }
    forall q: nat | s'.tail <= q < Base(s') + s'.cap ensures Unwritten(s', q) {
      assert Unwritten(s, q);
    }
  }

  lemma CasKeeps<V>(s: State<V>, p: nat, spurious: bool)
    requires RingInv(s) && Enabled(s, CasTail(p, spurious))
    ensures RingInv(Apply(s, CasTail(p, spurious)))
  {
    hide SlotInv, Exclusive, Slot, Lap;
    var s' := Apply(s, CasTail(p, spurious));
    var me := s.producers[p];
    assert ProducerInv(s, me);
    if s.tail == me.seen && !spurious {
      TailIsUnwritten(s);
      ClaimSlots(s, s', p, s'.producers[p]);
      forall r <- s'.producers ensures ProducerInv(s', s'.producers[r]) {
        if r != p { assert ProducerInv(s, s.producers[r]); }
      }
    } else {
      LocalStep(s, s', p);
    }
  }

  lemma TailIsUnwritten<V>(s: State<V>)
    requires RingInv(s) && s.tail < s.head + s.cap
    ensures Unwritten(s, s.tail)
  {
  }

  lemma LoadTurnKeeps<V>(s: State<V>, p: nat)
    requires RingInv(s) && Enabled(s, LoadTurn(p))
    ensures RingInv(Apply(s, LoadTurn(p)))
  {
    var s' := Apply(s, LoadTurn(p));
    SameOwners(s, s', p);
  }

  /** A step of the owner of a slot that keeps owning it. */
  lemma SameOwners<V>(s: State<V>, s': State<V>, p: nat)
    requires RingInv(s) && p in s.producers
    requires s'.producers.Keys == s.producers.Keys
    requires s.producers[p].OwnsSlot() && s'.producers[p].OwnsSlot()
    requires s'.producers[p].position == s.producers[p].position
    requires s'.producers == s.producers[p := s'.producers[p]]
    requires s' == s.(producers := s'.producers, slots := s'.slots)
    requires |s'.slots| == |s.slots|
    requires forall i | 0 <= i < s.cap && i != Slot(s.cap, s.producers[p].position) :: s'.slots[i] == s.slots[i]
    requires ProducerInv(s', s'.producers[p])
    ensures RingInv(s')
  {
    var mine := s.producers[p].position;
    assert ProducerInv(s, s.producers[p]);
    WindowInjective(s.cap, Base(s));
    forall q: nat, r | Owner(s, r, q) ensures Owner(s', r, q) { }
    forall q: nat, r | Owner(s', r, q) ensures Owner(s, r, q) { }
    forall r <- s'.producers ensures ProducerInv(s', s'.producers[r]) {
      if r != p {
        assert ProducerInv(s, s.producers[r]);
        if s.producers[r].OwnsSlot() { assert Owner(s, r, s.producers[r].position) && Owner(s, p, mine); }
      }
    }
    forall q: nat | Base(s') <= q < s'.tail
      ensures (Ready(s', q) && s'.slots[Slot(s'.cap, q)] == s'.claims[q]) || (Unwritten(s', q) && Owned(s', q))
    {
      if Ready(s, q) { assert q != mine; } else { assert Owned(s, q); }
    }
    forall q: nat | s'.tail <= q < Base(s') + s'.cap ensures Unwritten(s', q) {
      assert Unwritten(s, q);
    }
  }

  lemma StorePayloadKeeps<V>(s: State<V>, p: nat)
    requires RingInv(s) && Enabled(s, StorePayload(p))
    ensures RingInv(Apply(s, StorePayload(p)))
  {
    assert ProducerInv(s, s.producers[p]);
    SameOwners(s, Apply(s, StorePayload(p)), p);
  }

  /** Storing the odd turn publishes the producer's own position and touches no other one. */
  lemma StoreTurnIsLocal<V>(s: State<V>, p: nat)
    requires RingInv(s) && Enabled(s, StoreTurn(p))
    ensures var s' := Apply(s, StoreTurn(p));
            var mine := s.producers[p].position;
            && Base(s) <= mine < s.tail && Ready(s', mine) && !Ready(s, mine)
            && s.slots[Slot(s.cap, mine)] == s.claims[mine]
            && (forall q: nat | Base(s) <= q < Base(s) + s.cap && q != mine ::
                  Ready(s', q) == Ready(s, q) && Unwritten(s', q) == Unwritten(s, q))
  {
    assert ProducerInv(s, s.producers[p]);
    WindowInjective(s.cap, Base(s));
  }

  lemma StoreTurnKeeps<V>(s: State<V>, p: nat)
    requires RingInv(s) && Enabled(s, StoreTurn(p))
    ensures RingInv(Apply(s, StoreTurn(p)))
  {
    var s' := Apply(s, StoreTurn(p));
    var mine := s.producers[p].position;
    StoreTurnIsLocal(s, p);
    assert Owner(s, p, mine);
    forall q: nat, r | Owner(s', r, q) ensures Owner(s, r, q) && q != mine {
      assert r != p;
      assert Owner(s, r, q);
    }
    forall r <- s'.producers ensures ProducerInv(s', s'.producers[r]) {
      if r != p {
        assert ProducerInv(s, s.producers[r]);
        if s.producers[r].OwnsSlot() { assert Owner(s', r, s.producers[r].position); }
      }
    }
    StoreTurnSlots(s, p);
  }

  lemma StoreTurnSlots<V>(s: State<V>, p: nat)
    requires RingInv(s) && Enabled(s, StoreTurn(p))
    ensures SlotInv(Apply(s, StoreTurn(p)))
  {
    var s' := Apply(s, StoreTurn(p));
    var mine := s.producers[p].position;
    StoreTurnIsLocal(s, p);
    forall q: nat | Base(s') <= q < s'.tail
      ensures (Ready(s', q) && s'.slots[Slot(s'.cap, q)] == s'.claims[q]) || (Unwritten(s', q) && Owned(s', q))
    {
      if q != mine && !Ready(s, q) {
        var r :| Owner(s, r, q);
        assert Owner(s', r, q);
      }
    }
    forall q: nat | s'.tail <= q < Base(s') + s'.cap ensures Unwritten(s', q) {
      assert Unwritten(s, q);
    }
  }

  /** The consumer's steps that leave turns and `head` alone. */
  lemma QuietDrainKeeps<V>(s: State<V>)
    requires RingInv(s) && !s.consumer.Asleep? && !s.consumer.PopFree? && !s.consumer.PopHead?
    ensures RingInv(Drain(s))
  {
    hide SlotInv, Exclusive, ProducerInv, Slot, Lap;
    if Ready(s, s.head) { PublishedHead(s); }
    ConsumerMoves(s, Drain(s));
  }

  /** A published head has been claimed, and its slot holds the value claimed for it. */
  lemma PublishedHead<V>(s: State<V>)
    requires RingInv(s) && !s.consumer.PopHead? && Ready(s, s.head)
    ensures s.head < s.tail && s.slots[Slot(s.cap, s.head)] == s.claims[s.head]
  {
    assert s.tail == s.head ==> Unwritten(s, s.head);
  }

  lemma ConsumerMoves<V>(s: State<V>, s': State<V>)
    requires RingInv(s)
    requires s' == s.(consumer := s'.consumer, working := s'.working, inFlight := s'.inFlight, waiting := s'.waiting)
    requires Base(s) == Base(s') && ConsumerInv(s')
    ensures RingInv(s')
  {
    forall q: nat, r | Owner(s, r, q) ensures Owner(s', r, q) { }
    forall q: nat, r | Owner(s', r, q) ensures Owner(s, r, q) { }
    forall r <- s'.producers ensures ProducerInv(s', s'.producers[r]) {
      assert ProducerInv(s, s.producers[r]);
    }
    SlotFrame(s, s');
  }

  lemma PopFreeKeeps<V>(s: State<V>)
    requires RingInv(s) && s.consumer.PopFree?
    ensures RingInv(Drain(s))
  {
    var s' := Drain(s);
    var h := s.head;
    WindowInjective(s.cap, h);
    forall q: nat, r | Owner(s, r, q) ensures Owner(s', r, q) { }
    forall q: nat, r | Owner(s', r, q) ensures Owner(s, r, q) { }
    forall r <- s'.producers ensures ProducerInv(s', s'.producers[r]) {
      assert ProducerInv(s, s.producers[r]);
    }
    forall q: nat | Base(s') <= q < s'.tail
      ensures (Ready(s', q) && s'.slots[Slot(s'.cap, q)] == s'.claims[q]) || (Unwritten(s', q) && Owned(s', q))
    {
      if !Ready(s, q) {
        var r :| Owner(s, r, q);
        assert Owner(s', r, q);
      }
    }
    forall q: nat | s'.tail <= q < Base(s') + s'.cap ensures Unwritten(s', q) {
      if q < h + s.cap { assert Unwritten(s, q); }
    }
  }

  lemma PopHeadKeeps<V>(s: State<V>)
    requires RingInv(s) && s.consumer.PopHead?
    ensures RingInv(Drain(s))
  {
    var s' := Drain(s);
    assert s.claims[..s.head] + [s.claims[s.head]] == s.claims[..s.head + 1];
    forall q: nat, r | Owner(s, r, q) ensures Owner(s', r, q) { }
    forall q: nat, r | Owner(s', r, q) ensures Owner(s, r, q) { }
    forall r <- s'.producers ensures ProducerInv(s', s'.producers[r]) {
      assert ProducerInv(s, s.producers[r]);
    }
    SlotFrame(s, s');
  }

  lemma DrainKeeps<V>(s: State<V>)
    requires RingInv(s) && !s.consumer.Asleep?
    ensures RingInv(Drain(s))
  {
    if s.consumer.PopFree? {
      PopFreeKeeps(s);
    } else if s.consumer.PopHead? {
      PopHeadKeeps(s);
    } else {
      assert s.consumer.PopRead? ==> Ready(s, s.head) && s.slots[Slot(s.cap, s.head)] == s.claims[s.head];
      QuietDrainKeeps(s);
    }
  }

  /** A step before the claim, or after the publication, touches nothing but the producer's own state,
      the cached head, the flag and the wakeups. */
  lemma LocalStepKeeps<V>(s: State<V>, step: Step<V>)
    requires RingInv(s) && Enabled(s, step)
    requires !step.CasTail? && !step.LoadTurn? && !step.StorePayload? && !step.StoreTurn?
    requires !step.Consume? && !step.ReceiveWakeup? && !step.StartDrain? && !step.StartUnprompted?
    ensures RingInv(Apply(s, step))
  {
    hide SlotInv, Exclusive, ConsumerInv;
    assert ProducerInv(s, s.producers[step.p]);
    LocalStep(s, Apply(s, step), step.p);
  }

  lemma WakeStepKeeps<V>(s: State<V>, step: Step<V>)
    requires RingInv(s) && Enabled(s, step) && (step.ReceiveWakeup? || step.StartDrain? || step.StartUnprompted?)
    ensures RingInv(Apply(s, step))
  {
    ConsumerMoves(s, Apply(s, step));
  }

  /** Every step of every thread keeps the ring invariant. */
  lemma StepKeeps<V>(s: State<V>, step: Step<V>)
    requires RingInv(s) && Enabled(s, step)
    ensures RingInv(Apply(s, step))
  {
    hide RingInv;
    match step
    case CasTail(p, spurious) => CasKeeps(s, p, spurious);
    case LoadTurn(p) => LoadTurnKeeps(s, p);
    case StorePayload(p) => StorePayloadKeeps(s, p);
    case StoreTurn(p) => StoreTurnKeeps(s, p);
    case Consume => DrainKeeps(s);
    case ReceiveWakeup(_) => WakeStepKeeps(s, step);
    case StartDrain => WakeStepKeeps(s, step);
    case StartUnprompted(_) => WakeStepKeeps(s, step);
    case _ => LocalStepKeeps(s, step);
  }

  lemma {:induction false} RunKeeps<V>(s: State<V>, steps: seq<Step<V>>)
    requires RingInv(s)
    ensures Exec(s, steps).Some? ==> RingInv(Exec(s, steps).value)
    decreases |steps|
  {
    if steps != [] && Enabled(s, steps[0]) {
      StepKeeps(s, steps[0]);
      RunKeeps(Apply(s, steps[0]), steps[1..]);
    }
  }

  /** For every run: the ring never holds more than its capacity, no slot has two owners, the
      cached head never overstates the true one, and what has been popped is exactly a prefix of
      the claims in claim order. */
  lemma RingIsSafe<V>(start: State<V>, steps: seq<Step<V>>)
    requires Init(start) && Exec(start, steps).Some?
    ensures var s := Exec(start, steps).value;
            && s.head <= s.tail <= s.head + s.cap
            && |s.claims| == s.tail && s.popped == s.claims[..s.head]
            && s.headCache <= s.head
            && (forall p, r, q: nat, q': nat | p != r && Owner(s, p, q) && Owner(s, r, q') ::
                  Slot(s.cap, q) != Slot(s.cap, q'))
  {
    InitInv(start);
    RunKeeps(start, steps);
    var s := Exec(start, steps).value;
    WindowInjective(s.cap, Base(s));
    forall p, r, q: nat, q': nat | p != r && Owner(s, p, q) && Owner(s, r, q')
      ensures Slot(s.cap, q) != Slot(s.cap, q')
    {
      assert ProducerInv(s, s.producers[p]) && ProducerInv(s, s.producers[r]);
      assert q != q';
    }
  }

  /** A producer that has claimed a position finds its slot at the writable turn the first time
      it looks, so the spin on the turn never goes round, and what it then publishes is what the
      consumer reads. */
  lemma ClaimedSlotIsWritable<V>(start: State<V>, steps: seq<Step<V>>, p: nat)
    requires Init(start) && Exec(start, steps).Some?
    requires p in Exec(start, steps).value.producers && Exec(start, steps).value.producers[p].Claimed?
    ensures var s := Exec(start, steps).value;
            && Enabled(s, LoadTurn(p)) && Apply(s, LoadTurn(p)).producers[p].Writable?
            && s.producers[p].position < |s.claims|
            && s.claims[s.producers[p].position] == s.producers[p].value
  {
    InitInv(start);
    RunKeeps(start, steps);
    var s := Exec(start, steps).value;
    assert ProducerInv(s, s.producers[p]);
  }

  /** A value the consumer holds before it hands the slot back is the one claimed at its position. */
  lemma PoppedValueWasClaimed<V>(start: State<V>, steps: seq<Step<V>>)
    requires Init(start) && Exec(start, steps).Some?
    requires Exec(start, steps).value.consumer.PopRead?
    ensures var s := Exec(start, steps).value;
            s.head < |s.claims| && Drain(s).consumer == PopFree(s.consumer.barrier, s.head, s.claims[s.head])
  {
    InitInv(start);
    RunKeeps(start, steps);
    var s := Exec(start, steps).value;
    assert Ready(s, s.head);
  }

  // ------------------------------------------------------------------ refinement

  /** The queue a ring state stands for. A position counts as published until `head` passes it,
      also while the consumer has handed its slot back and not yet advanced `head`. */
  function Abs<V>(s: State<V>): Queue<V>
    requires Shaped(s)
  {
    Queue(s.cap, s.claims, seq(s.tail, q requires 0 <= q < s.tail => q < Base(s) || Ready(s, q)), s.head)
  }

  lemma AbsFrame<V>(s: State<V>, s': State<V>)
    requires Shaped(s) && Shaped(s') && s'.cap == s.cap && s'.claims == s.claims
    requires s'.tail == s.tail && s'.head == s.head && s'.turns == s.turns && Base(s') == Base(s)
    ensures Abs(s') == Abs(s)
  {
    forall q | 0 <= q < s.tail ensures Abs(s').ready[q] == Abs(s).ready[q] {
      assert Ready(s', q) == Ready(s, q);
    }
    assert Abs(s').ready == Abs(s).ready;
  }

  lemma ClaimRefines<V>(s: State<V>, p: nat)
    requires RingInv(s) && Enabled(s, CasTail(p, false)) && s.producers[p].seen == s.tail
    ensures Claims(Abs(s), Abs(Apply(s, CasTail(p, false))), s.producers[p].value)
  {
    var s' := Apply(s, CasTail(p, false));
    assert ProducerInv(s, s.producers[p]);
    assert Unwritten(s, s.tail);
    assert !Ready(s', s.tail);
    forall q | 0 <= q < s.tail ensures Abs(s').ready[q] == Abs(s).ready[q] {
      assert Ready(s', q) == Ready(s, q);
    }
    assert Abs(s').ready == Abs(s).ready + [false];
  }

  lemma PublishRefines<V>(s: State<V>, p: nat)
    requires RingInv(s) && Enabled(s, StoreTurn(p))
    ensures Publishes(Abs(s), Abs(Apply(s, StoreTurn(p))), s.producers[p].position)
  {
    var s' := Apply(s, StoreTurn(p));
    var mine := s.producers[p].position;
    StoreTurnIsLocal(s, p);
    assert Abs(s').ready == Abs(s).ready[mine := true];
  }

  lemma PopRefines<V>(s: State<V>)
    requires RingInv(s) && (s.consumer.PopHead? || s.consumer.PopFree?)
    ensures s.consumer.PopFree? ==> Abs(Drain(s)) == Abs(s)
    ensures s.consumer.PopHead? ==> Takes(Abs(s), Abs(Drain(s)))
  {
    var s' := Drain(s);
    WindowInjective(s.cap, s.head);
    forall q | 0 <= q < s.tail ensures Abs(s').ready[q] == Abs(s).ready[q] {
      if q > s.head { assert Ready(s', q) == Ready(s, q); }
    }
    assert Abs(s').ready == Abs(s).ready;
  }

  /** Every step of the ring is a step of the queue it stands for, or leaves it alone: a successful
      compare-exchange claims, the store of the odd turn publishes, the store of `head` takes. */
  lemma StepRefines<V>(s: State<V>, step: Step<V>)
    requires RingInv(s) && Enabled(s, step)
    ensures var s' := Apply(s, step);
            if step.CasTail? && s'.producers[step.p].Claimed? then
              Claims(Abs(s), Abs(s'), s.producers[step.p].value)
            else if step.StoreTurn? then
              Publishes(Abs(s), Abs(s'), s.producers[step.p].position)
            else if step.Consume? && s.consumer.PopHead? then
              Takes(Abs(s), Abs(s')) && s'.popped == s.popped + [Abs(s).entries[Abs(s).taken]]
            else
              Abs(s') == Abs(s) && s'.popped == s.popped
  {
    hide SlotInv, Exclusive, ProducerInv, Slot, Lap;
    var s' := Apply(s, step);
    if step.CasTail? && s'.producers[step.p].Claimed? {
      ClaimRefines(s, step.p);
    } else if step.StoreTurn? {
      PublishRefines(s, step.p);
    } else if step.Consume? && (s.consumer.PopHead? || s.consumer.PopFree?) {
      PopRefines(s);
    } else {
      QuietRefines(s, step);
    }
  }

  /** A step that neither claims, publishes nor pops leaves the queue alone. */
  lemma QuietRefines<V>(s: State<V>, step: Step<V>)
    requires RingInv(s) && Enabled(s, step) && !step.StoreTurn?
    requires step.CasTail? ==> !Apply(s, step).producers[step.p].Claimed?
    requires step.Consume? ==> !s.consumer.PopHead? && !s.consumer.PopFree?
    ensures Abs(Apply(s, step)) == Abs(s) && Apply(s, step).popped == s.popped
  {
    hide SlotInv, Exclusive, ProducerInv, Abs, Slot, Lap, WrappingSub;
    AbsFrame(s, Apply(s, step));
  }

  // ------------------------------------------------------------------ what a refusal means

  /** `try_push` decides on the `tail` it saw and the `head` it loaded. At that load, the push is
      refused exactly when the ring is full, or when the seen `tail` is already behind `head`
      and the subtraction wraps. */
  lemma RefusalMeansFullOrStale<V>(s: State<V>, p: nat)
    requires RingInv(s) && Enabled(s, LoadHead(p))
    ensures var s' := Apply(s, LoadHead(p));
            && Enabled(s', StoreCache(p))
            && (Apply(s', StoreCache(p)).producers[p].Refused? <==>
                (s.producers[p].seen == s.tail == s.head + s.cap) || s.producers[p].seen < s.head)
  {
    assert ProducerInv(s, s.producers[p]);
  }

  /** What one producer alone adds: the `tail` it saw is still the `tail`. */
  ghost predicate Solo<V>(s: State<V>, p: nat) {
    && s.producers.Keys == {p}
    && var me := s.producers[p];
       (me.Loaded? || me.NeedHead? || me.HaveHead? || me.Checked?) ==> me.seen == s.tail
  }

  lemma SoloStep<V>(s: State<V>, step: Step<V>, p: nat)
    requires Shaped(s) && Solo(s, p) && Enabled(s, step)
    ensures Solo(Apply(s, step), p)
  {
  }

  lemma {:induction false} SoloRun<V>(s: State<V>, steps: seq<Step<V>>, p: nat)
    requires Shaped(s) && Solo(s, p) && Exec(s, steps).Some?
    ensures Solo(Exec(s, steps).value, p)
    decreases |steps|
  {
    hide Solo, Enabled, Apply;
    if steps != [] {
      SoloStep(s, steps[0], p);
      SoloRun(Apply(s, steps[0]), steps[1..], p);
    }
  }

  /** With a single producer a refusal does mean full, at the moment `head` was loaded. */
  lemma SoloRefusalMeansFull<V>(start: State<V>, steps: seq<Step<V>>, p: nat)
    requires Init(start) && start.producers.Keys == {p} && Exec(start, steps).Some?
    requires Enabled(Exec(start, steps).value, LoadHead(p))
    ensures var s := Exec(start, steps).value;
            var s' := Apply(s, LoadHead(p));
            Enabled(s', StoreCache(p)) &&
            (Apply(s', StoreCache(p)).producers[p].Refused? <==> s.tail == s.head + s.cap)
  {
    InitInv(start);
    RunKeeps(start, steps);
    SoloRun(start, steps, p);
    var s := Exec(start, steps).value;
    assert ProducerInv(s, s.producers[p]);
    RefusalMeansFullOrStale(s, p);
  }

  lemma OneSlotGeometry(q: nat)
    ensures Slot(1, q) == 0 && Lap(1, q) == q
  {
    GeometryIsDivMod(1, q);
  }

  ghost predicate Reaches<V(!new)>(start: State<V>, s: State<V>)
    requires Shaped(start)
  {
    exists steps :: Exec(start, steps) == Some(s)
  }

  lemma {:induction false} ExecAppend<V>(s: State<V>, steps: seq<Step<V>>, step: Step<V>)
    requires Shaped(s) && Exec(s, steps).Some? && Enabled(Exec(s, steps).value, step)
    ensures Exec(s, steps + [step]) == Some(Apply(Exec(s, steps).value, step))
    decreases |steps|
  {
    if steps == [] {
      assert (steps + [step])[1..] == [];
    } else {
      assert (steps + [step])[1..] == steps[1..] + [step];
      ExecAppend(Apply(s, steps[0]), steps[1..], step);
    }
  }

  lemma Starts<V(!new)>(s: State<V>)
    requires Shaped(s)
    ensures Reaches(s, s)
  {
    assert Exec(s, []) == Some(s);
  }

  lemma Advance<V(!new)>(start: State<V>, s: State<V>, step: Step<V>) returns (s': State<V>)
    requires Shaped(start) && Shaped(s) && Reaches(start, s) && Enabled(s, step)
    ensures s' == Apply(s, step) && Reaches(start, s')
  {
    var steps :| Exec(start, steps) == Some(s);
    ExecAppend(start, steps, step);
    s' := Apply(s, step);
  }

  /** One slot, three producers, the waypoints of a run: producer 1 loads `tail` and stalls; producer
      2 pushes and is popped; producer 3 pushes, which moves the cached head, and is popped. */
  function Waypoint(head: nat, tail: nat, cache: nat, turn: nat, slot: int, two: Producer<int>, three: Producer<int>,
                    consumer: Consumer<int>): State<int>
    requires head <= tail <= 2
  {
    State(1, head, tail, cache, [turn], [slot], map[1 := Loaded(5, 0), 2 := two, 3 := three], consumer, false, 0, 0,
          [7, 8][..tail], [7, 8][..head])
  }

  const FRESH: State<int> :=
    State(1, 0, 0, 0, [0], [0], map[1 := Idle, 2 := Idle, 3 := Idle], Asleep, false, 0, 0, [], [])
  const CLAIMED := Waypoint(0, 1, 0, 0, 0, Claimed(7, 0), Idle, Asleep)
  const PUSHED := Waypoint(0, 1, 0, 1, 7, Published, Idle, PopStart(true))
  const POPPED := Waypoint(1, 1, 0, 2, 7, Published, Idle, PopStart(true))
  const CLAIMED_TWICE := Waypoint(1, 2, 1, 2, 7, Published, Claimed(8, 1), PopStart(true))
  const PUSHED_TWICE := Waypoint(1, 2, 1, 3, 8, Published, Published, PopStart(true))
  const EMPTY_AGAIN := Waypoint(2, 2, 1, 4, 8, Published, Published, PopStart(true))

  lemma ReachClaimed()
    ensures Reaches(FRESH, CLAIMED)
  {
    hide Reaches, Exec, Slot, Lap;
    Starts(FRESH);
    var s := Advance(FRESH, FRESH, LoadTail(1, 5));
    s := Advance(FRESH, s, LoadTail(2, 7));
    s := Advance(FRESH, s, TestRoom(2));
    s := Advance(FRESH, s, CasTail(2, false));
    assert s == CLAIMED;
  }

  lemma ReachPushed()
    ensures Reaches(FRESH, PUSHED)
  {
    hide Reaches, Exec, Slot, Lap;
    OneSlotGeometry(0);
    ReachClaimed();
    var s := Advance(FRESH, CLAIMED, LoadTurn(2));
    s := Advance(FRESH, s, StorePayload(2));
    s := Advance(FRESH, s, StoreTurn(2));
    s := Advance(FRESH, s, StartUnprompted(true));
    assert s == PUSHED;
  }

  /** One `try_pop` of a published head. */
  lemma ReachPop(start: State<int>, s: State<int>, h: nat) returns (s': State<int>)
    requires Shaped(start) && Shaped(s) && Reaches(start, s) && s.cap == 1 && s.head == h && s.turns == [2 * h + 1]
    requires s.consumer == PopStart(true)
    ensures s' == s.(head := h + 1, turns := [2 * h + 2], popped := s.popped + [s.slots[0]]) && Reaches(start, s')
  {
    hide Reaches, Exec, Slot, Lap;
    OneSlotGeometry(h);
    s' := Advance(start, s, Consume);
    s' := Advance(start, s', Consume);
    s' := Advance(start, s', Consume);
    s' := Advance(start, s', Consume);
    s' := Advance(start, s', Consume);
  }

  lemma ReachClaimedTwice()
    ensures Reaches(FRESH, CLAIMED_TWICE)
  {
    hide Reaches, Exec, Slot, Lap;
    ReachPushed();
    var s := ReachPop(FRESH, PUSHED, 0);
    assert s == POPPED;
    s := Advance(FRESH, POPPED, LoadTail(3, 8));
    s := Advance(FRESH, s, TestRoom(3));
    s := Advance(FRESH, s, LoadHead(3));
    s := Advance(FRESH, s, StoreCache(3));
    s := Advance(FRESH, s, CasTail(3, false));
    assert s == CLAIMED_TWICE;
  }

  lemma ReachEmptyAgain()
    ensures Reaches(FRESH, EMPTY_AGAIN)
  {
    hide Reaches, Exec, Slot, Lap;
    OneSlotGeometry(1);
    ReachClaimedTwice();
    var s := Advance(FRESH, CLAIMED_TWICE, LoadTurn(3));
    s := Advance(FRESH, s, StorePayload(3));
    s := Advance(FRESH, s, StoreTurn(3));
    assert s == PUSHED_TWICE;
    s := ReachPop(FRESH, PUSHED_TWICE, 1);
    assert s == EMPTY_AGAIN;
  }

  /** With several producers a refusal does not mean full: here is a run from the empty ring in
      which producer 1 is refused while the ring is empty. */
  lemma RefusedWhileEmpty()
    ensures Init(FRESH)
    ensures exists s :: Reaches(FRESH, s) && s.tail == s.head && 1 in s.producers && s.producers[1].Refused?
  {
    hide Reaches, Exec, Slot, Lap;
    ReachEmptyAgain();
    var s := Advance(FRESH, EMPTY_AGAIN, TestRoom(1));
    s := Advance(FRESH, s, LoadHead(1));
    s := Advance(FRESH, s, StoreCache(1));
  }
}
