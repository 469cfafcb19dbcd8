/** No wakeup is lost: the working flag of src/v5/queue.rs over every interleaving, with barrier
    drains and unprompted drains clearing it at any time. */
module Wakeup {
  import opened Ring
  import opened RingSafety

  /** A wakeup that is bound to lead to a drain: sent, received but not started, or owed by the
      producer that won the flag. */
  ghost predicate Token<V>(s: State<V>) {
    s.inFlight > 0 || s.waiting > 0 || exists p :: p in s.producers && s.producers[p].Winner?
  }

  /** Some producer has published and not yet tried to claim the consumer. */
  ghost predicate BetweenPublishAndClaim<V>(s: State<V>) {
    exists p :: p in s.producers && s.producers[p].Published?
  }

  /** The drain in progress will clear the flag and look at the head again. */
  predicate BeforeClear<V>(c: Consumer<V>) {
    !(c.Asleep? || c.PeekHead? || c.PeekTurn? || c.SetFlag?)
  }

  ghost predicate WakeInv<V>(s: State<V>)
    requires Shaped(s)
  {
    && (s.working ==> Token(s) || BeforeClear(s.consumer))
    && (Ready(s, s.head) ==> Token(s) || !s.consumer.Asleep? || BetweenPublishAndClaim(s))
  }

  lemma TokenMoves<V>(s: State<V>, s': State<V>, p: nat)
    requires p in s.producers && p in s'.producers && s'.producers == s.producers[p := s'.producers[p]]
    requires s'.inFlight >= s.inFlight && s'.waiting == s.waiting
    ensures Token(s) && (s.producers[p].Winner? ==> s'.producers[p].Winner? || s'.inFlight > 0) ==> Token(s')
    ensures BetweenPublishAndClaim(s) && !s.producers[p].Published? ==> BetweenPublishAndClaim(s')
  {
    if r :| r in s.producers && s.producers[r].Winner? {
      assert r in s'.producers && (r == p || s'.producers[r].Winner?);
    }
    if r :| r in s.producers && s.producers[r].Published? && !s.producers[p].Published? {
      assert r in s'.producers && s'.producers[r].Published?;
    }
  }

  /** A producer that has published, or has won the flag, is seen. */
  lemma Witnessed<V>(s: State<V>, p: nat)
    requires p in s.producers
    ensures s.producers[p].Published? ==> BetweenPublishAndClaim(s)
    ensures s.producers[p].Winner? ==> Token(s)
  {
  }

  predicate OfProducer<V>(step: Step<V>) {
    !step.ReceiveWakeup? && !step.StartDrain? && !step.StartUnprompted? && !step.Consume?
  }

  /** What a step of one producer leaves alone. */
  lemma ProducerFrame<V>(s: State<V>, step: Step<V>)
    requires RingInv(s) && Enabled(s, step) && OfProducer(step)
    ensures var s' := Apply(s, step);
            && step.p in s.producers && s'.producers == s.producers[step.p := s'.producers[step.p]]
            && s'.waiting == s.waiting && s'.consumer == s.consumer && s'.head == s.head
            && (!step.StoreTurn? ==> s'.turns == s.turns)
            && s'.inFlight == s.inFlight + (if step.SendWakeup? then 1 else 0)
            && s'.working == (s.working || step.ClaimConsumer?)
  {
    hide SlotInv, Exclusive, ProducerInv, ConsumerInv, Slot, Lap;
  }

  /** A step of one producer. */
  lemma ProducerStepKeepsWake<V>(s: State<V>, step: Step<V>, p: nat)
    requires RingInv(s) && WakeInv(s) && Enabled(s, step) && OfProducer(step)
    requires p == step.p
    ensures WakeInv(Apply(s, step))
  {
    hide SlotInv, Exclusive, ProducerInv, ConsumerInv, Slot, Lap, Token, BetweenPublishAndClaim;
    var s' := Apply(s, step);
    ProducerFrame(s, step);
    TokenMoves(s, s', p);
    Witnessed(s', p);
    if step.SendWakeup? { WakeupSent(s'); }
  }

  lemma WakeupSent<V>(s: State<V>)
    requires s.inFlight > 0
    ensures Token(s)
  {
  }

  lemma ConsumerStepKeepsWake<V>(s: State<V>, step: Step<V>)
    requires RingInv(s) && WakeInv(s) && Enabled(s, step) && !OfProducer(step)
    ensures WakeInv(Apply(s, step))
  {
    hide SlotInv, Exclusive, ProducerInv, Slot, Lap;
    var s' := Apply(s, step);
    assert s'.producers == s.producers;
    if step.Consume? { DrainKeepsWake(s); }
  }

  /** A step of a drain: the flag is cleared before the head is looked at again, and set again if it is
      published. */
  lemma DrainKeepsWake<V>(s: State<V>)
    requires RingInv(s) && WakeInv(s) && !s.consumer.Asleep?
    ensures WakeInv(Drain(s))
  {
    hide SlotInv, Exclusive, ProducerInv, Slot, Lap, Token, BetweenPublishAndClaim;
    SameToken(s, Drain(s));
  }

  lemma SameToken<V>(s: State<V>, s': State<V>)
    requires s'.producers == s.producers && s'.inFlight == s.inFlight && s'.waiting == s.waiting
    ensures Token(s') == Token(s) && BetweenPublishAndClaim(s') == BetweenPublishAndClaim(s)
  {
  }

  lemma {:induction false} WakeRun<V>(s: State<V>, steps: seq<Step<V>>)
    requires RingInv(s) && WakeInv(s) && Exec(s, steps).Some?
    ensures RingInv(Exec(s, steps).value) && WakeInv(Exec(s, steps).value)
    decreases |steps|
  {
    if steps != [] {
      var step := steps[0];
      StepKeeps(s, step);
      if OfProducer(step) {
        ProducerStepKeepsWake(s, step, step.p);
      } else {
        ConsumerStepKeepsWake(s, step);
      }
      WakeRun(Apply(s, step), steps[1..]);
    }
  }

  /** In every reachable state with the consumer asleep and no wakeup on its way, a published head
      means some producer has yet to try the flag. */
  lemma NoLostWakeup<V>(start: State<V>, steps: seq<Step<V>>)
    requires Init(start) && Exec(start, steps).Some?
    ensures var s := Exec(start, steps).value;
            s.consumer.Asleep? && !Token(s) && Ready(s, s.head) ==> BetweenPublishAndClaim(s)
  {
    InitInv(start);
    assert WakeInv(start) by { assert Unwritten(start, 0); }
    WakeRun(start, steps);
  }

  /** Once every push has finished its claim and nothing is in flight, a sleeping consumer has
      taken everything that was ever pushed. */
  lemma QuiescentMeansDrained<V>(start: State<V>, steps: seq<Step<V>>)
    requires Init(start) && Exec(start, steps).Some?
    ensures var s := Exec(start, steps).value;
            (s.consumer.Asleep? && s.inFlight == s.waiting == 0 && forall p <- s.producers :: s.producers[p].Idle?)
            ==> s.head == s.tail && s.popped == s.claims
  {
    InitInv(start);
    RunKeeps(start, steps);
    NoLostWakeup(start, steps);
    var s := Exec(start, steps).value;
    if s.consumer.Asleep? && s.inFlight == s.waiting == 0 && forall p <- s.producers :: s.producers[p].Idle? {
      assert !Ready(s, s.head) && !Owned(s, s.head);
    }
  }
}
