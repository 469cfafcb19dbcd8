/** What a reset of a stream does to the order of its bytes. It keeps the order if and only if none of the
    stream's frames is on its way: otherwise a later message, or the close, overtakes them through the
    ring, whatever the two sides were doing. */
module CrossReset {
  import opened Wrappers
  import opened Sequences
  import opened SpecQueue
  import opened BatchList
  import opened CrossChannel
  import opened CrossOrder

  predicate NoResets(steps: seq<Step>) {
    forall i | 0 <= i < |steps| :: !steps[i].Reset?
  }

  /** Steps without a reset lead from one state to the other. */
  ghost predicate Reaches(start: State, st: State) {
    exists steps :: NoResets(steps) && Exec(start, steps) == Some(st)
  }

  lemma {:induction false} ExecAppend(st: State, steps: seq<Step>, more: seq<Step>)
    requires Exec(st, steps).Some?
    ensures Exec(st, steps + more) == Exec(Exec(st, steps).value, more)
    decreases |steps|
  {
    if steps == [] {
      assert steps + more == more;
    } else {
      assert (steps + more)[1..] == steps[1..] + more;
      ExecAppend(Apply(st, steps[0]), steps[1..], more);
    }
  }

  lemma Starts(st: State)
    ensures Reaches(st, st)
  {
    assert NoResets([]) && Exec(st, []) == Some(st);
  }

  lemma Onward(a: State, b: State, c: State)
    requires Reaches(a, b) && Reaches(b, c)
    ensures Reaches(a, c)
  {
    hide Exec;
    var first :| NoResets(first) && Exec(a, first) == Some(b);
    var second :| NoResets(second) && Exec(b, second) == Some(c);
    ExecAppend(a, first, second);
    assert NoResets(first + second);
  }

  lemma OneStep(st: State, step: Step)
    requires Shaped(st) && Enabled(st, step) && !step.Reset?
    ensures Reaches(st, Apply(st, step))
  {
    hide Apply, Enabled;
    assert [step][1..] == [];
    assert Exec(Apply(st, step), []) == Some(Apply(st, step));
    assert NoResets([step]) && Exec(st, [step]) == Some(Apply(st, step));
  }

  lemma Advance(start: State, st: State, step: Step) returns (st': State)
    requires Reaches(start, st) && Shaped(st) && Enabled(st, step) && !step.Reset?
    ensures st' == Apply(st, step) && Reaches(start, st')
  {
    hide Reaches, Apply, Enabled;
    st' := Apply(st, step);
    OneStep(st, step);
    Onward(start, st, st');
  }

  lemma {:induction false} NoResetsIsCareful(st: State, steps: seq<Step>)
    requires NoResets(steps)
    ensures CarefulRun(st, steps)
    decreases |steps|
  {
    hide Apply, Enabled;
    if steps != [] && Shaped(st) && Enabled(st, steps[0]) { NoResetsIsCareful(Apply(st, steps[0]), steps[1..]); }
  }

  // ------------------------------------------------------------------ more about reachable states

  ghost predicate Pushed(st: State, q: nat) {
    exists p :: p in st.senders && st.senders[p].phase == Pushing(q)
  }

  /** Every claimed position that is not published has a sender that will publish it. */
  ghost predicate Pushers(st: State) {
    forall q: nat | q < |st.queue.ready| && !st.queue.ready[q] :: Pushed(st, q)
  }

  predicate Full(e: Event) { e.Frame? ==> e.bytes != [] }

  /** No frame is empty. */
  ghost predicate FullFrames(st: State) {
    (st.reader.Some? ==> Full(st.reader.value)) && forall i | 0 <= i < |st.socket| :: Full(st.socket[i])
  }

  ghost predicate Sound(st: State) {
    Inv(st) && Pushers(st) && FullFrames(st) && st.queue.cap > 0
  }

  /** What the receiver does changes no sender and no entry of the ring. */
  lemma ReceiverFrame(st: State, step: Step)
    requires Shaped(st) && Enabled(st, step) && !OfSender(step)
    ensures var st' := Apply(st, step);
            && st'.senders == st.senders && st'.queue == st.queue.(taken := st'.queue.taken)
            && (step.TakeEvent? || (st'.socket == st.socket && (st'.reader == st.reader || st'.reader.None?)))
  {
    hide FlushOf, SendFrameOf, CloseOf, Reserve, Claim, DeliverAll, Deliver, HalfClose, Join;
  }

  /** Senders that are pushing go on pushing, unless they publish. */
  lemma PushingStays(st: State, step: Step, p: nat)
    requires Shaped(st) && Enabled(st, step) && OfSender(step) && p in st.senders && st.senders[p].phase.Pushing?
    requires !(step.Publish? && step.s == p)
    ensures Apply(st, step).senders[p].phase == st.senders[p].phase
  {
    hide Claim;
  }

  /** A position is claimed by a sender that then pushes it, and published by the one that does. */
  lemma ReadyFrame(st: State, step: Step)
    requires Shaped(st) && Enabled(st, step) && OfSender(step)
    ensures var st' := Apply(st, step);
            || (!step.Publish? && st'.queue == st.queue)
            || (step.Publish? && step.s in st.senders && st.senders[step.s].phase.Pushing?
                && st.senders[step.s].phase.position < |st.queue.ready| && st'.queue == st.queue.(ready := st.queue.ready[st.senders[step.s].phase.position := true]))
            || ((step.Flush? || step.CloseStream?) && st'.queue.ready == st.queue.ready + [false]
                && st'.queue.cap == st.queue.cap && step.s in st'.senders && st'.senders[step.s].phase == Pushing(|st.queue.ready|))
  {
    hide Reserve;
  }

  lemma PushersStay(st: State, step: Step)
    requires Shaped(st) && Enabled(st, step) && Pushers(st)
    ensures Pushers(Apply(st, step)) && Apply(st, step).queue.cap == st.queue.cap
  {
    hide Apply, Enabled, Shaped;
    var st' := Apply(st, step);
    if !OfSender(step) {
      ReceiverFrame(st, step);
      assert forall q: nat :: Pushed(st', q) == Pushed(st, q);
    } else {
      ReadyFrame(st, step);
      forall q: nat | q < |st'.queue.ready| && !st'.queue.ready[q] ensures Pushed(st', q) {
        if q < |st.queue.ready| {
          assert Pushed(st, q);
          var p :| p in st.senders && st.senders[p].phase == Pushing(q);
          PushingStays(st, step, p);
        } else {
          assert st'.senders[step.s].phase == Pushing(q);
        }
      }
    }
  }

  /** What a sender puts on the socket. */
  lemma SocketFrame(st: State, step: Step)
    requires Shaped(st) && Enabled(st, step) && OfSender(step)
    ensures var st' := Apply(st, step);
            st'.reader == st.reader && (st'.socket == st.socket || exists e :: Full(e) && st'.socket == st.socket + [e])
  {
    hide Claim, Reserve;
    if step.SendFrame? {
      assert Full(Frame(step.s, st.senders[step.s].phase.rest[..step.n]));
    } else {
      assert Full(Polling) && (step.CloseStream? ==> Full(StreamClose(step.s)));
    }
  }

  lemma FramesStayFull(st: State, step: Step)
    requires Shaped(st) && Enabled(st, step) && FullFrames(st)
    ensures FullFrames(Apply(st, step))
  {
    if OfSender(step) {
      hide Apply, Enabled, Shaped;
      SocketFrame(st, step);
    } else if !step.TakeEvent? {
      hide Apply, Enabled, Shaped;
      ReceiverFrame(st, step);
    } else {
      TakenIsFull(st);
    }
  }

  lemma TakenIsFull(st: State)
    requires Shaped(st) && Enabled(st, TakeEvent) && FullFrames(st)
    ensures FullFrames(Apply(st, TakeEvent))
  {
  }

  lemma SoundStep(st: State, step: Step)
    requires Sound(st) && Enabled(st, step) && Careful(st, step)
    ensures Sound(Apply(st, step))
  {
    hide Inv, Pushers, FullFrames, Apply, Enabled, Careful;
    InvIsShaped(st);
    StepKeeps(st, step);
    PushersStay(st, step);
    FramesStayFull(st, step);
  }

  lemma InvIsShaped(st: State)
    requires Inv(st)
    ensures Shaped(st)
  {
  }

  lemma {:induction false} SoundRun(st: State, steps: seq<Step>)
    requires Sound(st) && Exec(st, steps).Some? && CarefulRun(st, steps)
    ensures Sound(Exec(st, steps).value)
    decreases |steps|
  {
    hide Sound, Apply, Careful, Enabled;
    if steps != [] {
      SoundStep(st, steps[0]);
      SoundRun(Apply(st, steps[0]), steps[1..]);
    }
  }

  lemma InitSound(st: State)
    requires Init(st) && st.queue.cap > 0
    ensures Sound(st)
  {
    InitInv(st);
  }

  /** With no empty frame, a stream has a frame on its way exactly when it has bytes on the socket. */
  lemma FramesAreBytes(st: State, s: nat)
    requires FullFrames(st)
    ensures NoFrames(st, s) <==> OnSocket(st, s) == []
  {
    if NoFrames(st, s) {
      NoFramesNoBytes(st, s);
    } else if i :| 0 <= i < |st.socket| && IsFrame(st.socket[i], s) {
      FrameIsBytes(st.socket, s, i);
    }
  }

  lemma {:induction false} FrameIsBytes(es: seq<Event>, s: nat, i: nat)
    requires i < |es| && IsFrame(es[i], s) && Full(es[i])
    ensures SocketBytes(es, s) != []
    decreases i
  {
    if i > 0 { FrameIsBytes(es[1..], s, i - 1); }
  }

  /** What one would want of a reset: the invariant survives it exactly when it is careful. */
  lemma ResetKeepsInvIff(st: State, s: nat)
    requires Inv(st) && Enabled(st, Reset(s))
    ensures Inv(Apply(st, Reset(s))) <==> Careful(st, Reset(s))
  {
    hide StreamInv;
    var st' := Apply(st, Reset(s));
    if Careful(st, Reset(s)) { StepKeeps(st, Reset(s)); }
    if Inv(st') {
      assert StreamInv(st', s);
      NotFramedMeansNone(st', s);
      assert st'.reader == st.reader && st'.socket == st.socket;
    }
  }

  lemma NotFramedMeansNone(st: State, s: nat)
    requires Shaped(st) && s in st.senders && StreamInv(st, s) && !st.senders[s].framed
    ensures NoFrames(st, s)
  {
  }

  // ------------------------------------------------------------------ the run that loses the order

  /** The steps of a drain: they look at nothing a reset changes. */
  predicate Draws(step: Step, s: nat) {
    step.LockForWake? || step.Resume? || step.Pop? || (step.Publish? && step.s != s)
  }

  /** What a reset leaves. */
  function Cleaned(st: State, s: nat): State
    requires s in st.senders
  {
    Put(st, s, st.senders[s].(inFallback := false, framed := false))
  }

  lemma ResetCommutes(st: State, s: nat, step: Step)
    requires Shaped(st) && Enabled(st, Reset(s)) && Enabled(st, step) && Draws(step, s)
    ensures Enabled(Apply(st, Reset(s)), step) && Enabled(Apply(st, step), Reset(s))
    ensures Apply(Apply(st, Reset(s)), step) == Apply(Apply(st, step), Reset(s))
  {
    hide Apply;
    assert Apply(st, Reset(s)) == Cleaned(st, s) by { ResetCleans(st, s); }
    if step.Publish? {
      PublishCommutes(st, s, step.s);
    } else if step.Pop? {
      PopCommutes(st, s);
    } else {
      LockCommutes(st, s, step);
    }
    ResetCleans(Apply(st, step), s);
  }

  lemma ResetCleans(st: State, s: nat)
    requires Shaped(st) && Enabled(st, Reset(s))
    ensures Apply(st, Reset(s)) == Cleaned(st, s)
  {
  }

  lemma PublishCommutes(st: State, s: nat, p: nat)
    requires Shaped(st) && Enabled(st, Reset(s)) && Enabled(st, Publish(p)) && p != s
    ensures Enabled(Cleaned(st, s), Publish(p)) && Enabled(Apply(st, Publish(p)), Reset(s))
    ensures Apply(Cleaned(st, s), Publish(p)) == Cleaned(Apply(st, Publish(p)), s)
  {
    var me, other := st.senders[s].(inFallback := false, framed := false), st.senders[p].(phase := Ready);
    assert st.senders[s := me][p := other] == st.senders[p := other][s := me];
  }

  lemma PopCommutes(st: State, s: nat)
    requires Shaped(st) && Enabled(st, Reset(s)) && Enabled(st, Pop)
    ensures Enabled(Cleaned(st, s), Pop) && Enabled(Apply(st, Pop), Reset(s))
    ensures Apply(Cleaned(st, s), Pop) == Cleaned(Apply(st, Pop), s)
  {
    hide DeliverAll, Deliver, HalfClose, Join;
    assert Apply(st, Pop) == PopOf(st) && Apply(Cleaned(st, s), Pop) == PopOf(Cleaned(st, s));
  }

  lemma LockCommutes(st: State, s: nat, step: Step)
    requires Shaped(st) && Enabled(st, Reset(s)) && Enabled(st, step) && (step.LockForWake? || step.Resume?)
    ensures Enabled(Cleaned(st, s), step) && Enabled(Apply(st, step), Reset(s))
    ensures Apply(Cleaned(st, s), step) == Cleaned(Apply(st, step), s)
  {
  }

  /** The stream is about to be reset, and is neither closed nor half closed. */
  predicate AtReset(st: State, s: nat) {
    Shaped(st) && Enabled(st, Reset(s)) && s in st.status && st.status[s].Open?
  }

  /** Nothing of what a reset goes by has changed. */
  predicate SameFor(st: State, end: State, s: nat) {
    && AtReset(end, s) && s in st.senders && s in end.senders && end.senders[s] == st.senders[s]
    && end.socket == st.socket && end.reader == st.reader
  }

  lemma DrawKeeps(st: State, s: nat, step: Step)
    requires Sound(st) && AtReset(st, s) && Enabled(st, step) && Draws(step, s)
    ensures Sound(Apply(st, step)) && SameFor(st, Apply(st, step), s)
  {
    hide Sound, SameFor, Apply;
    SoundStep(st, step);
    if step.Pop? { NotItsClose(st, s); }
    DrawFrame(st, s, step);
  }

  lemma DrawFrame(st: State, s: nat, step: Step)
    requires AtReset(st, s) && Enabled(st, step) && Draws(step, s)
    requires step.Pop? ==> st.queue.entries[st.queue.taken] != Close(s)
    ensures SameFor(st, Apply(st, step), s)
  {
    hide DeliverAll, Deliver, Join;
  }

  lemma NotItsClose(st: State, s: nat)
    requires Sound(st) && AtReset(st, s) && HeadReady(st.queue)
    ensures st.queue.entries[st.queue.taken] != Close(s)
  {
    hide RingBytes, Sticky, SocketCloses, Accounted, Cleared, Pushers, FullFrames;
    assert StreamInv(st, s);
    assert RingCloses(st, s);
  }

  /** The next step of a drain that is not over. */
  lemma NextDraw(st: State, s: nat) returns (step: Step)
    requires Sound(st) && AtReset(st, s) && (st.lock.Free? || st.queue.taken < |st.queue.entries|)
    ensures Enabled(st, step) && Draws(step, s)
    ensures st.lock.Free? ==> step.LockForWake?
    ensures !st.lock.Free? ==>
              if !HeadReady(st.queue) then step.Publish? && st.senders[step.s].phase == Pushing(st.queue.taken)
              else if st.lock.Drained? then step.Resume? else step.Pop?
  {
    hide Inv;
    if st.lock.Free? { return LockForWake; }
    if !HeadReady(st.queue) {
      assert Pushed(st, st.queue.taken);
      var p :| p in st.senders && st.senders[p].phase == Pushing(st.queue.taken);
      return Publish(p);
    }
    if st.lock.Drained? { return Resume; }
    return Pop;
  }

  /** Whatever is under way, the receiver can take everything there is in the ring. */
  lemma {:induction false} DrainRuns(st: State, s: nat) returns (end: State)
    requires Sound(st) && AtReset(st, s)
    ensures Sound(end) && SameFor(st, end, s) && end.queue.taken == |end.queue.entries| && !end.lock.Free?
    ensures Reaches(Apply(st, Reset(s)), Apply(end, Reset(s)))
    decreases |st.queue.entries| - st.queue.taken, if HeadReady(st.queue) then 0 else 1,
              if st.lock.Free? || st.lock.Drained? then 1 else 0
  {
    hide Sound, Reaches, DeliverAll, Deliver, Join, HalfClose;
    if !st.lock.Free? && st.queue.taken == |st.queue.entries| {
      Starts(Apply(st, Reset(s)));
      return st;
    }
    var step := NextDraw(st, s);
    var next := Apply(st, step);
    DrawKeeps(st, s, step);
    ResetCommutes(st, s, step);
    OneStep(Apply(st, Reset(s)), step);
    end := DrainRuns(next, s);
    Onward(Apply(st, Reset(s)), Apply(next, Reset(s)), Apply(end, Reset(s)));
  }

  /** The ring is empty and the queue lock is taken. */
  predicate Emptied(st: State) {
    st.queue.taken == |st.queue.entries| && !st.lock.Free?
  }

  /** One element of stream `s`, alone in the ring, is published. */
  predicate Alone(st: State, s: nat, e: Element) {
    && Shaped(st) && |st.queue.entries| == st.queue.taken + 1 && st.queue.entries[st.queue.taken] == e && HeadReady(st.queue)
    && !st.lock.Free? && s in st.senders && st.senders[s].phase.Ready?
  }

  /** A claim just made is published, and the drain goes on if it had ended. */
  lemma PublishAlone(start: State, st: State, s: nat, e: Element) returns (end: State)
    requires Reaches(start, st) && Shaped(st) && s in st.senders && !st.lock.Free?
    requires |st.queue.entries| == st.queue.taken + 1 && st.queue.entries[st.queue.taken] == e
    requires st.senders[s].phase == Pushing(st.queue.taken)
    ensures Reaches(start, end) && Alone(end, s, e) && Draining(end)
    ensures end.senders[s] == st.senders[s].(phase := Ready) && end.batches == st.batches
    ensures end.status == st.status && end.delivered == st.delivered
  {
    hide Reaches;
    end := Advance(start, st, Publish(s));
    if end.lock.Drained? { end := Advance(start, end, Resume); }
  }

  /** What a stream has received once the batches are flushed and before the socket is looked at. */
  ghost function Received(st: State, s: nat): Bytes
    requires s in st.delivered
  {
    st.delivered[s] + Waiting(st.batches, s)
  }

  /** With the ring empty, what has been sent and not been received is on the socket. */
  lemma RestIsOnSocket(st: State, s: nat)
    requires Sound(st) && AtReset(st, s) && Emptied(st)
    ensures Received(st, s) + OnSocket(st, s) == st.senders[s].sent
  {
    assert StreamInv(st, s);
    assert st.queue.entries[st.queue.taken..] == [];
    assert InRing(st, s) == Waiting(st.batches, s);
    Associative(st.delivered[s], Waiting(st.batches, s), OnSocket(st, s));
  }

  /** The close overtakes the frames: the stream sees it without their bytes. */
  lemma CloseOvertakes(st: State, s: nat) returns (end: State)
    requires Sound(st) && AtReset(st, s) && Emptied(st) && OnSocket(st, s) != []
    ensures Reaches(Apply(st, Reset(s)), end) && s in end.status && s in end.delivered && s in end.senders
    ensures end.status[s].HalfClosed? && end.delivered[s] != end.senders[s].sent
  {
    hide Reaches, Sound, DeliverAll, OnSocket, Waiting;
    RestIsOnSocket(st, s);
    var start := Apply(st, Reset(s));
    Starts(start);
    SoundBatches(st);
    end := Advance(start, start, CloseStream(s, true));
    end := PublishAlone(start, end, s, Close(s));
    DeliverAllSpec(end.status, end.delivered, end.batches, s);
    end := Advance(start, end, Pop);
  }

  lemma SoundBatches(st: State)
    requires Sound(st)
    ensures st.queue.cap > 0 && Unique(st.batches)
  {
  }

  /** A message goes into the ring. */
  lemma MessageHandedOver(st: State, s: nat, data: Bytes) returns (end: State)
    requires Shaped(st) && Emptied(st) && st.queue.cap > 0 && s in st.senders && data != []
    requires st.senders[s].buffered.Empty? && !st.senders[s].inFallback && st.senders[s].phase.Ready? && !st.senders[s].closed
    ensures Reaches(st, end) && Alone(end, s, Data(s, data)) && Draining(end)
    ensures end.senders[s].sent == st.senders[s].sent + data && end.batches == st.batches
    ensures end.status == st.status && end.delivered == st.delivered
  {
    hide Reaches;
    Starts(st);
    end := Advance(st, st, Write(s, data, true));
    assert [] + data == data;
    end := Advance(st, end, Flush(s));
    end := PublishAlone(st, end, s, Data(s, data));
  }

  /** And is delivered. */
  lemma MessageDelivered(st: State, s: nat, data: Bytes) returns (end: State)
    requires Alone(st, s, Data(s, data)) && Draining(st) && Unique(st.batches) && s in st.status && st.status[s].Open?
    ensures Reaches(st, end) && s in end.status && end.status[s].Open? && s in end.delivered && s in end.senders
    ensures end.delivered[s] == st.delivered[s] + (Waiting(st.batches, s) + data) && end.senders[s].sent == st.senders[s].sent
  {
    hide Reaches, DeliverAll, Waiting, Join, Unique;
    Starts(st);
    JoinAppends(st.batches, s, data, s);
    end := Advance(st, st, Pop);
    DeliverAllSpec(end.status, end.delivered, end.batches, s);
    end := Advance(st, end, FlushBatches);
  }

  /** A message written after the reset overtakes the frames: what is delivered is no prefix of what was
      handed over. */
  lemma MessageOvertakes(st: State, s: nat) returns (end: State)
    requires Sound(st) && AtReset(st, s) && Emptied(st) && OnSocket(st, s) != [] && st.senders[s].buffered.Empty?
    ensures Reaches(Apply(st, Reset(s)), end) && s in end.status && s in end.delivered && s in end.senders
    ensures end.status[s].Open? && !(end.delivered[s] <= end.senders[s].sent)
  {
    hide Reaches, Sound, DeliverAll, OnSocket, Waiting, Join, Unique;
    RestIsOnSocket(st, s);
    SoundBatches(st);
    var start := Apply(st, Reset(s));
    var data: Bytes := [OnSocket(st, s)[0] + 1];
    var handed := MessageHandedOver(start, s, data);
    end := MessageDelivered(handed, s, data);
    Onward(start, handed, end);
    Overtaken(st.delivered[s], Waiting(st.batches, s), OnSocket(st, s), data);
  }

  lemma Overtaken(delivered: Bytes, waiting: Bytes, rest: Bytes, data: Bytes)
    requires rest != [] && data != [] && data[0] != rest[0]
    ensures !(delivered + (waiting + data) <= delivered + waiting + rest + data)
  {
    var got, sent := delivered + (waiting + data), delivered + waiting + rest + data;
    var i := |delivered + waiting|;
    assert got[i] == data[0] && sent[i] == rest[0];
  }

  /** The stream has received a prefix of what was handed over, and has seen the close only behind all of
      it. */
  ghost predicate InOrder(st: State, s: nat) {
    && s in st.senders && s in st.status && s in st.delivered
    && (!st.status[s].LocallyClosed? ==> st.delivered[s] <= st.senders[s].sent)
    && (st.status[s].HalfClosed? ==> st.senders[s].closed && st.delivered[s] == st.senders[s].sent)
  }

  /** Every run that goes on from here, with careful resets, is in order for stream `s`. */
  ghost predicate StaysInOrder(st: State, s: nat) {
    forall steps | Exec(st, steps).Some? && CarefulRun(st, steps) :: InOrder(Exec(st, steps).value, s)
  }

  lemma {:induction false} SendersStay(st: State, steps: seq<Step>)
    requires Shaped(st) && Exec(st, steps).Some?
    ensures Exec(st, steps).value.senders.Keys == st.senders.Keys
    decreases |steps|
  {
    hide Apply, Enabled;
    if steps != [] { SendersStay(Apply(st, steps[0]), steps[1..]); }
  }

  lemma InvStaysInOrder(st: State, s: nat)
    requires Inv(st) && s in st.senders
    ensures StaysInOrder(st, s)
  {
    hide Exec, CarefulRun, StreamInv;
    forall steps | Exec(st, steps).Some? && CarefulRun(st, steps) ensures InOrder(Exec(st, steps).value, s) {
      RunKeeps(st, steps);
      SendersStay(st, steps);
      AccountedInOrder(Exec(st, steps).value, s);
    }
  }

  lemma AccountedInOrder(st: State, s: nat)
    requires Inv(st) && s in st.senders
    ensures InOrder(st, s)
  {
    assert StreamInv(st, s);
  }

  lemma ReachedIsInOrder(st: State, end: State, s: nat)
    requires StaysInOrder(st, s) && Reaches(st, end)
    ensures InOrder(end, s)
  {
    hide Exec, CarefulRun, InOrder;
    var steps :| NoResets(steps) && Exec(st, steps) == Some(end);
    NoResetsIsCareful(st, steps);
  }

  /** In every reachable state, whatever either side is doing: resetting an open stream keeps its bytes in
      order for good if and only if no frame of it is on its way. */
  lemma ResetIsSafeIff(start: State, steps: seq<Step>, s: nat)
    requires Init(start) && start.queue.cap > 0 && Exec(start, steps).Some? && CarefulRun(start, steps)
    requires AtReset(Exec(start, steps).value, s)
    ensures var st := Exec(start, steps).value; StaysInOrder(Apply(st, Reset(s)), s) <==> Careful(st, Reset(s))
  {
    hide Sound, Exec, CarefulRun, StaysInOrder, Reaches, Init, Apply, Enabled, OnSocket, NoFrames;
    InitSound(start);
    SoundRun(start, steps);
    var st := Exec(start, steps).value;
    if Careful(st, Reset(s)) {
      SafeIfCareful(st, s);
    } else {
      var end := LostUnlessCareful(st, s);
      if StaysInOrder(Apply(st, Reset(s)), s) { ReachedIsInOrder(Apply(st, Reset(s)), end, s); }
    }
  }

  lemma SafeIfCareful(st: State, s: nat)
    requires Sound(st) && AtReset(st, s) && Careful(st, Reset(s))
    ensures StaysInOrder(Apply(st, Reset(s)), s)
  {
    hide StreamInv, StaysInOrder;
    StepKeeps(st, Reset(s));
    InvStaysInOrder(Apply(st, Reset(s)), s);
  }

  lemma LostUnlessCareful(st: State, s: nat) returns (end: State)
    requires Sound(st) && AtReset(st, s) && !Careful(st, Reset(s))
    ensures Reaches(Apply(st, Reset(s)), end) && !InOrder(end, s)
  {
    hide StreamInv, Reaches, Apply, Enabled, OnSocket;
    var emptied := DrainRuns(st, s);
    FramesAreBytes(emptied, s);
    end := CloseOvertakes(emptied, s);
    Onward(Apply(st, Reset(s)), Apply(emptied, Reset(s)), end);
  }

  /** And with nothing half written the bytes themselves come out of order. */
  lemma ResetReordersBytes(st: State, s: nat) returns (end: State)
    requires Sound(st) && AtReset(st, s) && !Careful(st, Reset(s)) && st.senders[s].buffered.Empty?
    ensures Reaches(Apply(st, Reset(s)), end) && s in end.status && s in end.delivered && s in end.senders
    ensures end.status[s].Open? && !(end.delivered[s] <= end.senders[s].sent)
  {
    hide StreamInv, Reaches, Apply, Enabled, OnSocket;
    var emptied := DrainRuns(st, s);
    FramesAreBytes(emptied, s);
    end := MessageOvertakes(emptied, s);
    Onward(Apply(st, Reset(s)), Apply(emptied, Reset(s)), end);
  }

  /** One stream over a ring of one slot. */
  function One(me: Sender, queue: Queue<Element>, socket: seq<Event>, lock: Lock, batches: seq<Batch<nat, nat>>,
               delivered: Bytes): State {
    State(map[1 := me], queue, socket, None, lock, batches, map[1 := Open], map[1 := delivered])
  }

  const FRESH := One(Sender(Empty, false, false, Ready, false, []), Queue(1, [], [], 0), [], Free, [], [])
  const FRAMED := One(Sender(Empty, true, true, Ready, false, [1]), Queue(1, [], [], 0), [Frame(1, [1])], Free, [], [])
  const SPILLED := One(Sender(Heap([1]), false, false, Ready, false, []), Queue(1, [], [], 0), [], Free, [], [])
  const SENDING := One(Sender(Empty, true, true, Framing([1]), false, []), Queue(1, [], [], 0), [], Free, [], [])

  lemma ReachSending()
    ensures Reaches(FRESH, SENDING)
  {
    hide Reaches, Exec;
    Starts(FRESH);
    var none: Bytes, sent: Bytes := [], [1];
    var st := Advance(FRESH, FRESH, Write(1, [1], false));
    assert none + sent == sent;
    assert st == SPILLED;
    st := Advance(FRESH, SPILLED, Flush(1));
    assert st == SENDING;
  }

  lemma ReachFramed()
    ensures Reaches(FRESH, FRAMED)
  {
    hide Reaches, Exec;
    ReachSending();
    var none: Bytes, sent: Bytes := [], [1];
    var st := Advance(FRESH, SENDING, SendFrame(1, 1));
    assert sent[..1] == sent && sent[1..] == none && none + sent == sent && SENDING.socket + [Frame(1, sent)] == [Frame(1, sent)];
    assert st == FRAMED;
  }

  /** An instance: one stream, one frame on the socket, and a reset after which a byte written later is
      delivered first. */
  lemma ResetReorders()
    ensures Init(FRESH) && Reaches(FRESH, FRAMED) && AtReset(FRAMED, 1) && !Careful(FRAMED, Reset(1))
    ensures exists st :: Reaches(Apply(FRAMED, Reset(1)), st) && 1 in st.status && st.status[1].Open? && 1 in st.senders
                         && 1 in st.delivered && !(st.delivered[1] <= st.senders[1].sent)
  {
    hide Reaches, Exec, Sound;
    ReachFramed();
    assert IsFrame(FRAMED.socket[0], 1);
    InitSound(FRESH);
    ReachedIsSound(FRESH, FRAMED);
    var end := ResetReordersBytes(FRAMED, 1);
  }

  lemma ReachedIsSound(start: State, st: State)
    requires Sound(start) && Reaches(start, st)
    ensures Sound(st)
  {
    hide Sound, Exec, CarefulRun;
    var steps :| NoResets(steps) && Exec(start, steps) == Some(st);
    NoResetsIsCareful(start, steps);
    SoundRun(start, steps);
  }
}
