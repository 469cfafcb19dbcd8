/** The bytes a stream delivers are a prefix of the bytes handed over, whatever mix of ring and
    socket carried them. */
module CrossOrder {
  import opened Wrappers
  import opened Sequences
  import opened BatchList
  import opened CrossChannel

  function ElementBytes(e: Element, s: nat): Bytes {
    if e.Data? && e.stream == s then e.bytes else []
  }

  function RingBytes(es: seq<Element>, s: nat): Bytes {
    if es == [] then [] else ElementBytes(es[0], s) + RingBytes(es[1..], s)
  }

  function EventBytes(e: Event, s: nat): Bytes {
    if e.Frame? && e.stream == s then e.bytes else []
  }

  function SocketBytes(es: seq<Event>, s: nat): Bytes {
    if es == [] then [] else EventBytes(es[0], s) + SocketBytes(es[1..], s)
  }

  function ReaderBytes(r: Option<Event>, s: nat): Bytes {
    if r.Some? then EventBytes(r.value, s) else []
  }

  /** What the receiver has popped or has still to pop from the ring, for stream `s`. */
  function InRing(st: State, s: nat): Bytes
    requires Shaped(st)
  {
    Waiting(st.batches, s) + RingBytes(st.queue.entries[st.queue.taken..], s)
  }

  /** What is on its way over the socket for stream `s`. */
  function OnSocket(st: State, s: nat): Bytes {
    ReaderBytes(st.reader, s) + SocketBytes(st.socket, s)
  }

  lemma {:induction false} RingAppend(es: seq<Element>, e: Element, s: nat)
    ensures RingBytes(es + [e], s) == RingBytes(es, s) + ElementBytes(e, s)
  {
    if es != [] {
      assert (es + [e])[1..] == es[1..] + [e];
      RingAppend(es[1..], e, s);
    }
  }

  lemma {:induction false} SocketAppend(es: seq<Event>, e: Event, s: nat)
    ensures SocketBytes(es + [e], s) == SocketBytes(es, s) + EventBytes(e, s)
  {
    if es != [] {
      assert (es + [e])[1..] == es[1..] + [e];
      SocketAppend(es[1..], e, s);
    }
  }

  lemma {:induction false} DeliverAllSpec(status: map<nat, Status>, delivered: map<nat, Bytes>, bs: seq<Batch<nat, nat>>, t: nat)
    requires t in delivered && t in status
    ensures DeliverAll(status, delivered, bs)[t]
         == if status[t].Open? then delivered[t] + Waiting(bs, t) else delivered[t]
  {
    if bs != [] {
      var first, rest := bs[0], bs[1..];
      var next := Deliver(status, delivered, first.key, first.items);
      DeliverAllSpec(status, next, rest, t);
      if first.key == t && status[t].Open? {
        assert next[t] == delivered[t] + first.items && Waiting(bs, t) == first.items + Waiting(rest, t);
        Associative(delivered[t], first.items, Waiting(rest, t));
      } else {
        assert next[t] == delivered[t];
        assert first.key != t ==> Waiting(bs, t) == [] + Waiting(rest, t);
      }
    }
  }

  // ------------------------------------------------------------------ the invariant

  /** A close in the ring comes after all of the stream's data, and its stream never framed. */
  ghost predicate RingCloses(st: State, s: nat)
    requires Shaped(st) && s in st.senders
  {
    forall i | st.queue.taken <= i < |st.queue.entries| && st.queue.entries[i] == Close(s) ::
      st.senders[s].closed && !st.senders[s].framed && RingBytes(st.queue.entries[i + 1..], s) == []
  }

  /** A close on the socket comes after all of the stream's frames. */
  ghost predicate SocketCloses(st: State, s: nat)
    requires s in st.senders
  {
    && (forall i | 0 <= i < |st.socket| && st.socket[i] == StreamClose(s) ::
          st.senders[s].closed && SocketBytes(st.socket[i + 1..], s) == [])
    && (st.reader == Some(StreamClose(s)) ==> st.senders[s].closed && SocketBytes(st.socket, s) == [])
  }

  predicate IsFrame(e: Event, s: nat) { e.Frame? && e.stream == s }

  /** No frame of the stream is on its way. */
  ghost predicate NoFrames(st: State, s: nat) {
    && (st.reader.Some? ==> !IsFrame(st.reader.value, s))
    && forall i | 0 <= i < |st.socket| :: !IsFrame(st.socket[i], s)
  }

  lemma {:induction false} NoFrameBytes(es: seq<Event>, s: nat)
    requires forall i | 0 <= i < |es| :: !IsFrame(es[i], s)
    ensures SocketBytes(es, s) == []
  {
    if es != [] { NoFrameBytes(es[1..], s); }
  }

  lemma NoFramesNoBytes(st: State, s: nat)
    requires NoFrames(st, s)
    ensures OnSocket(st, s) == []
  {
    NoFrameBytes(st.socket, s);
  }

  /** Falling back is sticky, and only a stream that fell back has frames on their way. */
  ghost predicate Sticky(st: State, s: nat)
    requires s in st.senders
  {
    var me := st.senders[s];
    && (me.framed ==> me.inFallback && !me.buffered.Shm?)
    && (!me.framed ==> NoFrames(st, s) && !me.phase.Framing?)
    && (me.closed ==> !me.phase.Framing? && me.buffered.Empty?)
  }

  /** The event about to be delivered is one of stream `s`. */
  predicate EventOf(st: State, s: nat) {
    st.reader.Some? && !st.reader.value.Polling? && st.reader.value.stream == s
  }

  /** Once the barrier has seen the ring empty, nothing of the event's stream is in the ring, whatever
      other streams have claimed since. */
  ghost predicate Cleared(st: State, s: nat)
    requires Shaped(st)
  {
    st.lock.Drained? && EventOf(st, s) ==> InRing(st, s) == []
  }

  ghost predicate Accounted(st: State, s: nat)
    requires Shaped(st) && s in st.senders
  {
    && (!st.status[s].LocallyClosed? ==> st.delivered[s] + (InRing(st, s) + OnSocket(st, s)) == st.senders[s].sent)
    && (st.status[s].HalfClosed? ==> st.senders[s].closed && InRing(st, s) == [] && OnSocket(st, s) == [])
  }

  ghost predicate StreamInv(st: State, s: nat)
    requires Shaped(st) && s in st.senders
  {
    Sticky(st, s) && RingCloses(st, s) && SocketCloses(st, s) && Accounted(st, s) && Cleared(st, s)
  }

  ghost predicate Inv(st: State) {
    && Shaped(st) && Unique(st.batches) && (st.lock.Drained? ==> st.batches == [] && st.reader.Some?)
    && forall s <- st.senders :: StreamInv(st, s)
  }

  lemma InitInv(st: State)
    requires Init(st)
    ensures Inv(st)
  {
  }

  /** With the ring as it was, a sender may close or fall back, but not reopen. */
  lemma RingClosesFrame(st: State, st': State, t: nat)
    requires Shaped(st) && Shaped(st') && t in st.senders && t in st'.senders && RingCloses(st, t)
    requires st'.queue.entries == st.queue.entries && st.queue.taken <= st'.queue.taken
    requires st.senders[t].closed ==> st'.senders[t].closed && (st'.senders[t].framed ==> st.senders[t].framed)
    ensures RingCloses(st', t)
  {
  }

  lemma SocketClosesFrame(st: State, st': State, t: nat)
    requires t in st.senders && t in st'.senders && SocketCloses(st, t) && st'.socket == st.socket
    requires st'.reader == st.reader || st'.reader.None?
    requires st.senders[t].closed ==> st'.senders[t].closed
    ensures SocketCloses(st', t)
  {
  }

  /** Steps that change one sender's buffer, flags or phase and neither channel. */
  lemma LocalKeeps(st: State, st': State, s: nat, t: nat)
    requires Shaped(st) && s in st.senders && s in st'.senders && t in st.senders && StreamInv(st, t)
    requires st' == Put(st, s, st'.senders[s])
    requires var me, me' := st.senders[s], st'.senders[s];
             me'.sent == me.sent && me'.closed == me.closed && (me'.framed && !me.framed ==> !me.closed)
    requires t == s ==> Sticky(st', s)
    ensures StreamInv(st', t)
  {
    hide RingBytes, SocketBytes, Waiting, RingCloses, SocketCloses;
    assert InRing(st', t) == InRing(st, t) && OnSocket(st', t) == OnSocket(st, t);
    RingClosesFrame(st, st', t);
    SocketClosesFrame(st, st', t);
  }

  /** Claiming a ring position for an element of `s`. */
  lemma ClaimKeeps(st: State, st': State, s: nat, e: Element, t: nat)
    requires Shaped(st) && s in st.senders && s in st'.senders && t in st.senders && e.stream == s
    requires StreamInv(st, t) && !st.senders[s].closed && !st.senders[s].framed
    requires st' == Put(st, s, st'.senders[s]).(queue := Claim(st.queue, e))
    requires var me, me' := st.senders[s], st'.senders[s];
             && me'.phase.Pushing? && me'.buffered.Empty? && !me'.framed
             && me'.sent == me.sent + ElementBytes(e, s) && me'.closed == e.Close?
    ensures StreamInv(st', t)
  {
    hide RingBytes, SocketBytes, Waiting, RingCloses, SocketCloses;
    var es, k := st.queue.entries, st.queue.taken;
    assert st'.queue.entries[k..] == es[k..] + [e];
    RingAppend(es[k..], e, t);
    ClaimKeepsCloses(st, st', s, e, t);
    SocketClosesFrame(st, st', t);
    assert InRing(st', t) == InRing(st, t) + ElementBytes(e, t);
    assert OnSocket(st', t) == OnSocket(st, t);
    if t == s {
      NoFramesNoBytes(st, s);
      NotItsEvent(st, s);
    }
  }

  /** A stream that may still use the ring is not the one whose event is about to be delivered. */
  lemma NotItsEvent(st: State, s: nat)
    requires s in st.senders && Sticky(st, s) && SocketCloses(st, s) && !st.senders[s].closed && !st.senders[s].framed
    ensures !EventOf(st, s)
  {
  }

  lemma ClaimKeepsCloses(st: State, st': State, s: nat, e: Element, t: nat)
    requires Shaped(st) && Shaped(st') && s in st.senders && t in st.senders && e.stream == s && RingCloses(st, t)
    requires !st.senders[s].closed && s in st'.senders && st' == Put(st, s, st'.senders[s]).(queue := Claim(st.queue, e))
    requires e.Close? ==> st'.senders[s].closed && !st'.senders[s].framed
    ensures RingCloses(st', t)
  {
    var es, es' := st.queue.entries, st'.queue.entries;
    forall i | st'.queue.taken <= i < |es'| && es'[i] == Close(t)
      ensures st'.senders[t].closed && !st'.senders[t].framed && RingBytes(es'[i + 1..], t) == []
    {
      if i < |es| {
        assert es[i] == Close(t);
        assert es'[i + 1..] == es[i + 1..] + [e];
        RingAppend(es[i + 1..], e, t);
      } else {
        assert es'[i + 1..] == [];
      }
    }
  }

  lemma PublishKeeps(st: State, s: nat, t: nat)
    requires Shaped(st) && Enabled(st, Publish(s)) && t in st.senders && StreamInv(st, t)
    ensures StreamInv(Apply(st, Publish(s)), t)
  {
    var st' := Apply(st, Publish(s));
    assert InRing(st', t) == InRing(st, t) && OnSocket(st', t) == OnSocket(st, t);
  }

  /** Putting an event of `s` on the socket. */
  lemma SocketKeeps(st: State, st': State, s: nat, e: Event, t: nat)
    requires Shaped(st) && s in st.senders && s in st'.senders && t in st.senders && StreamInv(st, t)
    requires (e.Frame? || e.StreamClose?) && e.stream == s
    requires st' == Put(st, s, st'.senders[s]).(socket := st.socket + [e])
    requires !st.senders[s].closed
    requires var me, me' := st.senders[s], st'.senders[s];
             && me'.sent == me.sent + EventBytes(e, s) && me'.framed == me.framed && me'.inFallback == me.inFallback
             && me'.closed == e.StreamClose?
             && (e.Frame? ==> me.framed && me'.buffered == me.buffered)
             && (e.StreamClose? ==> me'.buffered.Empty? && me'.phase.Ready?)
    ensures StreamInv(st', t)
  {
    hide RingBytes, SocketBytes, Waiting, RingCloses, SocketCloses;
    SocketAppend(st.socket, e, t);
    SocketKeepsCloses(st, st', s, e, t);
    RingClosesFrame(st, st', t);
    assert InRing(st', t) == InRing(st, t);
    assert OnSocket(st', t) == OnSocket(st, t) + EventBytes(e, t);
  }

  lemma SocketKeepsCloses(st: State, st': State, s: nat, e: Event, t: nat)
    requires s in st.senders && t in st.senders && (e.Frame? || e.StreamClose?) && e.stream == s && SocketCloses(st, t)
    requires !st.senders[s].closed && s in st'.senders && st' == Put(st, s, st'.senders[s]).(socket := st.socket + [e])
    requires e.StreamClose? ==> st'.senders[s].closed
    ensures SocketCloses(st', t)
  {
    hide SocketBytes;
    var es, es' := st.socket, st'.socket;
    SocketAppend(es, e, t);
    NothingOnSocket(t);
    forall i | 0 <= i < |es'| && es'[i] == StreamClose(t)
      ensures st'.senders[t].closed && SocketBytes(es'[i + 1..], t) == []
    {
      if i < |es| {
        assert es[i] == StreamClose(t);
        assert es'[i + 1..] == es[i + 1..] + [e];
        SocketAppend(es[i + 1..], e, t);
      } else {
        assert es'[i + 1..] == [];
      }
    }
  }

  lemma NothingOnSocket(t: nat)
    ensures SocketBytes([], t) == []
  {
  }

  lemma PollingKeeps(st: State, t: nat)
    requires Shaped(st) && t in st.senders && StreamInv(st, t)
    ensures StreamInv(Apply(st, SendPolling), t)
  {
    hide RingBytes, SocketBytes, Waiting, RingCloses, SocketCloses;
    var st' := Apply(st, SendPolling);
    SocketAppend(st.socket, Polling, t);
    assert OnSocket(st', t) == OnSocket(st, t);
    RingClosesFrame(st, st', t);
    PollingKeepsCloses(st, t);
  }

  lemma PollingKeepsCloses(st: State, t: nat)
    requires t in st.senders && SocketCloses(st, t)
    ensures SocketCloses(st.(socket := st.socket + [Polling]), t)
  {
    hide RingBytes, SocketBytes;
    var es := st.socket;
    SocketAppend(es, Polling, t);
    forall i | 0 <= i < |es| && es[i] == StreamClose(t) ensures SocketBytes((es + [Polling])[i + 1..], t) == [] {
      assert (es + [Polling])[i + 1..] == es[i + 1..] + [Polling];
      SocketAppend(es[i + 1..], Polling, t);
    }
  }

  lemma TakeEventKeeps(st: State, t: nat)
    requires Shaped(st) && Enabled(st, TakeEvent) && !st.lock.Drained? && t in st.senders && StreamInv(st, t)
    ensures StreamInv(Apply(st, TakeEvent), t)
  {
    var st' := Apply(st, TakeEvent);
    assert InRing(st', t) == InRing(st, t) && OnSocket(st', t) == OnSocket(st, t);
    forall i | 0 <= i < |st'.socket| && st'.socket[i] == StreamClose(t)
      ensures st'.senders[t].closed && SocketBytes(st'.socket[i + 1..], t) == []
    {
      assert st.socket[i + 1] == StreamClose(t);
      assert st'.socket[i + 1..] == st.socket[i + 2..];
    }
  }

  /** Steps that move the lock, drop a polling event or close a stream on the receiving side. */
  lemma ReceiverKeeps(st: State, st': State, t: nat)
    requires Shaped(st) && Shaped(st') && t in st.senders && StreamInv(st, t)
    requires st' == st.(lock := st'.lock, reader := st'.reader, status := st'.status)
    requires st'.reader == st.reader || (st.reader == Some(Polling) && st'.reader == None)
    requires st'.lock.Drained? ==> st.lock.Drained?
    requires st'.status[t] == st.status[t] || st'.status[t].LocallyClosed?
    ensures StreamInv(st', t)
  {
    hide RingBytes, SocketBytes, Waiting, RingCloses, SocketCloses;
    assert InRing(st', t) == InRing(st, t) && OnSocket(st', t) == OnSocket(st, t);
    RingClosesFrame(st, st', t);
    SocketClosesFrame(st, st', t);
  }

  lemma FlushAllKeeps(st: State, t: nat)
    requires Shaped(st) && t in st.senders && StreamInv(st, t)
    ensures StreamInv(FlushAll(st), t)
  {
    var st' := FlushAll(st);
    DeliverAllSpec(st.status, st.delivered, st.batches, t);
    var batch, rest := Waiting(st.batches, t), RingBytes(st.queue.entries[st.queue.taken..], t);
    assert InRing(st', t) == rest;
    assert OnSocket(st', t) == OnSocket(st, t);
    Regroup(st.delivered[t], batch, rest, OnSocket(st, t));
  }

  lemma Regroup(a: Bytes, b: Bytes, c: Bytes, d: Bytes)
    ensures a + ((b + c) + d) == (a + b) + (c + d)
  {
  }

  /** Popping a data element moves its bytes to the stream's batch. */
  lemma PopDataKeeps(st: State, t: nat)
    requires Shaped(st) && Unique(st.batches) && t in st.senders && StreamInv(st, t)
    requires Enabled(st, Pop) && st.queue.entries[st.queue.taken].Data?
    ensures StreamInv(Apply(st, Pop), t)
  {
    var st' := Apply(st, Pop);
    var es, k := st.queue.entries, st.queue.taken;
    assert es[k..][1..] == es[k + 1..];
    JoinAppends(st.batches, es[k].stream, es[k].bytes, t);
    assert InRing(st', t) == InRing(st, t);
    assert OnSocket(st', t) == OnSocket(st, t);
  }

  /** Popping a close, the batches already flushed: nothing of that stream is left behind. */
  lemma PopCloseKeeps(st: State, t: nat)
    requires Shaped(st) && t in st.senders && StreamInv(st, t)
    requires Enabled(st, Pop) && st.queue.entries[st.queue.taken].Close? && st.batches == []
    ensures StreamInv(Apply(st, Pop), t)
  {
    var st' := Apply(st, Pop);
    var es, k := st.queue.entries, st.queue.taken;
    assert es[k..][1..] == es[k + 1..];
    assert InRing(st', t) == InRing(st, t) && OnSocket(st', t) == OnSocket(st, t);
    if es[k] == Close(t) { NoFramesNoBytes(st, t); }
  }

  /** A barrier drain sees the ring empty, the batches already flushed. */
  lemma SawEmptyKeeps(st: State, t: nat)
    requires Shaped(st) && t in st.senders && StreamInv(st, t)
    requires Enabled(st, SawEmpty) && st.batches == []
    ensures StreamInv(Apply(st, SawEmpty), t)
  {
    hide RingBytes, SocketBytes, RingCloses, SocketCloses;
    var st' := Apply(st, SawEmpty);
    assert FlushAll(st) == st;
    assert st.queue.entries[st.queue.taken..] == [];
    NothingInRing(t);
    assert InRing(st', t) == InRing(st, t) == [];
    assert OnSocket(st', t) == OnSocket(st, t);
    RingClosesFrame(st, st', t);
    SocketClosesFrame(st, st', t);
  }

  lemma NothingInRing(t: nat)
    ensures RingBytes([], t) == []
  {
  }

  /** The event is delivered: nothing of its stream is in the ring, so its bytes are next in line. */
  lemma DeliverEventKeeps(st: State, t: nat)
    requires Shaped(st) && t in st.senders && StreamInv(st, t)
    requires Enabled(st, DeliverEvent) && st.batches == []
    ensures StreamInv(Apply(st, DeliverEvent), t)
  {
    hide RingBytes, SocketBytes, RingCloses, SocketCloses, Waiting;
    var st' := Apply(st, DeliverEvent);
    RingClosesFrame(st, st', t);
    SocketClosesFrame(st, st', t);
    EventAccounted(st, t);
  }

  lemma EventAccounted(st: State, t: nat)
    requires Shaped(st) && t in st.senders && StreamInv(st, t) && Enabled(st, DeliverEvent)
    ensures Accounted(Apply(st, DeliverEvent), t)
  {
    hide RingBytes, SocketBytes, RingCloses, SocketCloses, Waiting, Sticky, Accounted, Apply, InRing, OnSocket;
    if !EventOf(st, t) {
      OtherAccounted(st, t);
    } else if st.reader.value.Frame? {
      FrameAccounted(st, t);
    } else {
      CloseIsLast(st, t);
      CloseAccounted(st, t);
    }
  }

  lemma OtherAccounted(st: State, t: nat)
    requires Shaped(st) && t in st.senders && Accounted(st, t) && Enabled(st, DeliverEvent) && !EventOf(st, t)
    ensures Accounted(Apply(st, DeliverEvent), t)
  {
    hide RingBytes, SocketBytes, Waiting;
    var st' := Apply(st, DeliverEvent);
    assert InRing(st', t) == InRing(st, t) && OnSocket(st, t) == [] + OnSocket(st', t);
  }

  lemma FrameAccounted(st: State, t: nat)
    requires Shaped(st) && t in st.senders && Accounted(st, t) && Cleared(st, t) && Enabled(st, DeliverEvent)
    requires IsFrame(st.reader.value, t)
    ensures Accounted(Apply(st, DeliverEvent), t)
  {
    hide RingBytes, SocketBytes, Waiting;
    var st', bytes := Apply(st, DeliverEvent), st.reader.value.bytes;
    assert InRing(st', t) == InRing(st, t) == [] && OnSocket(st, t) == bytes + OnSocket(st', t);
    Associative(st.delivered[t], bytes, OnSocket(st', t));
  }

  lemma CloseAccounted(st: State, t: nat)
    requires Shaped(st) && t in st.senders && Accounted(st, t) && Cleared(st, t) && Enabled(st, DeliverEvent)
    requires st.reader == Some(StreamClose(t)) && st.senders[t].closed && OnSocket(st, t) == []
    ensures Accounted(Apply(st, DeliverEvent), t)
  {
    hide RingBytes, SocketBytes, Waiting;
    var st' := Apply(st, DeliverEvent);
    assert InRing(st', t) == InRing(st, t) && OnSocket(st, t) == [] + OnSocket(st', t);
  }

  /** Nothing of a stream is on the socket behind its close. */
  lemma CloseIsLast(st: State, t: nat)
    requires Shaped(st) && t in st.senders && SocketCloses(st, t) && st.reader == Some(StreamClose(t))
    ensures st.senders[t].closed && OnSocket(st, t) == []
  {
  }

  lemma FlushFirst(st: State, step: Step)
    requires Shaped(st) && Enabled(st, step)
    requires step.SawEmpty? || (step.Pop? && st.queue.entries[st.queue.taken].Close?)
    ensures Enabled(FlushAll(st), step) && Apply(FlushAll(st), step) == Apply(st, step)
  {
  }

  /** A stream is reset for another use only when none of its frames is on its way. */
  ghost predicate Careful(st: State, step: Step) {
    step.Reset? ==> NoFrames(st, step.s)
  }

  /** Streams that have not fallen back have none, so what the pool does is careful: it closes a stream
      in fallback and resets the others. */
  lemma PoolIsCareful(st: State, s: nat)
    requires Inv(st) && s in st.senders && !st.senders[s].inFallback
    ensures Careful(st, Reset(s))
  {
    assert StreamInv(st, s);
  }

  /** The sender steps that put nothing on either channel. */
  predicate Quiet(st: State, step: Step)
    requires Shaped(st) && Enabled(st, step)
  {
    || step.Write? || step.PeerFallback? || step.FlushRefused? || step.AbandonFlush? || step.Reset?
    || (step.Flush? && (st.senders[step.s].closed || !st.senders[step.s].buffered.Shm?))
    || (step.CloseStream? && st.senders[step.s].closed)
  }

  lemma QuietStepKeeps(st: State, step: Step, t: nat)
    requires Shaped(st) && Enabled(st, step) && Careful(st, step) && Quiet(st, step) && t in st.senders
    requires StreamInv(st, t) && StreamInv(st, step.s)
    ensures StreamInv(Apply(st, step), t)
  {
    hide StreamInv, Apply, Enabled;
    QuietIsLocal(st, step);
    QuietStaysSticky(st, step);
    LocalKeeps(st, Apply(st, step), step.s, t);
  }

  /** A quiet step changes its own sender, and neither what that has sent nor whether it is closed. */
  lemma QuietIsLocal(st: State, step: Step)
    requires Shaped(st) && Enabled(st, step) && Quiet(st, step)
    ensures var st', s := Apply(st, step), step.s;
            && s in st.senders && st' == Put(st, s, st'.senders[s])
            && st'.senders[s].sent == st.senders[s].sent && st'.senders[s].closed == st.senders[s].closed
            && (st'.senders[s].framed && !st.senders[s].framed ==> !st.senders[s].closed)
  {
    assert Put(st, step.s, st.senders[step.s]) == st;
  }

  lemma QuietStaysSticky(st: State, step: Step)
    requires Shaped(st) && Enabled(st, step) && Careful(st, step) && Quiet(st, step)
    requires step.s in st.senders && StreamInv(st, step.s)
    ensures Sticky(Apply(st, step), step.s)
  {
    hide RingBytes, SocketBytes, RingCloses, SocketCloses, Accounted, Cleared;
  }

  lemma SenderStepKeeps(st: State, step: Step, t: nat)
    requires Shaped(st) && Enabled(st, step) && t in st.senders
    requires step.Flush? || step.SendFrame? || step.CloseStream?
    requires !Quiet(st, step) && StreamInv(st, t) && StreamInv(st, step.s)
    ensures StreamInv(Apply(st, step), t)
  {
    var st' := Apply(st, step);
    var s := step.s;
    var me := st.senders[s];
    if step.Flush? {
      ClaimKeeps(st, st', s, Data(s, me.buffered.bytes), t);
    } else if step.SendFrame? {
      SocketKeeps(st, st', s, Frame(s, me.phase.rest[..step.n]), t);
    } else if step.queued {
      ClaimKeeps(st, st', s, Close(s), t);
    } else {
      SocketKeeps(st, st', s, StreamClose(s), t);
    }
  }

  /** Steps at the end of which a batch, a close or a socket event has been delivered. */
  lemma DeliveryStepKeeps(st: State, step: Step, t: nat)
    requires Inv(st) && Enabled(st, step) && t in st.senders
    requires step.SawEmpty? || step.DeliverEvent? || step.Pop?
    ensures StreamInv(Apply(st, step), t)
  {
    hide StreamInv;
    assert StreamInv(st, t);
    if step.SawEmpty? {
      FlushFirst(st, step);
      FlushAllKeeps(st, t);
      SawEmptyKeeps(FlushAll(st), t);
    } else if step.DeliverEvent? {
      DeliverEventKeeps(st, t);
    } else if st.queue.entries[st.queue.taken].Data? {
      PopDataKeeps(st, t);
    } else {
      FlushFirst(st, step);
      FlushAllKeeps(st, t);
      PopCloseKeeps(FlushAll(st), t);
    }
  }

  /** Steps that take or leave the queue lock, or close a stream on the receiving side. */
  predicate Locking(step: Step) {
    || step.LockForEvent? || step.LockForWake? || step.CloseLocally? || step.FlushBatches? || step.FinishWake? || step.Resume?
  }

  lemma ReceiverStepKeeps(st: State, step: Step, t: nat)
    requires Inv(st) && Enabled(st, step) && t in st.senders && Locking(step)
    ensures StreamInv(Apply(st, step), t)
  {
    hide StreamInv;
    assert StreamInv(st, t);
    if step.FlushBatches? {
      FlushAllKeeps(st, t);
    } else if step.FinishWake? {
      FlushAllKeeps(st, t);
      ReceiverKeeps(FlushAll(st), Apply(st, step), t);
    } else {
      ReceiverKeeps(st, Apply(st, step), t);
    }
  }

  lemma StreamStepKeeps(st: State, step: Step, t: nat)
    requires Inv(st) && Enabled(st, step) && Careful(st, step) && t in st.senders
    ensures StreamInv(Apply(st, step), t)
  {
    hide StreamInv;
    assert StreamInv(st, t);
    if step.Publish? {
      PublishKeeps(st, step.s, t);
    } else if step.SendPolling? {
      PollingKeeps(st, t);
    } else if step.TakeEvent? {
      TakeEventKeeps(st, t);
    } else if step.SawEmpty? || step.DeliverEvent? || step.Pop? {
      DeliveryStepKeeps(st, step, t);
    } else if Locking(step) {
      ReceiverStepKeeps(st, step, t);
    } else {
      assert StreamInv(st, step.s);
      if Quiet(st, step) { QuietStepKeeps(st, step, t); } else { SenderStepKeeps(st, step, t); }
    }
  }

  lemma BatchesStayUnique(st: State, step: Step)
    requires Shaped(st) && Unique(st.batches) && Enabled(st, step)
    ensures Unique(Apply(st, step).batches)
  {
    hide Join, Unique, FlushOf, SendFrameOf, CloseOf, DeliverAll, Deliver, HalfClose, Reserve, Claim;
    NoBatches();
    if OfSender(step) { SenderFrame(st, step); }
    if step.Pop? {
      var e := st.queue.entries[st.queue.taken];
      if e.Data? { JoinKeepsUnique(st.batches, e.stream, e.bytes); }
    }
  }

  lemma NoBatches()
    ensures Unique<nat, nat>([])
  {
  }

  lemma StepKeeps(st: State, step: Step)
    requires Inv(st) && Enabled(st, step) && Careful(st, step)
    ensures Inv(Apply(st, step))
  {
    hide StreamInv, Unique, Apply, Enabled;
    var st' := Apply(st, step);
    forall t <- st'.senders ensures StreamInv(st', t) {
      StreamStepKeeps(st, step, t);
    }
    BatchesStayUnique(st, step);
    DrainedStays(st, step);
  }

  /** Whoever saw the ring empty has flushed the batches and holds an event. */
  lemma DrainedStays(st: State, step: Step)
    requires Shaped(st) && Enabled(st, step) && (st.lock.Drained? ==> st.batches == [] && st.reader.Some?)
    ensures var st' := Apply(st, step); st'.lock.Drained? ==> st'.batches == [] && st'.reader.Some?
  {
    hide FlushOf, SendFrameOf, CloseOf, Join, DeliverAll, Deliver, HalfClose, Reserve, Claim;
    if OfSender(step) { SenderFrame(st, step); }
  }

  predicate OfSender(step: Step) {
    || step.Write? || step.PeerFallback? || step.Flush? || step.FlushRefused? || step.Publish? || step.SendFrame?
    || step.AbandonFlush? || step.CloseStream? || step.SendPolling? || step.Reset?
  }

  /** A sender touches nothing of the receiver's. */
  lemma SenderFrame(st: State, step: Step)
    requires Shaped(st) && Enabled(st, step) && OfSender(step)
    ensures var st' := Apply(st, step); st'.batches == st.batches && st'.lock == st.lock && st'.reader == st.reader
  {
    hide FlushOf, SendFrameOf, CloseOf, PopOf, DeliverOf, FlushAll, Reserve, Claim;
  }

  /** The state a run ends in, or `None` when one of its steps was not enabled. */
  function Exec(st: State, steps: seq<Step>): Option<State>
    decreases |steps|
  {
    if steps == [] then Some(st)
    else if Shaped(st) && Enabled(st, steps[0]) then Exec(Apply(st, steps[0]), steps[1..])
    else None
  }

  /** Every reset of the run is careful. */
  ghost predicate CarefulRun(st: State, steps: seq<Step>)
    decreases |steps|
  {
    steps == [] || (Careful(st, steps[0]) && (Shaped(st) && Enabled(st, steps[0]) ==> CarefulRun(Apply(st, steps[0]), steps[1..])))
  }

  lemma {:induction false} RunKeeps(st: State, steps: seq<Step>)
    requires Inv(st) && Exec(st, steps).Some? && CarefulRun(st, steps)
    ensures Inv(Exec(st, steps).value)
    decreases |steps|
  {
    hide StreamInv, Unique, Apply, Careful;
    if steps != [] {
      StepKeeps(st, steps[0]);
      RunKeeps(Apply(st, steps[0]), steps[1..]);
    }
  }

  /** For every run whose resets are careful, and every stream its receiver has not closed itself: the
      delivered bytes are a prefix of the bytes in hand-over order, and a stream sees the peer's close
      only after all of them. */
  lemma DeliveredInOrder(start: State, steps: seq<Step>, s: nat)
    requires Init(start) && Exec(start, steps).Some? && CarefulRun(start, steps)
    requires s in Exec(start, steps).value.senders
    ensures var st := Exec(start, steps).value;
            && s in st.status && s in st.delivered
            && (!st.status[s].LocallyClosed? ==> st.delivered[s] <= st.senders[s].sent)
            && (st.status[s].HalfClosed? ==> st.senders[s].closed && st.delivered[s] == st.senders[s].sent)
  {
    InitInv(start);
    RunKeeps(start, steps);
    assert StreamInv(Exec(start, steps).value, s);
  }

  /** Once both channels are empty, everything handed over has been delivered. */
  lemma NothingStaysBehind(start: State, steps: seq<Step>, s: nat)
    requires Init(start) && Exec(start, steps).Some? && CarefulRun(start, steps)
    requires s in Exec(start, steps).value.senders
    ensures var st := Exec(start, steps).value;
            st.queue.taken == |st.queue.entries| && st.batches == [] && st.reader.None? && st.socket == []
            && s in st.status && !st.status[s].LocallyClosed?
            ==> s in st.delivered && st.delivered[s] == st.senders[s].sent
  {
    InitInv(start);
    RunKeeps(start, steps);
    assert StreamInv(Exec(start, steps).value, s);
  }
}
