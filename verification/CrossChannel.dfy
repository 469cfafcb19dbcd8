/** Two channels, one order. A V5 stream sends a message through the shared ring while it can and
    through the unix socket once it has fallen back (src/stream.rs); the receiver drains the ring
    as a barrier, under the queue lock, before it delivers anything that came over the socket
    (src/session/mod.rs). The ring is the queue that `RingSafety.StepRefines` shows it to be.

    Any number of streams share both channels. Each has one writer: a flush or a close starts only
    when the previous hand-over has returned. `sent`, `framed` and `delivered` are history. */
module CrossChannel {
  import opened Wrappers
  import opened SpecQueue
  import opened BatchList

  type Bytes = seq<nat>

  datatype Element = Data(stream: nat, bytes: Bytes) | Close(stream: nat)
  datatype Event = Frame(stream: nat, bytes: Bytes) | StreamClose(stream: nat) | Polling

  /** The message being written: all in shared memory, or with a part on the heap. */
  datatype Buffered = Empty | Shm(bytes: Bytes) | Heap(bytes: Bytes)

  datatype Phase =
    | Ready
    | Pushing(position: nat)     // claimed a ring position, not published yet
    | Framing(rest: Bytes)       // fallback bytes still to be put on the socket

  datatype Sender = Sender(
    buffered: Buffered,
    inFallback: bool,            // sticky, also set when the peer falls back
    framed: bool,                // a message of this stream has gone to the socket since the last reset
    phase: Phase,
    closed: bool,
    sent: Bytes)

  datatype Status = Open | HalfClosed | LocallyClosed
  /** A barrier drain has seen the ring empty once it is `Drained`; producers do not take the lock. */
  datatype Lock = Free | WakeDrain | Barrier | Drained

  datatype State = State(
    senders: map<nat, Sender>,
    queue: Queue<Element>,
    socket: seq<Event>,
    reader: Option<Event>,       // the event the read loop is handling
    lock: Lock,
    batches: seq<Batch<nat, nat>>,
    status: map<nat, Status>,
    delivered: map<nat, Bytes>)

  datatype Step =
    | Write(s: nat, data: Bytes, fits: bool)   // `fits`: the segment has room and the size is legal
    | PeerFallback(s: nat)
    | Flush(s: nat)
    | FlushRefused(s: nat)                     // the queue stayed full: the message is dropped
    | Publish(s: nat)
    | SendFrame(s: nat, n: nat)
    | AbandonFlush(s: nat)
    | CloseStream(s: nat, queued: bool)
    | SendPolling
    | TakeEvent
    | LockForEvent
    | LockForWake
    | Pop
    | FlushBatches
    | FinishWake
    | SawEmpty
    | Resume                                   // something was published since: drain on
    | DeliverEvent
    | Reset(s: nat)                            // `reset` for another use of the stream
    | CloseLocally(s: nat)

  ghost predicate Init(st: State) {
    && st.queue.entries == [] && st.queue.ready == [] && st.queue.taken == 0
    && st.socket == [] && st.reader.None? && st.lock.Free? && st.batches == []
    && st.status.Keys == st.delivered.Keys == st.senders.Keys
    && forall s <- st.senders ::
         st.senders[s] == Sender(Empty, false, false, Ready, false, []) && st.status[s].Open? && st.delivered[s] == []
  }

  predicate Shaped(st: State) {
    && st.status.Keys == st.delivered.Keys == st.senders.Keys
    && |st.queue.ready| == |st.queue.entries| && st.queue.taken <= |st.queue.entries|
  }

  predicate HasRoom(q: Queue<Element>) { |q.entries| - q.taken < q.cap }
  predicate Draining(st: State) { st.lock.WakeDrain? || st.lock.Barrier? }
  predicate HeadReady(q: Queue<Element>) { q.taken < |q.ready| && q.ready[q.taken] }

  predicate Enabled(st: State, step: Step)
    requires Shaped(st)
  {
    match step
    case Write(s, _, _) => s in st.senders
    case PeerFallback(s) => s in st.senders
    case Flush(s) =>
      s in st.senders && st.senders[s].phase.Ready? && (st.senders[s].buffered.Shm? && !st.senders[s].closed ==> HasRoom(st.queue))
    case FlushRefused(s) => s in st.senders && st.senders[s].phase.Ready? && st.senders[s].buffered.Shm?
    case Publish(s) =>
      s in st.senders && st.senders[s].phase.Pushing? && st.senders[s].phase.position < |st.queue.ready|
    case SendFrame(s, n) => s in st.senders && st.senders[s].phase.Framing? && 0 < n <= |st.senders[s].phase.rest|
    case AbandonFlush(s) => s in st.senders && st.senders[s].phase.Framing?
    case CloseStream(s, queued) =>
      s in st.senders && st.senders[s].phase.Ready? && (queued ==> !st.senders[s].inFallback && HasRoom(st.queue))
    case SendPolling => true
    case TakeEvent => st.reader.None? && st.socket != []
    case LockForEvent => st.reader.Some? && st.lock.Free?
    case LockForWake => st.lock.Free?
    case Pop => Draining(st) && HeadReady(st.queue)
    case FlushBatches => Draining(st)
    case FinishWake => st.lock.WakeDrain? && !HeadReady(st.queue)
    case SawEmpty => st.lock.Barrier? && st.reader.Some? && st.queue.taken == |st.queue.entries|
    case Resume => st.lock.Drained? && HeadReady(st.queue)
    case DeliverEvent => st.lock.Drained? && st.reader.Some?
    case Reset(s) => s in st.senders && st.senders[s].phase.Ready? && !st.senders[s].closed
    case CloseLocally(s) => s in st.senders
  }

  function Put(st: State, s: nat, me: Sender): State { st.(senders := st.senders[s := me]) }

  function Claim(q: Queue<Element>, e: Element): Queue<Element> {
    q.(entries := q.entries + [e], ready := q.ready + [false])
  }

  /** `reserve`: shared memory while nothing has fallen back and the segment has room, else heap. */
  function Reserve(me: Sender, data: Bytes, fits: bool): Sender {
    if me.closed || data == [] then me
    else
      var all := (if me.buffered.Empty? then [] else me.buffered.bytes) + data;
      if me.buffered.Heap? || me.inFallback || !fits then me.(buffered := Heap(all)) else me.(buffered := Shm(all))
  }

  predicate IsOpen(status: map<nat, Status>, s: nat) { s in status && status[s].Open? }

  /** Bytes reach a stream that is still open; anything else is released. */
  function Deliver(status: map<nat, Status>, delivered: map<nat, Bytes>, s: nat, bytes: Bytes): (d: map<nat, Bytes>)
    ensures d.Keys == delivered.Keys
  {
    if IsOpen(status, s) && s in delivered then delivered[s := delivered[s] + bytes] else delivered
  }

  function DeliverAll(status: map<nat, Status>, delivered: map<nat, Bytes>, batches: seq<Batch<nat, nat>>): (d: map<nat, Bytes>)
    ensures d.Keys == delivered.Keys
  {
    if batches == [] then delivered
    else DeliverAll(status, Deliver(status, delivered, batches[0].key, batches[0].items), batches[1..])
  }

  function HalfClose(status: map<nat, Status>, s: nat): map<nat, Status> {
    if IsOpen(status, s) then status[s := HalfClosed] else status
  }

  function FlushAll(st: State): State {
    st.(delivered := DeliverAll(st.status, st.delivered, st.batches), batches := [])
  }

  /** `flush`: the ring for a message in shared memory, frames for any other. */
  function FlushOf(st: State, s: nat): (st': State)
    requires Shaped(st) && s in st.senders
    ensures Shaped(st') && st'.senders.Keys == st.senders.Keys
    ensures st'.batches == st.batches && st'.lock == st.lock && st'.reader == st.reader
  {
    var me := st.senders[s];
    if me.closed || me.buffered.Empty? then Put(st, s, me.(buffered := Empty))
    else if me.buffered.Heap? then
      Put(st, s, me.(buffered := Empty, inFallback := true, framed := true, phase := Framing(me.buffered.bytes)))
    else
      var next := me.(buffered := Empty, phase := Pushing(|st.queue.entries|), sent := me.sent + me.buffered.bytes);
      Put(st, s, next).(queue := Claim(st.queue, Data(s, me.buffered.bytes)))
  }

  function SendFrameOf(st: State, s: nat, n: nat): (st': State)
    requires Shaped(st) && s in st.senders && st.senders[s].phase.Framing? && n <= |st.senders[s].phase.rest|
    ensures Shaped(st') && st'.senders.Keys == st.senders.Keys
    ensures st'.batches == st.batches && st'.lock == st.lock && st'.reader == st.reader
  {
    var me := st.senders[s];
    var out, rest := me.phase.rest[..n], me.phase.rest[n..];
    Put(st, s, me.(phase := if rest == [] then Ready else Framing(rest), sent := me.sent + out))
      .(socket := st.socket + [Frame(s, out)])
  }

  function CloseOf(st: State, s: nat, queued: bool): (st': State)
    requires Shaped(st) && s in st.senders
    ensures Shaped(st') && st'.senders.Keys == st.senders.Keys
    ensures st'.batches == st.batches && st'.lock == st.lock && st'.reader == st.reader
  {
    var me := st.senders[s].(buffered := Empty, closed := true);
    if st.senders[s].closed then st
    else if queued then Put(st, s, me.(phase := Pushing(|st.queue.entries|))).(queue := Claim(st.queue, Close(s)))
    else Put(st, s, me).(socket := st.socket + [StreamClose(s)])
  }

  /** Data joins its stream's batch; a close is applied once every batch has been flushed. */
  function PopOf(st: State): (st': State)
    requires Shaped(st) && HeadReady(st.queue)
    ensures Shaped(st') && st'.senders.Keys == st.senders.Keys
  {
    var e := st.queue.entries[st.queue.taken];
    var popped := st.(queue := st.queue.(taken := st.queue.taken + 1));
    if e.Data? then popped.(batches := Join(st.batches, e.stream, e.bytes))
    else FlushAll(st).(queue := popped.queue, status := HalfClose(st.status, e.stream))
  }

  function DeliverOf(st: State, e: Event): (st': State)
    requires Shaped(st)
    ensures Shaped(st') && st'.senders.Keys == st.senders.Keys
  {
    var done := st.(lock := Free, reader := None);
    if e.Frame? then done.(delivered := Deliver(st.status, st.delivered, e.stream, e.bytes))
    else if e.StreamClose? then done.(status := HalfClose(st.status, e.stream))
    else done
  }

  function Apply(st: State, step: Step): (st': State)
    requires Shaped(st) && Enabled(st, step)
    ensures Shaped(st') && st'.senders.Keys == st.senders.Keys
  {
    match step
    case Write(s, data, fits) => Put(st, s, Reserve(st.senders[s], data, fits))
    case PeerFallback(s) => Put(st, s, st.senders[s].(inFallback := true))
    case Flush(s) => FlushOf(st, s)
    case FlushRefused(s) => Put(st, s, st.senders[s].(buffered := Empty))
    case Publish(s) =>
      Put(st, s, st.senders[s].(phase := Ready)).(queue := st.queue.(ready := st.queue.ready[st.senders[s].phase.position := true]))
    case SendFrame(s, n) => SendFrameOf(st, s, n)
    case AbandonFlush(s) => Put(st, s, st.senders[s].(phase := Ready))
    case CloseStream(s, queued) => CloseOf(st, s, queued)
    case SendPolling => st.(socket := st.socket + [Polling])
    case TakeEvent => st.(reader := Some(st.socket[0]), socket := st.socket[1..])
    case LockForEvent =>
      // A polling event starts an ordinary drain.
      if st.reader.value.Polling? then st.(lock := WakeDrain, reader := None) else st.(lock := Barrier)
    case LockForWake => st.(lock := WakeDrain)
    case Pop => PopOf(st)
    case FlushBatches => FlushAll(st)
    case FinishWake => FlushAll(st).(lock := Free)
    case SawEmpty => FlushAll(st).(lock := Drained)
    case Resume => st.(lock := Barrier)
    case DeliverEvent => DeliverOf(st, st.reader.value)
    case Reset(s) => Put(st, s, st.senders[s].(inFallback := false, framed := false))
    case CloseLocally(s) => st.(status := st.status[s := LocallyClosed])
  }
}
