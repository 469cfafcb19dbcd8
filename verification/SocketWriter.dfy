/** Who may write to the unix socket: the write loop, which holds the writer lock for a whole item, and
    wakeups that try to write directly, which may leave the tail of a frame behind as `carry`
    (src/session/mod.rs). Failed writes end the session and are not part of this model. */
module SocketWriter {
  import opened Common
  import opened Wrappers
  import opened Sequences

  type Frame = seq<byte>

  datatype Waker =
    | Idle
    | Claimed(event: Frame)      // has claimed the peer's consumer and is about to try the socket
    | HandsOver(event: Frame)    // puts what is left on the send channel; nothing is left after a partial write

  datatype Lock = Free | Writing(rest: seq<byte>)   // the write loop, with what it still has to write

  datatype State = State(
    wire: seq<byte>,
    carry: seq<byte>,
    channel: seq<Frame>,
    lock: Lock,
    wakers: map<nat, Waker>,
    /** History: the frames that have begun to be written, in that order. */
    begun: seq<Frame>)

  datatype Step =
    | Send(frame: Frame)                 // a flush or a close puts a frame on the channel
    | Claim(p: nat, event: Frame)
    | TryWrite(p: nat, taken: Option<nat>) // the socket takes this much of the event right away, or is not ready
    | HandOver(p: nat)
    | Take                               // the write loop takes the next item and the lock
    | Write(n: nat)
    | Release

  predicate Enabled(st: State, step: Step) {
    match step
    case Send(_) => true
    case Claim(p, event) => p in st.wakers && st.wakers[p].Idle? && event != []
    case TryWrite(p, taken) =>
      p in st.wakers && st.wakers[p].Claimed? && (taken.Some? ==> taken.value <= |st.wakers[p].event|)
    case HandOver(p) => p in st.wakers && st.wakers[p].HandsOver?
    case Take => st.lock.Free? && st.channel != []
    case Write(n) => st.lock.Writing? && n <= |st.lock.rest|
    case Release => st.lock.Writing? && st.lock.rest == []
  }

  function Put(st: State, p: nat, w: Waker): State { st.(wakers := st.wakers[p := w]) }

  function Begin(begun: seq<Frame>, frame: Frame): seq<Frame> {
    if frame == [] then begun else begun + [frame]
  }

  function Apply(st: State, step: Step): State
    requires Enabled(st, step)
  {
    match step
    case Send(frame) => st.(channel := st.channel + [frame])
    case Claim(p, event) => Put(st, p, Claimed(event))
    case TryWrite(p, taken) =>
      var event := st.wakers[p].event;
      if st.lock.Writing? || st.carry != [] || taken.None? then Put(st, p, HandsOver(event))
      else if taken.value == |event| then Put(st, p, Idle).(wire := st.wire + event, begun := st.begun + [event])
      else
        Put(st, p, HandsOver([]))
          .(wire := st.wire + event[..taken.value], carry := event[taken.value..], begun := st.begun + [event])
    case HandOver(p) => Put(st, p, Idle).(channel := st.channel + [st.wakers[p].event])
    case Take =>
      st.(channel := st.channel[1..], carry := [], lock := Writing(st.carry + st.channel[0]),
          begun := Begin(st.begun, st.channel[0]))
    case Write(n) => st.(wire := st.wire + st.lock.rest[..n], lock := Writing(st.lock.rest[n..]))
    case Release => st.(lock := Free)
  }

  ghost predicate Init(st: State) {
    && st.wire == st.carry == [] && st.channel == [] && st.lock.Free? && st.begun == []
    && forall p <- st.wakers :: st.wakers[p].Idle?
  }

  function Exec(st: State, steps: seq<Step>): Option<State>
    decreases |steps|
  {
    if steps == [] then Some(st)
    else if Enabled(st, steps[0]) then Exec(Apply(st, steps[0]), steps[1..])
    else None
  }

  /** What the holder of the lock, or else the carry, still owes the socket. */
  function Owed(st: State): seq<byte> { if st.lock.Writing? then st.lock.rest else st.carry }

  /** Somebody will make the write loop flush the carry. */
  ghost predicate Prompted(st: State) {
    st.channel != [] || exists p | p in st.wakers :: st.wakers[p].HandsOver?
  }

  ghost predicate Inv(st: State) {
    && st.wire + Owed(st) == Flatten(st.begun)
    && (st.lock.Writing? ==> st.carry == [])
    && (st.carry != [] ==> Prompted(st))
  }

  lemma TryWriteKeeps(st: State, p: nat, taken: Option<nat>)
    requires Inv(st) && Enabled(st, TryWrite(p, taken))
    ensures Inv(Apply(st, TryWrite(p, taken)))
  {
    var st', event := Apply(st, TryWrite(p, taken)), st.wakers[p].event;
    if st.lock.Writing? || st.carry != [] || taken.None? {
      assert st'.wakers[p].HandsOver?;
    } else {
      var n := taken.value;
      FlattenOneMore(st.begun, event);
      Associative(st.wire, event[..n], event[n..]);
      assert event == event[..n] + event[n..];
      assert st.wire + [] == st.wire;
      if n < |event| { assert st'.wakers[p].HandsOver?; }
    }
  }

  lemma TakeKeeps(st: State)
    requires Inv(st) && Enabled(st, Take)
    ensures Inv(Apply(st, Take))
  {
    FlattenOneMore(st.begun, st.channel[0]);
    Associative(st.wire, st.carry, st.channel[0]);
  }

  lemma WriteKeeps(st: State, n: nat)
    requires Inv(st) && Enabled(st, Write(n))
    ensures Inv(Apply(st, Write(n)))
  {
    var rest := st.lock.rest;
    assert rest == rest[..n] + rest[n..];
    Associative(st.wire, rest[..n], rest[n..]);
  }

  lemma StepKeeps(st: State, step: Step)
    requires Inv(st) && Enabled(st, step)
    ensures Inv(Apply(st, step))
  {
    match step
    case TryWrite(p, taken) => TryWriteKeeps(st, p, taken);
    case Take => TakeKeeps(st);
    case Write(n) => WriteKeeps(st, n);
    case Claim(p, _) =>
      if st.carry != [] && st.channel == [] {
        var q :| q in st.wakers && st.wakers[q].HandsOver?;
        assert Apply(st, step).wakers[q].HandsOver?;
      }
    case _ =>
  }

  lemma {:induction false} RunKeeps(st: State, steps: seq<Step>)
    requires Inv(st) && Exec(st, steps).Some?
    ensures Inv(Exec(st, steps).value)
    decreases |steps|
  {
    hide Inv, Apply;
    if steps != [] {
      StepKeeps(st, steps[0]);
      RunKeeps(Apply(st, steps[0]), steps[1..]);
    }
  }

  /** Over every run: the socket has got a prefix of whole frames in the order they were begun, so no
      two ever interleave; while the lock is free, the carry completes the last of them; a carry
      never waits for something to flush it; and once nothing is under way, every frame begun is on
      the socket to its last byte. */
  lemma FramesNeverInterleave(start: State, steps: seq<Step>)
    requires Init(start) && Exec(start, steps).Some?
    ensures var st := Exec(start, steps).value;
            && st.wire <= Flatten(st.begun)
            && (st.lock.Free? ==> st.wire + st.carry == Flatten(st.begun))
            && (st.lock.Free? && st.carry != [] ==> Prompted(st))
            && (st.lock.Free? && !Prompted(st) ==> st.wire == Flatten(st.begun))
  {
    RunKeeps(start, steps);
  }
}
