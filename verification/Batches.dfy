/** Batched delivery: a drain collects the data it pops into one batch per stream and generation, and
    hands the batches over later, while streams are read, reset for reuse and closed around it
    (src/session/mod.rs, `V5Inbox` of src/buffer/buf_v5.rs, `reset` of src/stream.rs). */
module Batches {
  import opened Wrappers
  import opened Sequences
  import opened BatchList

  /** One popped message: which stream it is for, in which life of that stream it was popped, and the
      root of its chain. */
  datatype Entry = Entry(stream: nat, generation: nat, root: int)

  /** A life of a stream. */
  datatype Life = Life(stream: nat, generation: nat)
  datatype Stream = Stream(generation: nat, open: bool, inbox: seq<Entry>)

  datatype State = State(
    streams: map<nat, Stream>,
    batches: seq<Batch<Life, int>>,
    // History.
    popped: seq<Entry>,
    delivered: seq<Entry>,
    released: seq<Entry>)

  datatype Step =
    | Open(s: nat)
    | Collect(s: nat, root: int)
    | FlushFirst
    | CloseElement(s: nat)   // a close in the ring: every batch is flushed first
    | Read(s: nat)
    | Reset(s: nat)          // back to the pool: the next life begins
    | CloseLocally(s: nat)

  predicate Enabled(st: State, step: Step) {
    match step
    case Open(s) => s !in st.streams
    case Collect(s, _) => s in st.streams
    case FlushFirst => st.batches != []
    case CloseElement(s) => s in st.streams && st.batches == []
    case Read(s) => s in st.streams
    case Reset(s) => s in st.streams && st.streams[s].open && st.streams[s].inbox == []
    case CloseLocally(s) => s in st.streams
  }

  function Entries(b: Batch<Life, int>): seq<Entry> {
    seq(|b.items|, i requires 0 <= i < |b.items| => Entry(b.key.stream, b.key.generation, b.items[i]))
  }

  /** `add_pending_batch_if_generation`: the stream is still in the life the batch was collected for. */
  predicate Accepts(streams: map<nat, Stream>, life: Life) {
    life.stream in streams && streams[life.stream].open && streams[life.stream].generation == life.generation
  }

  function Apply(st: State, step: Step): State
    requires Enabled(st, step)
  {
    match step
    case Open(s) => st.(streams := st.streams[s := Stream(0, true, [])])
    case Collect(s, root) =>
      var e := Entry(s, st.streams[s].generation, root);
      st.(batches := Join(st.batches, Life(s, e.generation), [root]), popped := st.popped + [e])
    case FlushFirst =>
      var b := st.batches[0];
      var flushed := st.(batches := st.batches[1..]);
      if Accepts(st.streams, b.key) then
        var stream := st.streams[b.key.stream];
        flushed.(streams := st.streams[b.key.stream := stream.(inbox := stream.inbox + Entries(b))],
                 delivered := st.delivered + Entries(b))
      else flushed.(released := st.released + Entries(b))
    case CloseElement(s) => st.(streams := st.streams[s := st.streams[s].(open := false)])
    case Read(s) => st.(streams := st.streams[s := st.streams[s].(inbox := [])])
    case Reset(s) => st.(streams := st.streams[s := st.streams[s].(generation := st.streams[s].generation + 1)])
    case CloseLocally(s) => st.(streams := st.streams[s := st.streams[s].(open := false)])
  }

  ghost predicate Init(st: State) {
    st == State(map[], [], [], [], [])
  }

  function Exec(st: State, steps: seq<Step>): Option<State>
    decreases |steps|
  {
    if steps == [] then Some(st)
    else if Enabled(st, steps[0]) then Exec(Apply(st, steps[0]), steps[1..])
    else None
  }

  /** The roots of one life of one stream, in order. */
  function Of(log: seq<Entry>, s: nat, g: nat): seq<int> {
    if log == [] then []
    else
      var last := log[|log| - 1];
      Of(log[..|log| - 1], s, g) + if last.stream == s && last.generation == g then [last.root] else []
  }

  /** That life of the stream is over, or the stream is closed. */
  predicate Over(st: State, s: nat, g: nat) {
    s in st.streams && (g < st.streams[s].generation || !st.streams[s].open)
  }

  /** Everything popped for one life has been delivered, or released, or waits in its batch, in this
      order; and nothing is released before that life is over. */
  ghost predicate Accounted(st: State, s: nat, g: nat) {
    && Of(st.popped, s, g) == Of(st.delivered, s, g) + (Of(st.released, s, g) + Waiting(st.batches, Life(s, g)))
    && (Of(st.released, s, g) != [] ==> Over(st, s, g))
  }

  ghost predicate Sound(st: State) {
    && Unique(st.batches)
    && (forall b <- st.batches :: b.key.stream in st.streams && b.key.generation <= st.streams[b.key.stream].generation)
    && (forall s <- st.streams, e <- st.streams[s].inbox :: e.stream == s && e.generation == st.streams[s].generation)
  }

  // ------------------------------------------------------------------ logs and batches

  lemma {:induction false} OfAppend(a: seq<Entry>, b: seq<Entry>, s: nat, g: nat)
    ensures Of(a + b, s, g) == Of(a, s, g) + Of(b, s, g)
  {
    if b == [] {
      assert a + b == a;
    } else {
      var n := |b| - 1;
      assert (a + b)[..|a + b| - 1] == a + b[..n];
      OfAppend(a, b[..n], s, g);
      Associative(Of(a, s, g), Of(b[..n], s, g), if b[n].stream == s && b[n].generation == g then [b[n].root] else []);
    }
  }

  lemma {:induction false} OfEntries(b: Batch<Life, int>, s: nat, g: nat)
    ensures Of(Entries(b), s, g) == if b.key == Life(s, g) then b.items else []
    decreases |b.items|
  {
    if b.items != [] {
      var n := |b.items| - 1;
      var shorter := b.(items := b.items[..n]);
      OfEntries(shorter, s, g);
      assert Entries(b)[..n] == Entries(shorter);
      assert b.items == b.items[..n] + [b.items[n]];
    }
  }

  // ------------------------------------------------------------------ steps

  lemma CollectAccounts(st: State, s: nat, root: int, t: nat, g: nat)
    requires Sound(st) && Enabled(st, Collect(s, root)) && Accounted(st, t, g)
    ensures Accounted(Apply(st, Collect(s, root)), t, g)
  {
    var e := Entry(s, st.streams[s].generation, root);
    JoinAppends(st.batches, Life(s, e.generation), [root], Life(t, g));
    OfAppend(st.popped, [e], t, g);
    assert [e][..0] == [];
    var one := if e.stream == t && e.generation == g then [e.root] else [];
    Associative(Of(st.released, t, g), Waiting(st.batches, Life(t, g)), one);
    Associative(Of(st.delivered, t, g), Of(st.released, t, g) + Waiting(st.batches, Life(t, g)), one);
  }

  lemma Regroup(d: seq<int>, r: seq<int>, mine: seq<int>, w: seq<int>)
    ensures d + (r + (mine + w)) == d + ((r + mine) + w)
    ensures r == [] || mine == [] ==> d + (r + (mine + w)) == (d + mine) + (r + w)
  {
    Associative(r, mine, w);
    Associative(d, mine, r + w);
    assert r == [] ==> r + (mine + w) == mine + (r + w);
    assert mine == [] ==> r + (mine + w) == mine + (r + w);
  }

  /** A batch that is handed over goes behind what was delivered before: none of that life has been
      released. One that is refused goes behind what was released before. */
  lemma FlushAccounts(st: State, t: nat, g: nat)
    requires Sound(st) && Enabled(st, FlushFirst) && Accounted(st, t, g)
    ensures Accounted(Apply(st, FlushFirst), t, g)
  {
    hide Of, Entries;
    var b := st.batches[0];
    var mine := if b.key == Life(t, g) then b.items else [];
    assert b in st.batches;
    OfEntries(b, t, g);
    OfAppend(st.delivered, Entries(b), t, g);
    OfAppend(st.released, Entries(b), t, g);
    Regroup(Of(st.delivered, t, g), Of(st.released, t, g), mine, Waiting(st.batches[1..], Life(t, g)));
  }

  lemma StepAccounts(st: State, step: Step, t: nat, g: nat)
    requires Sound(st) && Enabled(st, step) && Accounted(st, t, g)
    ensures Accounted(Apply(st, step), t, g)
  {
    match step
    case Collect(s, root) => CollectAccounts(st, s, root, t, g);
    case FlushFirst => FlushAccounts(st, t, g);
    case _ =>
  }

  lemma CollectSound(st: State, s: nat, root: int)
    requires Sound(st) && Enabled(st, Collect(s, root))
    ensures Sound(Apply(st, Collect(s, root)))
  {
    hide Join, Unique;
    JoinKeepsUnique(st.batches, Life(s, st.streams[s].generation), [root]);
  }

  /** A delivered batch leaves an inbox of one life. */
  lemma InboxGrows(streams: map<nat, Stream>, b: Batch<Life, int>, s: nat, e: Entry)
    requires Accepts(streams, b.key) && s in streams
    requires forall x <- streams[s].inbox :: x.stream == s && x.generation == streams[s].generation
    requires e in streams[s].inbox + if s == b.key.stream then Entries(b) else []
    ensures e.stream == s && e.generation == streams[s].generation
  {
  }

  lemma FlushSound(st: State)
    requires Sound(st) && Enabled(st, FlushFirst)
    ensures Sound(Apply(st, FlushFirst))
  {
    hide Entries;
    var st', b := Apply(st, FlushFirst), st.batches[0];
    assert b in st.batches && forall c <- st.batches[1..] :: c in st.batches;
    if Accepts(st.streams, b.key) {
      forall s <- st'.streams, e <- st'.streams[s].inbox ensures e.stream == s && e.generation == st'.streams[s].generation {
        InboxGrows(st.streams, b, s, e);
      }
    }
  }

  lemma StepSound(st: State, step: Step)
    requires Sound(st) && Enabled(st, step)
    ensures Sound(Apply(st, step))
  {
    match step
    case Collect(s, root) => CollectSound(st, s, root);
    case FlushFirst => FlushSound(st);
    case _ =>
  }

  lemma {:induction false} RunSound(st: State, steps: seq<Step>)
    requires Sound(st) && Exec(st, steps).Some?
    ensures Sound(Exec(st, steps).value)
    decreases |steps|
  {
    hide Sound, Apply;
    if steps != [] {
      StepSound(st, steps[0]);
      RunSound(Apply(st, steps[0]), steps[1..]);
    }
  }

  lemma {:induction false} RunAccounts(st: State, steps: seq<Step>, s: nat, g: nat)
    requires Sound(st) && Accounted(st, s, g) && Exec(st, steps).Some?
    ensures Accounted(Exec(st, steps).value, s, g)
    decreases |steps|
  {
    hide Sound, Accounted, Apply;
    if steps != [] {
      StepSound(st, steps[0]);
      StepAccounts(st, steps[0], s, g);
      RunAccounts(Apply(st, steps[0]), steps[1..], s, g);
    }
  }

  /** For every run, and every life of every stream: what is delivered in it is a prefix of what was
      popped in it, in the order of popping. Once the batches are flushed and while that life lasts,
      it is all of it, which is what delivering each message as it is popped would give. What is not
      delivered is released, exactly once. */
  lemma BatchesLoseNothing(start: State, steps: seq<Step>, s: nat, g: nat)
    requires Init(start) && Exec(start, steps).Some?
    ensures var st := Exec(start, steps).value;
            && Of(st.delivered, s, g) <= Of(st.popped, s, g)
            && (st.batches == [] ==> Of(st.popped, s, g) == Of(st.delivered, s, g) + Of(st.released, s, g))
            && (st.batches == [] && !Over(st, s, g) ==> Of(st.delivered, s, g) == Of(st.popped, s, g))
  {
    RunAccounts(start, steps, s, g);
  }

  /** For every run: an inbox holds nothing that was popped in another life of its stream. */
  lemma NothingCrossesLives(start: State, steps: seq<Step>, s: nat, i: nat)
    requires Init(start) && Exec(start, steps).Some?
    requires var st := Exec(start, steps).value; s in st.streams && i < |st.streams[s].inbox|
    ensures var stream := Exec(start, steps).value.streams[s];
            stream.inbox[i].stream == s && stream.inbox[i].generation == stream.generation
  {
    RunSound(start, steps);
    var stream := Exec(start, steps).value.streams[s];
    assert stream.inbox[i] in stream.inbox;
  }

  /** For every run: when a close from the ring is applied to a stream that is still open, everything
      popped before it in this life has been delivered. */
  lemma CloseComesLast(start: State, steps: seq<Step>, s: nat)
    requires Init(start) && Exec(start, steps).Some?
    requires Enabled(Exec(start, steps).value, CloseElement(s))
    ensures var st := Exec(start, steps).value;
            var g := st.streams[s].generation;
            st.streams[s].open ==> Of(st.delivered, s, g) == Of(st.popped, s, g)
  {
    BatchesLoseNothing(start, steps, s, Exec(start, steps).value.streams[s].generation);
  }
}
