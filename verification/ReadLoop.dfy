/** Taking events off the unix socket: `handle_events` and `read_loop` of src/session/mod.rs over the
    buffered reader. What an event then does is not part of this module. */
module ReadLoop {
  import opened Common
  import opened Wrappers
  import opened Sequences
  import opened Frames
  import opened BufReader

  datatype Next = Fill(n: nat) | FallbackPayload(id: nat, status: nat, len: nat)

  /** The bytes are, as far as they go, a sequence of events the peer sends. */
  ghost predicate Carries(bytes: seq<byte>, version: nat, es: seq<Event>) {
    version <= MAX_VERSION && AllValid(es) && bytes <= EncodeAll(version, es)
  }

  /** `k` events and then `at` more bytes of the encoding have been taken; `left` is what remains. */
  ghost predicate Taken(version: nat, es: seq<Event>, k: nat, at: nat, left: seq<byte>)
    requires version <= MAX_VERSION && AllValid(es)
  {
    k <= |es| && at <= |EncodeAll(version, es)| && EncodeAll(version, es)[at..] == left
  }

  /** The tail of a valid list of events is valid, and encodes as the tail of the encoding. */
  lemma EncodeFrom(version: nat, es: seq<Event>, k: nat)
    requires version <= MAX_VERSION && AllValid(es) && k < |es|
    ensures es[k].Valid() && AllValid(es[k..]) && AllValid(es[k + 1..])
    ensures EncodeAll(version, es[k..]) == Encode(version, es[k]) + EncodeAll(version, es[k + 1..])
  {
    assert es[k..][0] == es[k] && es[k..][1..] == es[k + 1..];
  }

  /** With a whole header buffered there is a next event, and its header reads back. */
  lemma NextHeader(version: nat, es: seq<Event>, k: nat, b: seq<byte>)
    requires version <= MAX_VERSION && AllValid(es) && k <= |es| && AllValid(es[k..])
    requires b <= EncodeAll(version, es[k..]) && |b| >= HEADER_SIZE
    ensures k < |es| && es[k].Valid()
    ensures HeaderLength(b) == Length(es[k]) && HeaderMagic(b) == (0x77, 0x58)
    ensures HeaderVersion(b) == version && HeaderKind(b) == Kind(es[k])
  {
    if k < |es| {
      EncodeFrom(version, es, k);
      var all := EncodeAll(version, es[k..]);
      assert b[..HEADER_SIZE] == all[..HEADER_SIZE] == Encode(version, es[k])[..HEADER_SIZE];
      HeaderReadsBack(version, es[k], b);
    }
  }

  /** The id, and the status, behind a header read back. */
  lemma NextBody(version: nat, es: seq<Event>, k: nat, b: seq<byte>)
    requires version <= MAX_VERSION && AllValid(es) && k < |es| && AllValid(es[k..]) && es[k].Valid()
    requires b <= EncodeAll(version, es[k..])
    ensures es[k].StreamClose? && |b| >= 12 ==> FromU32(b[8..12]) == es[k].id
    ensures es[k].Fallback? && |b| >= 16 ==> FromU32(b[8..12]) == es[k].id && FromU32(b[12..16]) == es[k].status
  {
    hide Encode, EncodeAll, U32, FromU32;
    EncodeFrom(version, es, k);
    BodyFields(version, es[k]);
    var one, all := Encode(version, es[k]), EncodeAll(version, es[k..]);
    if !es[k].Polling? && |b| >= 12 {
      SliceOfPrefix(b, all, 8, 12);
      SliceOfPrefix(one, all, 8, 12);
      U32RoundTrip(es[k].id);
    }
    if es[k].Fallback? && |b| >= 16 {
      SliceOfPrefix(b, all, 12, 16);
      SliceOfPrefix(one, all, 12, 16);
      U32RoundTrip(es[k].status);
    }
  }

  /** Taking one more whole event, or a fallback event up to its payload. */
  lemma TakeOne(version: nat, es: seq<Event>, k: nat, at: nat)
    requires version <= MAX_VERSION && AllValid(es) && k < |es| && AllValid(es[k..])
    requires Taken(version, es, k, at, EncodeAll(version, es[k..]))
    ensures es[k].Valid() && AllValid(es[k + 1..])
    ensures Taken(version, es, k + 1, at + Length(es[k]), EncodeAll(version, es[k + 1..]))
    ensures es[k].Fallback? ==>
              Taken(version, es, k, at + EVENT_HEADER, es[k].payload + EncodeAll(version, es[k + 1..]))
  {
    hide Encode, EncodeAll;
    EncodeFrom(version, es, k);
    var all, one, more := EncodeAll(version, es), Encode(version, es[k]), EncodeAll(version, es[k + 1..]);
    assert all[at..] == one + more;
    assert all[at + |one|..] == all[at..][|one|..];
    if es[k].Fallback? {
      BodyFields(version, es[k]);
      assert all[at + EVENT_HEADER..] == all[at..][EVENT_HEADER..];
      assert (one + more)[EVENT_HEADER..] == one[EVENT_HEADER..] + more;
    }
  }

  /** `events` are the first events the buffer carries, and `consumed` is where they end. */
  ghost predicate InStep(version: nat, es: seq<Event>, consumed: nat, events: seq<Event>)
    requires version <= MAX_VERSION && AllValid(es)
  {
    && |events| <= |es| && events == es[..|events|] && AllValid(es[|events|..])
    && Taken(version, es, |events|, consumed, EncodeAll(version, es[|events|..]))
  }

  /** What the front of the unconsumed bytes says about the next event. */
  ghost predicate Announces(b: seq<byte>, version: nat, es: seq<Event>, k: nat)
    requires |b| >= HEADER_SIZE
  {
    && k < |es| && es[k].Valid() && HeaderLength(b) == Length(es[k]) && HeaderMagic(b) == (0x77, 0x58)
    && HeaderVersion(b) == version && HeaderKind(b) == Kind(es[k])
    && (es[k].StreamClose? && |b| >= 12 ==> FromU32(b[8..12]) == es[k].id)
    && (es[k].Fallback? && |b| >= 16 ==> FromU32(b[8..12]) == es[k].id && FromU32(b[12..16]) == es[k].status)
  }

  lemma AtHeader(buf: seq<byte>, version: nat, es: seq<Event>, consumed: nat, events: seq<Event>)
    requires Carries(buf, version, es) && InStep(version, es, consumed, events) && consumed + HEADER_SIZE <= |buf|
    ensures Announces(buf[consumed..], version, es, |events|)
  {
    var all := EncodeAll(version, es);
    assert buf[consumed..] <= all[consumed..];
    NextHeader(version, es, |events|, buf[consumed..]);
    NextBody(version, es, |events|, buf[consumed..]);
  }

  lemma OneEvent(version: nat, es: seq<Event>, consumed: nat, events: seq<Event>)
    requires version <= MAX_VERSION && AllValid(es) && InStep(version, es, consumed, events) && |events| < |es|
    ensures InStep(version, es, consumed + Length(es[|events|]), events + [es[|events|]])
  {
    hide EncodeAll, Encode;
    var k := |events|;
    TakeOne(version, es, k, consumed);
    assert es[..k + 1] == es[..k] + [es[k]];
  }

  function MinLength(kind: nat): nat {
    if kind == 2 then HEADER_SIZE + 4 else if kind == 3 then EVENT_HEADER else HEADER_SIZE
  }

  /** How much of an event has to be buffered at once. */
  function Head(e: Event): (n: nat)
    ensures HEADER_SIZE <= n <= EVENT_HEADER && n <= Length(e)
  {
    MinLength(Kind(e))
  }

  /** What to wait for next: a header, or the rest of the head it announces. */
  ghost predicate Asks(es: seq<Event>, k: nat, n: nat) {
    n == HEADER_SIZE || (k < |es| && n == Head(es[k]))
  }

  /** Where `handle_events` stops: short of a frame, asking for its header or its head, or behind the
      head of a fallback frame, about to read its payload. */
  ghost predicate Stopped(version: nat, es: seq<Event>, consumed: nat, next: Next, events: seq<Event>)
    requires version <= MAX_VERSION && AllValid(es)
  {
    var k := |events|;
    match next
    case Fill(n) => InStep(version, es, consumed, events) && Asks(es, k, n)
    case FallbackPayload(id, status, len) =>
      && k < |es| && events == es[..k] && es[k].Fallback? && es[k].id == id && es[k].status == status
      && len == |es[k].payload|
      && AllValid(es[k + 1..]) && Taken(version, es, k, consumed, es[k].payload + EncodeAll(version, es[k + 1..]))
  }

  lemma StopsAtPayload(version: nat, es: seq<Event>, consumed: nat, events: seq<Event>)
    requires version <= MAX_VERSION && AllValid(es) && InStep(version, es, consumed, events)
    requires |events| < |es| && es[|events|].Fallback?
    ensures var e := es[|events|];
            Stopped(version, es, consumed + EVENT_HEADER, FallbackPayload(e.id, e.status, |e.payload|), events)
  {
    TakeOne(version, es, |events|, consumed);
  }

  /** Handle every complete event in the buffer. Bytes that begin a sequence of events are never
      refused: the events found are exactly its first ones, and what is asked for next is more than
      is buffered: a header, or the head that a buffered header announces. */
  method HandleEvents(buf: seq<byte>) returns (consumed: nat, next: Next, err: Option<StreamError>, events: seq<Event>)
    ensures consumed <= |buf|
    ensures err.None? && next.Fill? ==>
              HEADER_SIZE <= next.n <= EVENT_HEADER && |buf| - consumed < next.n && (next.n > HEADER_SIZE ==> |buf| - consumed >= HEADER_SIZE)
    ensures err.None? && next.FallbackPayload? ==> consumed >= EVENT_HEADER
    ensures forall e <- events :: Head(e) <= |buf|
    ensures forall version, es | Carries(buf, version, es) ::
              err.None? && Stopped(version, es, consumed, next, events)
  {
    hide EncodeAll, Encode, FromU32, HeaderLength, HeaderMagic, HeaderVersion, HeaderKind;
    consumed, events := 0, [];
    forall version, es | Carries(buf, version, es) ensures InStep(version, es, consumed, events) {
      assert es[0..] == es;
    }
    while |buf| - consumed >= HEADER_SIZE
      invariant consumed <= |buf| && forall e <- events :: Head(e) <= |buf|
      invariant forall version, es | Carries(buf, version, es) :: InStep(version, es, consumed, events)
      decreases |buf| - consumed
    {
      var b := buf[consumed..];
      forall version, es | Carries(buf, version, es) ensures Announces(b, version, es, |events|) {
        AtHeader(buf, version, es, consumed, events);
      }
      if HeaderMagic(b) != (0x77, 0x58) || HeaderVersion(b) > MAX_VERSION {
        return consumed + HEADER_SIZE, Fill(HEADER_SIZE), Some(InvalidVersion), events;
      }
      if HeaderKind(b) > 10 { return consumed + HEADER_SIZE, Fill(HEADER_SIZE), Some(InvalidMsgType), events; }
      if HeaderLength(b) > MAX_FRAME { return consumed + HEADER_SIZE, Fill(HEADER_SIZE), Some(SizeTooLarge), events; }
      if HeaderLength(b) < MinLength(HeaderKind(b)) {
        return consumed + HEADER_SIZE, Fill(HEADER_SIZE), Some(NotEnoughData), events;
      }
      if HeaderKind(b) == 3 {
        if |b| < EVENT_HEADER { return consumed, Fill(EVENT_HEADER), None, events; }
        var id, status, len := FromU32(b[8..12]), FromU32(b[12..16]) % 0x100, HeaderLength(b) - EVENT_HEADER;
        forall version, es | Carries(buf, version, es)
          ensures Stopped(version, es, consumed + EVENT_HEADER, FallbackPayload(id, status, len), events)
        {
          assert Announces(b, version, es, |events|);
          StopsAtPayload(version, es, consumed, events);
        }
        return consumed + EVENT_HEADER, FallbackPayload(id, status, len), None, events;
      } else if HeaderKind(b) == 2 {
        if |b| < HEADER_SIZE + 4 { return consumed, Fill(HEADER_SIZE + 4), None, events; }
        var event := StreamClose(FromU32(b[8..12]));
        forall version, es | Carries(buf, version, es) ensures InStep(version, es, consumed + 12, events + [event]) {
          assert Announces(b, version, es, |events|);
          OneEvent(version, es, consumed, events);
        }
        consumed, events := consumed + HEADER_SIZE + 4, events + [event];
      } else if HeaderKind(b) == 1 {
        forall version, es | Carries(buf, version, es) ensures InStep(version, es, consumed + 8, events + [Polling]) {
          assert Announces(b, version, es, |events|);
          OneEvent(version, es, consumed, events);
        }
        consumed, events := consumed + HEADER_SIZE, events + [Polling];
      } else {
        return consumed + HEADER_SIZE, Fill(HEADER_SIZE), Some(InvalidMsgType), events;
      }
    }
    return consumed, Fill(HEADER_SIZE), None, events;
  }

  /** `k` is the number of whole frames in the bytes that came. */
  ghost predicate Whole(version: nat, es: seq<Event>, k: nat, came: nat)
    requires version <= MAX_VERSION && AllValid(es)
  {
    && k <= |es| && |EncodeAll(version, es[..k])| <= came
    && (k < |es| ==> came < |EncodeAll(version, es[..k + 1])|)
  }

  lemma {:induction false} PrefixLength(version: nat, es: seq<Event>, k: nat)
    requires version <= MAX_VERSION && AllValid(es) && k <= |es|
    ensures |EncodeAll(version, es)| == |EncodeAll(version, es[..k])| + |EncodeAll(version, es[k..])|
  {
    if k == 0 {
      assert es[..0] == [] && es[0..] == es;
    } else {
      assert es[..k][0] == es[0] && es[..k][1..] == es[1..][..k - 1] && es[1..][k - 1..] == es[k..];
      PrefixLength(version, es[1..], k - 1);
    }
  }

  /** Too few bytes left for the next frame means that every whole frame has been taken. */
  lemma StopsWhole(version: nat, es: seq<Event>, k: nat, came: nat, left: nat)
    requires version <= MAX_VERSION && AllValid(es) && k <= |es| && AllValid(es[k..])
    requires came == |EncodeAll(version, es[..k])| + left
    requires k < |es| ==> es[k].Valid() && left < Length(es[k])
    ensures Whole(version, es, k, came)
  {
    if k < |es| {
      var more := es[..k + 1];
      PrefixLength(version, more, k);
      assert more[..k] == es[..k] && more[k..] == [es[k]];
      assert EncodeAll(version, [es[k]]) == Encode(version, es[k]) + EncodeAll(version, []);
    }
  }

  /** The loop has taken `events` off the front of what came, and waits for `n` bytes of the next. */
  ghost predicate Waiting(version: nat, es: seq<Event>, done: nat, events: seq<Event>, n: nat)
    requires version <= MAX_VERSION && AllValid(es)
  {
    InStep(version, es, done, events) && Asks(es, |events|, n)
  }

  /** What is buffered carries the events not taken yet. */
  lemma BufferCarries(came: seq<byte>, version: nat, es: seq<Event>, done: nat, events: seq<Event>, buf: seq<byte>)
    requires Carries(came, version, es) && InStep(version, es, done, events) && done <= |came| && buf <= came[done..]
    ensures Carries(buf, version, es[|events|..])
  {
    assert came[done..] <= EncodeAll(version, es)[done..];
  }

  /** What `handle_events` found in the buffer is what comes next in the stream. */
  lemma Compose(version: nat, es: seq<Event>, done: nat, events: seq<Event>, consumed: nat, more: seq<Event>, left: seq<byte>)
    requires version <= MAX_VERSION && AllValid(es) && InStep(version, es, done, events)
    requires var rest := es[|events|..]; |more| <= |rest| && more == rest[..|more|] && Taken(version, rest, |more|, consumed, left)
    ensures var k := |events| + |more|;
            && k <= |es| && events + more == es[..k] && es[k..] == es[|events|..][|more|..]
            && Taken(version, es, k, done + consumed, left)
  {
    var all, rest := EncodeAll(version, es), EncodeAll(version, es[|events|..]);
    assert all[done + consumed..] == all[done..][consumed..];
  }

  lemma WaitsOn(version: nat, es: seq<Event>, done: nat, events: seq<Event>, consumed: nat, n: nat, more: seq<Event>)
    requires version <= MAX_VERSION && AllValid(es) && InStep(version, es, done, events)
    requires Stopped(version, es[|events|..], consumed, Fill(n), more)
    ensures Waiting(version, es, done + consumed, events + more, n)
  {
    hide EncodeAll;
    var rest := es[|events|..];
    Compose(version, es, done, events, consumed, more, EncodeAll(version, rest[|more|..]));
    if |more| < |rest| { assert rest[|more|] == es[|events| + |more|]; }
  }

  /** A fallback payload, read past the buffer, completes its event. */
  lemma PayloadCompletes(came: seq<byte>, version: nat, es: seq<Event>, done: nat, events: seq<Event>,
                         next: Next, payload: seq<byte>)
    requires Carries(came, version, es) && next.FallbackPayload? && Stopped(version, es, done, next, events)
    requires done + next.len <= |came| && payload == came[done..done + next.len]
    ensures Waiting(version, es, done + next.len, events + [Fallback(next.id, next.status, payload)], HEADER_SIZE)
  {
    hide EncodeAll;
    var k, all := |events|, EncodeAll(version, es);
    var more := EncodeAll(version, es[k + 1..]);
    assert all[done..] == es[k].payload + more;
    CutFront(all, done, es[k].payload, more);
    assert came[done..done + next.len] == all[done..done + next.len];
    assert es[..k + 1] == es[..k] + [es[k]];
  }

  /** The loop stops only when the next frame is not all there. */
  lemma StopsShort(came: seq<byte>, version: nat, es: seq<Event>, done: nat, events: seq<Event>, n: nat)
    requires Carries(came, version, es) && Waiting(version, es, done, events, n) && done <= |came| < done + n
    ensures Whole(version, es, |events|, |came|)
  {
    PrefixLength(version, es, |events|);
    if |events| < |es| { assert es[|events|] in es; }
    StopsWhole(version, es, |events|, |came|, |came| - done);
  }

  lemma StopsInPayload(came: seq<byte>, version: nat, es: seq<Event>, done: nat, events: seq<Event>, next: Next)
    requires Carries(came, version, es) && next.FallbackPayload? && Stopped(version, es, done, next, events)
    requires done <= |came| < done + next.len
    ensures Whole(version, es, |events|, |came|)
  {
    var k := |events|;
    EncodeFrom(version, es, k);
    PrefixLength(version, es, k);
    StopsWhole(version, es, k, |came|, |came| - done + EVENT_HEADER);
  }

  lemma PayloadNext(version: nat, es: seq<Event>, done: nat, events: seq<Event>, consumed: nat, next: Next, more: seq<Event>)
    requires version <= MAX_VERSION && AllValid(es) && InStep(version, es, done, events) && next.FallbackPayload?
    requires Stopped(version, es[|events|..], consumed, next, more)
    ensures Stopped(version, es, done + consumed, next, events + more)
  {
    hide EncodeAll;
    var rest := es[|events|..];
    var k := |events| + |more|;
    assert rest[|more|] == es[k] && rest[|more| + 1..] == es[k + 1..];
    Compose(version, es, done, events, consumed, more, es[k].payload + EncodeAll(version, es[k + 1..]));
  }

  /** The loop ends after `k` events because the head of the next does not fit a buffer of `cap` bytes,
      or no header does, or because the next event did not come whole. */
  ghost predicate Ends(version: nat, es: seq<Event>, k: nat, came: nat, cap: nat, err: StreamError)
    requires version <= MAX_VERSION && AllValid(es)
  {
    && k <= |es| && |EncodeAll(version, es[..k])| <= came && (forall i | 0 <= i < k :: Head(es[i]) <= cap)
    && if cap < HEADER_SIZE then err == ReadBufferTooSmall
       else if Blocked(version, es, k, came, cap) then err == ReadBufferTooSmall
       else err == EndOfStream && Whole(version, es, k, came)
  }

  /** The header of event `k` came, and announces a head that does not fit the buffer. */
  ghost predicate Blocked(version: nat, es: seq<Event>, k: nat, came: nat, cap: nat)
    requires version <= MAX_VERSION && AllValid(es)
  {
    k < |es| && Head(es[k]) > cap && |EncodeAll(version, es[..k])| + HEADER_SIZE <= came
  }

  /** The loop can have no more: either the buffer or the stream is too short for what it waits for. */
  lemma EndsWaiting(came: seq<byte>, version: nat, es: seq<Event>, done: nat, events: seq<Event>, n: nat, cap: nat)
    requires Carries(came, version, es) && Waiting(version, es, done, events, n) && done <= |came|
    requires n > HEADER_SIZE ==> done + HEADER_SIZE <= |came|
    requires cap < n || |came| < done + n
    requires cap < HEADER_SIZE ==> events == []
    requires forall e <- events :: Head(e) <= cap
    ensures Ends(version, es, |events|, |came|, cap, if cap < n then ReadBufferTooSmall else EndOfStream)
  {
    hide EncodeAll, Whole;
    PrefixLength(version, es, |events|);
    assert forall i | 0 <= i < |events| :: es[i] == events[i] && events[i] in events;
    if cap >= n { StopsShort(came, version, es, done, events, n); }
  }

  lemma EndsInPayload(came: seq<byte>, version: nat, es: seq<Event>, done: nat, events: seq<Event>, next: Next, cap: nat)
    requires Carries(came, version, es) && next.FallbackPayload? && Stopped(version, es, done, next, events)
    requires done <= |came| < done + next.len && cap >= EVENT_HEADER
    requires forall e <- events :: Head(e) <= cap
    ensures Ends(version, es, |events|, |came|, cap, EndOfStream)
  {
    hide EncodeAll, Whole;
    StopsInPayload(came, version, es, done, events, next);
    PrefixLength(version, es, |events|);
    WholeTook(version, es, |events|, |came|);
    assert forall i | 0 <= i < |events| :: es[i] == events[i] && events[i] in events;
  }

  lemma WholeTook(version: nat, es: seq<Event>, k: nat, came: nat)
    requires version <= MAX_VERSION && AllValid(es) && Whole(version, es, k, came)
    ensures k <= |es| && |EncodeAll(version, es[..k])| <= came
  {
  }

  /** The head of every event fits a buffer of `cap` bytes. */
  ghost predicate AllFit(events: seq<Event>, cap: nat) {
    (cap < HEADER_SIZE ==> events == []) && forall e <- events :: Head(e) <= cap
  }

  lemma AllFitJoined(events: seq<Event>, more: seq<Event>, cap: nat)
    requires AllFit(events, cap) && (forall e <- more :: Head(e) <= cap) && cap >= HEADER_SIZE
    ensures AllFit(events + more, cap)
  {
  }

  /** `stream` is the end of what came. */
  predicate EndOf(stream: seq<byte>, came: seq<byte>) {
    |stream| <= |came| && stream == came[|came| - |stream|..]
  }

  /** Whatever the events that came are, the loop has taken `events` off their front, has `left` bytes to
      go, and waits for `n` of them. */
  ghost predicate OnTrack(came: seq<byte>, left: nat, events: seq<Event>, n: nat)
    requires left <= |came|
  {
    forall version, es | Carries(came, version, es) :: Waiting(version, es, |came| - left, events, n)
  }

  /** Likewise in front of a fallback payload. */
  ghost predicate AtPayload(came: seq<byte>, left: nat, events: seq<Event>, next: Next)
    requires left <= |came|
  {
    forall version, es | Carries(came, version, es) :: Stopped(version, es, |came| - left, next, events)
  }

  /** Whatever the events that came are, `events` are their first ones, and the loop is right to end
      here with `err`. */
  ghost predicate Finished(came: seq<byte>, events: seq<Event>, cap: nat, err: StreamError) {
    forall version, es | Carries(came, version, es) :: events <= es && Ends(version, es, |events|, |came|, cap, err)
  }

  /** One round of the loop: have `n` bytes, handle what is there. */
  method Round(r: BufReader, n: nat, ghost came: seq<byte>, events: seq<Event>)
    returns (next: Next, err: Option<StreamError>, events': seq<Event>)
    requires r.Valid() && HEADER_SIZE <= n <= EVENT_HEADER && (n > HEADER_SIZE ==> |r.Stream()| >= HEADER_SIZE)
    requires EndOf(r.Stream(), came) && AllFit(events, r.buf.Length) && OnTrack(came, |r.Stream()|, events, n)
    modifies r, r.buf, r.inner
    ensures r.Valid() && |r.Stream()| <= |old(r.Stream())| && EndOf(r.Stream(), came)
    ensures err.None? ==> |r.inner.wire| <= |old(r.inner.wire)| && AllFit(events', r.buf.Length)
    ensures err.None? && next.Fill? ==>
              && HEADER_SIZE <= next.n <= EVENT_HEADER && r.len - r.pos < next.n
              && (next.n > HEADER_SIZE ==> |r.Stream()| >= HEADER_SIZE)
              && (|r.Stream()| < |old(r.Stream())| || |r.inner.wire| < |old(r.inner.wire)| || old(r.len - r.pos) >= n)
    ensures err.None? && next.FallbackPayload? ==> |r.Stream()| < |old(r.Stream())| && r.buf.Length >= EVENT_HEADER
    ensures if err.Some? then Finished(came, events', r.buf.Length, err.value)
            else if next.Fill? then OnTrack(came, |r.Stream()|, events', next.n)
            else AtPayload(came, |r.Stream()|, events', next)
  {
    hide EncodeAll, Encode, InStep, Stopped, Whole, Ends, Asks, AllFit, OnTrack, AtPayload, Finished, Carries;
    ghost var done := |came| - |r.Stream()|;
    var filled := r.FillAtLeast(n);
    if filled.Err? {
      var why := if filled.error.TooLarge? then ReadBufferTooSmall else EndOfStream;
      FinishedWaiting(came, done, events, n, r.buf.Length);
      return Fill(n), Some(why), events;
    }
    var buf := filled.value;
    assert buf <= came[done..];
    var consumed, more;
    consumed, next, err, more := HandleEvents(buf);
    events' := events + more;
    AllFitJoined(events, more, r.buf.Length);
    Handled(came, done, events, n, buf, consumed, next, err, more, r.buf.Length);
    r.Consume(consumed);
    assert r.Stream() == came[done + consumed..];
  }

  /** The reader cannot have `n` bytes: the loop ends. */
  lemma FinishedWaiting(came: seq<byte>, done: nat, events: seq<Event>, n: nat, cap: nat)
    requires done <= |came| && OnTrack(came, |came| - done, events, n) && AllFit(events, cap)
    requires n > HEADER_SIZE ==> done + HEADER_SIZE <= |came|
    requires cap < n || |came| < done + n
    ensures Finished(came, events, cap, if cap < n then ReadBufferTooSmall else EndOfStream)
  {
    hide EncodeAll, Encode, InStep, Whole, Ends, Asks;
    forall version, es | Carries(came, version, es)
      ensures events <= es && Ends(version, es, |events|, |came|, cap, if cap < n then ReadBufferTooSmall else EndOfStream)
    {
      EndsWaiting(came, version, es, done, events, n, cap);
      InStepEvents(version, es, done, events);
    }
  }

  /** What `handle_events` found in the buffer carries the loop on. */
  lemma Handled(came: seq<byte>, done: nat, events: seq<Event>, n: nat, buf: seq<byte>,
                consumed: nat, next: Next, err: Option<StreamError>, more: seq<Event>, cap: nat)
    requires done <= |came| && OnTrack(came, |came| - done, events, n) && buf <= came[done..] && consumed <= |buf|
    requires forall version, es | Carries(buf, version, es) :: err.None? && Stopped(version, es, consumed, next, more)
    ensures var left := |came| - done - consumed;
            if err.Some? then Finished(came, events + more, cap, err.value)
            else if next.Fill? then OnTrack(came, left, events + more, next.n)
            else AtPayload(came, left, events + more, next)
  {
    hide EncodeAll, Encode, InStep, Stopped, Whole, Ends, Asks;
    forall version, es | Carries(came, version, es)
      ensures err.None?
      ensures if next.Fill? then Waiting(version, es, done + consumed, events + more, next.n)
              else Stopped(version, es, done + consumed, next, events + more)
    {
      InStepEvents(version, es, done, events);
      BufferCarries(came, version, es, done, events, buf);
      assert Stopped(version, es[|events|..], consumed, next, more);
      if next.Fill? {
        WaitsOn(version, es, done, events, consumed, next.n, more);
      } else {
        PayloadNext(version, es, done, events, consumed, next, more);
      }
    }
  }

  /** Read the payload of a fallback frame past the buffer: the event is complete, or the stream ended. */
  method TakePayload(r: BufReader, next: Next, ghost came: seq<byte>, events: seq<Event>)
    returns (err: Option<StreamError>, events': seq<Event>)
    requires r.Valid() && next.FallbackPayload? && r.buf.Length >= EVENT_HEADER && EndOf(r.Stream(), came)
    requires AllFit(events, r.buf.Length) && AtPayload(came, |r.Stream()|, events, next)
    modifies r, r.buf, r.inner
    ensures r.Valid() && (err.None? ==> |r.Stream()| <= |old(r.Stream())| && EndOf(r.Stream(), came))
    ensures if err.Some? then Finished(came, events', r.buf.Length, err.value)
            else AllFit(events', r.buf.Length) && OnTrack(came, |r.Stream()|, events', HEADER_SIZE)
  {
    hide EncodeAll, Encode, InStep, Stopped, Whole, Ends, Asks, AllFit, OnTrack, AtPayload, Finished, Carries;
    ghost var done := |came| - |r.Stream()|;
    var payload := r.ReadExact(next.len);
    if payload.Err? {
      FinishedInPayload(came, done, events, next, r.buf.Length);
      return Some(EndOfStream), events;
    }
    CutFront(came, done, payload.value, r.Stream());
    PayloadTaken(came, done, events, next, payload.value);
    AllFitJoined(events, [Fallback(next.id, next.status, payload.value)], r.buf.Length);
    return None, events + [Fallback(next.id, next.status, payload.value)];
  }

  lemma FinishedInPayload(came: seq<byte>, done: nat, events: seq<Event>, next: Next, cap: nat)
    requires done <= |came| && next.FallbackPayload? && AtPayload(came, |came| - done, events, next)
    requires |came| < done + next.len && cap >= EVENT_HEADER && AllFit(events, cap)
    ensures Finished(came, events, cap, EndOfStream)
  {
    hide EncodeAll, Encode, InStep, Stopped, Whole, Ends, Asks;
    forall version, es | Carries(came, version, es) ensures events <= es && Ends(version, es, |events|, |came|, cap, EndOfStream) {
      EndsInPayload(came, version, es, done, events, next, cap);
      StoppedEvents(version, es, done, next, events);
    }
  }

  lemma PayloadTaken(came: seq<byte>, done: nat, events: seq<Event>, next: Next, payload: seq<byte>)
    requires next.FallbackPayload? && done + next.len <= |came| && AtPayload(came, |came| - done, events, next)
    requires payload == came[done..done + next.len]
    ensures OnTrack(came, |came| - done - next.len, events + [Fallback(next.id, next.status, payload)], HEADER_SIZE)
  {
    hide EncodeAll, Encode, InStep, Stopped, Whole, Ends, Asks, Waiting;
    forall version, es | Carries(came, version, es)
      ensures Waiting(version, es, done + next.len, events + [Fallback(next.id, next.status, payload)], HEADER_SIZE)
    {
      PayloadCompletes(came, version, es, done, events, next, payload);
    }
  }

  lemma InStepEvents(version: nat, es: seq<Event>, done: nat, events: seq<Event>)
    requires version <= MAX_VERSION && AllValid(es) && InStep(version, es, done, events)
    ensures |events| <= |es| && events == es[..|events|]
  {
  }

  /** `read_loop`, from an empty or a filled buffer to the end of the stream or the first error. For
      every way the socket cuts the bytes into reads, and every capacity of the buffer: if the bytes
      are, as far as they came, a sequence of events, then exactly the events that came whole are taken,
      in order, up to the first whose head does not fit the buffer; and the loop reports which of the
      two stopped it. */
  method ReadEvents(r: BufReader) returns (events: seq<Event>, err: StreamError)
    requires r.Valid()
    modifies r, r.buf, r.inner
    ensures forall version, es | Carries(old(r.Stream()), version, es) ::
              events <= es && Ends(version, es, |events|, |old(r.Stream())|, r.buf.Length, err)
  {
    hide EncodeAll, Encode, InStep, Stopped, Whole, Ends, Asks, AllFit, OnTrack, AtPayload;
    ghost var came := r.Stream();
    var n := HEADER_SIZE;
    events := [];
    NothingTaken(came, r.buf.Length);
    while true
      invariant r.Valid() && HEADER_SIZE <= n <= EVENT_HEADER && (n > HEADER_SIZE ==> |r.Stream()| >= HEADER_SIZE)
      invariant EndOf(r.Stream(), came) && AllFit(events, r.buf.Length) && OnTrack(came, |r.Stream()|, events, n)
      decreases |r.Stream()|, |r.inner.wire|, if r.len - r.pos < n then 0 else 1
    {
      var next, failed;
      next, failed, events := Round(r, n, came, events);
      if failed.Some? { return events, failed.value; }
      if next.Fill? {
        n := next.n;
        continue;
      }
      failed, events := TakePayload(r, next, came, events);
      if failed.Some? { return events, failed.value; }
      n := HEADER_SIZE;
    }
  }

  lemma NothingTaken(came: seq<byte>, cap: nat)
    ensures AllFit([], cap) && OnTrack(came, |came|, [], HEADER_SIZE) && EndOf(came, came)
  {
    forall version, es | Carries(came, version, es) ensures Waiting(version, es, 0, [], HEADER_SIZE) {
      Begins(version, es);
    }
  }

  /** Of the `whole` events that came, all are taken exactly when every head fits the buffer. */
  lemma AllTakenIff(version: nat, es: seq<Event>, k: nat, whole: nat, came: nat, cap: nat, err: StreamError)
    requires version <= MAX_VERSION && AllValid(es) && Ends(version, es, k, came, cap, err) && Whole(version, es, whole, came)
    ensures k == whole <==> forall i | 0 <= i < whole :: Head(es[i]) <= cap
  {
    LongerPrefix(version, es, whole + 1, k, came);
    LongerPrefix(version, es, k + 1, whole, came);
  }

  /** A longer prefix has a longer encoding; so what has come whole does not reach past what has not. */
  lemma LongerPrefix(version: nat, es: seq<Event>, j: nat, k: nat, came: nat)
    requires version <= MAX_VERSION && AllValid(es) && 0 < j && k <= |es| && |EncodeAll(version, es[..k])| <= came
    ensures j <= k ==> |EncodeAll(version, es[..j])| <= came && |EncodeAll(version, es[..j - 1])| + HEADER_SIZE <= came
  {
    if j <= k {
      hide EncodeAll, Encode;
      var front, last := es[..k], es[j - 1];
      PrefixLength(version, front, j);
      PrefixLength(version, front[..j], j - 1);
      assert front[..j] == es[..j] && es[..j][..j - 1] == es[..j - 1] && es[..j][j - 1..] == [last];
      OneLength(version, last);
    }
  }

  lemma OneLength(version: nat, e: Event)
    requires version <= MAX_VERSION && e.Valid()
    ensures AllValid([e]) && |EncodeAll(version, [e])| == Length(e) >= HEADER_SIZE
  {
    assert EncodeAll(version, [e]) == Encode(version, e) + EncodeAll(version, []);
  }

  /** With a buffer of twelve bytes, which the environment can ask for, a fallback frame is lost even
      though all of it came. */
  method SmallBufferMisses() returns (events: seq<Event>, err: StreamError)
    ensures events == [] && err == ReadBufferTooSmall
  {
    ghost var es := [Fallback(1, 0, [7])];
    var wire := Encode(5, Fallback(1, 0, [7]));
    assert EncodeAll(5, es) == wire + EncodeAll(5, []);
    var socket := new Socket(wire, _ => 16);
    var r := new BufReader(12, socket);
    assert Carries(r.Stream(), 5, es);
    events, err := ReadEvents(r);
    assert es[..0] == [];
  }

  lemma CutFront(came: seq<byte>, done: nat, front: seq<byte>, rest: seq<byte>)
    requires done <= |came| && front + rest == came[done..]
    ensures front == came[done..done + |front|] && rest == came[done + |front|..]
  {
    assert front == came[done..][..|front|] && rest == came[done..][|front|..];
  }

  lemma Begins(version: nat, es: seq<Event>)
    requires version <= MAX_VERSION && AllValid(es)
    ensures Waiting(version, es, 0, [], HEADER_SIZE)
  {
    assert es[0..] == es;
  }

  lemma StoppedEvents(version: nat, es: seq<Event>, done: nat, next: Next, events: seq<Event>)
    requires version <= MAX_VERSION && AllValid(es) && Stopped(version, es, done, next, events)
    ensures events <= es
  {
  }

  /** When everything the peer sent has come, every event is taken. */
  lemma WholeIsAll(version: nat, es: seq<Event>, k: nat)
    requires version <= MAX_VERSION && AllValid(es) && Whole(version, es, k, |EncodeAll(version, es)|)
    ensures k == |es|
  {
    if k < |es| {
      PrefixLength(version, es, k + 1);
    }
  }
}
