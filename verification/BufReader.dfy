/** The compacting buffered reader of src/util/buf_reader.rs over a socket that returns its bytes in
    chunks of any size. */
module BufReader {
  import opened Common
  import opened Wrappers
  import opened Sequences

  datatype ReadError = TooLarge | UnexpectedEof

  /** What is still to come over the socket, and how many bytes each read gets; zero stands for a read
      that has nothing yet. */
  class Socket {
    var wire: seq<byte>
    var count: nat
    const schedule: nat -> nat

    constructor (wire: seq<byte>, schedule: nat -> nat)
      ensures this.wire == wire
    {
      this.wire, this.schedule, count := wire, schedule, 0;
    }

    /** A read that waits. It gets nothing only at the end of the stream, or when it asks for nothing. */
    method Read(max: nat) returns (got: seq<byte>)
      modifies this
      ensures got + wire == old(wire) && |got| <= max
      ensures got == [] <==> max == 0 || old(wire) == []
    {
      var n := schedule(count);
      count := count + 1;
      if n == 0 { n := 1; }
      if n > max { n := max; }
      if n > |wire| { n := |wire|; }
      got := wire[..n];
      wire := wire[n..];
    }

    /** Whether a read would have something right away. */
    method Poll() returns (ready: bool)
      modifies this
      ensures wire == old(wire)
    {
      ready := schedule(count) > 0;
      if !ready { count := count + 1; }
    }
  }

  /** The first `i` bytes have been moved down from `from`, and what is still to be moved is untouched. */
  ghost predicate MovedDown(now: seq<byte>, was: seq<byte>, from: nat, i: nat) {
    && |now| == |was|
    && (forall j | 0 <= j < i && from + j < |was| :: now[j] == was[from + j])
    && (forall j | from + i <= j < |was| :: now[j] == was[j])
  }

  /** Copy `n` bytes from `from` to the front of the same array, lowest first. */
  method MoveDown(a: array<byte>, from: nat, n: nat)
    requires from + n <= a.Length
    modifies a
    ensures a[..n] == old(a[from..from + n])
  {
    ghost var was := a[..];
    for i := 0 to n
      invariant MovedDown(a[..], was, from, i)
    {
      assert a[from + i] == a[..][from + i] == was[from + i];
      ghost var now := a[..];
      a[i] := a[from + i];
      assert a[..] == now[i := was[from + i]];
    }
    assert a[..n] == a[..][..n] && was[from..from + n] == old(a[from..from + n]);
  }

  class BufReader {
    const inner: Socket
    const buf: array<byte>
    var pos: nat
    var len: nat

    ghost predicate Valid()
      reads this
    {
      pos <= len <= buf.Length
    }

    /** Everything not consumed yet: what is buffered, then what is still to come. */
    ghost function Stream(): seq<byte>
      requires Valid()
      reads this, buf, inner
    {
      buf[pos..len] + inner.wire
    }

    constructor (capacity: nat, inner: Socket)
      ensures Valid() && fresh(buf) && buf.Length == capacity && this.inner == inner && Stream() == inner.wire
    {
      this.inner := inner;
      buf := new byte[capacity](i => 0);
      pos, len := 0, 0;
    }

    /** Move what is buffered to the front. The ranges may overlap. */
    method Compact()
      requires Valid()
      modifies this, buf
      ensures Valid() && pos == 0 && buf[..len] == old(buf[pos..len])
    {
      if len == pos {
        pos, len := 0, 0;
        return;
      }
      var n := len - pos;
      MoveDown(buf, pos, n);
      pos, len := 0, n;
    }

    /** Read once more behind what is buffered. */
    method ReadMore() returns (size: nat)
      requires Valid()
      modifies this`len, buf, inner
      ensures Valid() && Stream() == old(Stream()) && len == old(len) + size
      ensures |inner.wire| + size == |old(inner.wire)|
      ensures size == 0 <==> old(len) == buf.Length || old(inner.wire) == []
      ensures forall i | 0 <= i < old(len) :: buf[i] == old(buf[i])
    {
      var got := inner.Read(buf.Length - len);
      forall i | 0 <= i < |got| { buf[len + i] := got[i]; }
      assert buf[pos..len + |got|] == old(buf[pos..len]) + got;
      size := |got|;
      len := len + size;
    }

    /** Have at least `n` bytes buffered. It succeeds exactly when they fit the buffer, or are there
        already, and the stream has that many: a full buffer is never mistaken for the end. */
    method FillAtLeast(n: nat) returns (r: Result<seq<byte>, ReadError>)
      requires Valid()
      modifies this, buf, inner
      ensures Valid() && Stream() == old(Stream())
      ensures r.Ok? ==> n <= |r.value| <= len - pos || n == 0
      ensures r.Ok? && n > 0 ==> r.value == buf[pos..len]
      ensures |inner.wire| <= |old(inner.wire)| && (r.Ok? && n > old(len - pos) ==> |inner.wire| < |old(inner.wire)|)
      ensures r.Err? <==> n > old(len - pos) && (n > buf.Length || n > |old(Stream())|)
      ensures r == Err(TooLarge) <==> n > old(len - pos) && n > buf.Length
    {
      if pos == len { Compact(); }
      if n == 0 { return Ok([]); }
      if len - pos >= n { return Ok(buf[pos..len]); }
      if n > buf.Length { return Err(TooLarge); }
      if n > buf.Length - pos { Compact(); }
      while len - pos < n
        invariant Valid() && Stream() == old(Stream()) && pos + n <= buf.Length
        invariant len - pos >= old(len - pos) && |inner.wire| <= |old(inner.wire)|
        invariant len - pos > old(len - pos) ==> |inner.wire| < |old(inner.wire)|
        decreases n - (len - pos)
      {
        var size := ReadMore();
        if size == 0 { return Err(UnexpectedEof); }
      }
      return Ok(buf[pos..len]);
    }

    method Consume(n: nat)
      requires Valid()
      modifies this`pos
      ensures Valid() && Stream() == old(Stream())[if n < old(len - pos) then n else old(len - pos)..]
      ensures pos == if old(pos) + n < len then old(pos) + n else len
    {
      pos := if pos + n < len then pos + n else len;
    }

    method Advance(n: nat)
      requires Valid() && n <= len - pos
      modifies this`pos
      ensures Valid() && pos == old(pos) + n && Stream() == buf[old(pos) + n..len] + inner.wire
    {
      Consume(n);
    }

    /** `poll_fill_buf`: top the buffer up if there is room and the socket has something. It leaves the
        buffer empty only at the end of the stream. */
    method FillBuf()
      requires Valid() && buf.Length > 0
      modifies this, buf, inner
      ensures Valid() && Stream() == old(Stream())
      ensures pos == len ==> Stream() == []
    {
      if pos >= buf.Length {
        pos, len := 0, 0;
        var size := ReadMore();
      } else if len < buf.Length {
        var ready := inner.Poll();
        if !ready && pos < len { return; }
        var size := ReadMore();
      }
    }

    /** `poll_read`: some bytes off the front of the stream, straight from the socket when nothing is
        buffered and the request is as large as the buffer. None only at the end of the stream. */
    method PollRead(want: nat) returns (got: seq<byte>)
      requires Valid()
      modifies this, buf, inner
      ensures Valid() && got + Stream() == old(Stream()) && |got| <= want
      ensures want > 0 ==> (got == [] <==> old(Stream()) == [])
    {
      if pos == len && want >= buf.Length {
        got := inner.Read(want);
        pos, len := 0, 0;
        return;
      }
      FillBuf();
      var amount := if len - pos < want then len - pos else want;
      got := buf[pos..pos + amount];
      ghost var rest := buf[pos + amount..len];
      assert buf[pos..len] == got + rest;
      Associative(got, rest, inner.wire);
      Advance(amount);
    }

    /** Exactly `n` bytes, or an error exactly when the stream ends before. */
    method ReadExact(n: nat) returns (r: Result<seq<byte>, ReadError>)
      requires Valid()
      modifies this, buf, inner
      ensures Valid()
      ensures r.Ok? <==> n <= |old(Stream())|
      ensures r.Ok? ==> |r.value| == n && r.value + Stream() == old(Stream())
    {
      hide Stream;
      var out := [];
      while |out| < n
        invariant Valid() && |out| <= n && out + Stream() == old(Stream())
        decreases n - |out|
      {
        var more := PollRead(n - |out|);
        if more == [] { return Err(UnexpectedEof); }
        Associative(out, more, Stream());
        out := out + more;
      }
      return Ok(out);
    }
  }
}
