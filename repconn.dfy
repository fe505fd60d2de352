/** The replication connection (RepConn in go/objectserver/repconn.go):
    a hijacked transport wrapped in a buffered reader and a buffered
    writer, a framed message codec on top of them, a raw byte channel
    beside it, and the sticky Disconnected flag that every failure sets.

    The transport is modelled by its observable state: the bytes that
    reached the peer (sent), the bytes the peer has sent us (input) with
    our read cursor (pos), whether it is still open, and an environment
    oracle, capacity, saying how many more bytes the link will accept
    before a write fails (a reset or an expired deadline). The end of
    input stands for the peer's end of stream or an expired read
    deadline, which the connection does not tell apart. */
module RepConnection {
  import opened Base
  import opened Wire
  import opened Messages

  /** repITimeout and repOTimeout, in seconds: every receiving operation
      arms a deadline this far ahead of the current time, every sending
      one the shorter output window. */
  const InputWindow: nat := 600
  const OutputWindow: nat := 60

  /** The size of the buffer bufio.NewWriter allocates. A Write that does
      not fit in the free space of the buffer reaches the transport, which
      this model does not follow (its writer only buffers). */
  const WriterBufferSize: nat := 4096

  /** What bufio.Writer.Flush does: how many pending bytes reach the
      transport, and the error it reports. The writer's error is sticky:
      once set, Flush reports it again without writing. An empty buffer
      is flushed without touching the transport. On a short write the
      bytes the transport accepted leave the buffer and the rest stay. */
  datatype FlushResult = FlushResult(count: nat, err: Option<Error>)

  function FlushStep(writeErr: Option<Error>, pending: Bytes, open: bool, capacity: nat): (r: FlushResult)
    ensures r.count <= |pending| && r.count <= capacity
    ensures r.err.None? <==> writeErr.None? && (pending == [] || (open && |pending| <= capacity))
    ensures r.err.None? ==> r.count == |pending|
    ensures writeErr.Some? ==> r == FlushResult(0, writeErr)
    ensures writeErr.None? && !open ==> r.count == 0
    ensures writeErr.None? && r.err.Some? ==>
              r.err == (if open then Some(WriteFailed) else Some(ClosedConnection))
  {
    if writeErr.Some? then FlushResult(0, writeErr)
    else if pending == [] then FlushResult(0, None)
    else if !open then FlushResult(0, Some(ClosedConnection))
    else if |pending| <= capacity then FlushResult(|pending|, None)
    else FlushResult(capacity, Some(WriteFailed))
  }

  /** What RecvMessage delivers into a destination of schema k when the
      stream holds input and the cursor is at pos: the decoded message, or
      the error of the first step that failed (prefix read, payload read,
      decode). */
  function Receive(c: Codec, k: Kind, input: Bytes, pos: nat, open: bool): (r: Result<Message, Error>)
    requires pos <= |input|
    ensures r.Ok? <==>
              ReadFrame(input, pos, open).Frame? && c.unmarshal(k, ReadFrame(input, pos, open).payload).Some?
    ensures r.Ok? ==> Some(r.value) == c.unmarshal(k, ReadFrame(input, pos, open).payload)
    ensures ReadFrame(input, pos, open).FrameError? ==> r == Err(ReadFrame(input, pos, open).error)
  {
    match ReadFrame(input, pos, open)
    case Frame(payload, _) => Decode(c, k, payload)
    case FrameError(e, _) => Err(e)
  }

  /** Round trip of the codec: when the stream holds, at the cursor, the
      frame SendMessage writes for m, RecvMessage delivers m and consumes
      exactly that frame, provided the receiver expects m's schema, the
      encoding gives values back and the payload's length fits the 32-bit
      prefix. */
  lemma ReceiveOfSentMessage(c: Codec, m: Message, before: Bytes, after: Bytes)
    requires RoundTrips(c)
    requires c.marshal(m).Some? && |c.marshal(m).value| < TwoTo32
    ensures var payload := c.marshal(m).value;
            var input := before + EncodeFrame(payload) + after;
            && Receive(c, KindOf(m), input, |before|, true) == Ok(m)
            && ReadFrame(input, |before|, true).next == |before| + 4 + |payload|
  {
    ReadFrameOfEncodeFrame(before, c.marshal(m).value, after);
  }

  /** Short read: with fewer than 4 bytes left, or fewer than the declared
      number of payload bytes, RecvMessage fails with an end-of-stream
      error before the decode step, so the outcome is the same whatever
      the codec. */
  lemma ShortReadNeverDecodes(c: Codec, d: Codec, k: Kind, input: Bytes, pos: nat)
    requires pos <= |input|
    requires |input| - pos < 4 ||
      (|input| - pos >= 4 && BE32Decode(input[pos..pos + 4]) > |input| - pos - 4)
    ensures Receive(c, k, input, pos, true) == Receive(d, k, input, pos, true)
    ensures Receive(c, k, input, pos, true) in {Err(EOF), Err(UnexpectedEOF)}
  {
    ShortReadIsFrameError(input, pos);
  }

  /** A declared length of zero passes the framing layer: RecvMessage hands
      the empty payload to the decode step, whose verdict is the result. */
  lemma ZeroLengthReachesDecode(c: Codec, k: Kind, input: Bytes, pos: nat)
    requires pos + 4 <= |input| && input[pos..pos + 4] == [0, 0, 0, 0]
    ensures Receive(c, k, input, pos, true) == Decode(c, k, [])
    ensures ReadFrame(input, pos, true).next == pos + 4
  {
    ZeroLengthFrame(input, pos);
  }

  /** With a JSON decoder, which refuses zero bytes, a zero-length frame is
      a decode error rather than a framing error. */
  lemma ZeroLengthIsDecodeError(c: Codec, k: Kind, input: Bytes, pos: nat)
    requires RejectsEmpty(c)
    requires pos + 4 <= |input| && input[pos..pos + 4] == [0, 0, 0, 0]
    ensures Receive(c, k, input, pos, true) == Err(JsonError)
  {
    ZeroLengthReachesDecode(c, k, input, pos);
  }

  class RepConn {
    // bufio.Writer: bytes written but not yet flushed, and its sticky error
    var pending: Bytes
    var writeErr: Option<Error>
    // the transport (net.Conn)
    var open: bool
    var sent: Bytes
    var capacity: nat
    var input: Bytes
    var pos: nat
    // the length of the last deadline armed on the transport, in seconds
    var window: nat
    var Disconnected: bool

    /** The flag mirrors the transport (only Close changes either), and a
        writer error is only ever left behind on a connection that was
        closed for it. */
    ghost predicate Valid()
      reads this
    {
      && pos <= |input|
      && (Disconnected <==> !open)
      && (writeErr.Some? ==> Disconnected)
    }

    /** The connection NewRepConn builds around the hijacked transport:
        empty buffers, nothing sent or received yet, Established. */
    constructor (capacity: nat)
      ensures Valid()
      ensures pending == [] && writeErr == None
      ensures open && sent == [] && this.capacity == capacity
      ensures input == [] && pos == 0 && window == 0
      ensures !Disconnected
    {
      pending, writeErr := [], None;
      open, sent, this.capacity := true, [], capacity;
      input, pos := [], 0;
      window := 0;
      Disconnected := false;
    }

    /** Not an operation of the connection: the environment (the peer and
        the network) delivering bytes the peer wrote. They join the input
        stream behind everything received so far. */
    method Deliver(bytes: Bytes)
      requires Valid()
      modifies this`input
      ensures Valid()
      ensures input == old(input) + bytes
    {
      input := input + bytes;
    }

    /** bufio.Writer.Write: fails at once with the sticky error, otherwise
        appends to the buffer. */
    method BufferWrite(data: Bytes) returns (n: nat, err: Option<Error>)
      modifies this`pending
      ensures err == writeErr
      ensures err.None? ==> n == |data| && pending == old(pending) + data
      ensures err.Some? ==> n == 0 && pending == old(pending)
    {
      if writeErr.Some? {
        return 0, writeErr;
      }
      pending := pending + data;
      return |data|, None;
    }

    /** bufio.Writer.Flush, as FlushStep describes it. */
    method BufferFlush() returns (err: Option<Error>)
      modifies this`pending, this`sent, this`capacity, this`writeErr
      ensures var f := FlushStep(old(writeErr), old(pending), open, old(capacity));
              && err == f.err && writeErr == f.err
              && sent == old(sent) + old(pending)[..f.count]
              && pending == old(pending)[f.count..]
              && capacity == old(capacity) - f.count
    {
      if writeErr.Some? {
        return writeErr;
      }
      if pending == [] {
        return None;
      }
      if !open {
        writeErr := Some(ClosedConnection);
        return writeErr;
      }
      if |pending| <= capacity {
        sent, capacity, pending := sent + pending, capacity - |pending|, [];
        return None;
      }
      sent, pending := sent + pending[..capacity], pending[capacity..];
      capacity := 0;
      writeErr := Some(WriteFailed);
      return writeErr;
    }

    /** io.ReadFull over the buffered reader: copies bytes from the input
        stream into data until it is full or the stream fails, as FullRead
        describes; the rest of data is left as it was. */
    method ReadFull(data: array<byte>) returns (l: nat, err: Option<Error>)
      requires pos <= |input|
      modifies this`pos, data
      ensures var r := FullRead(input, old(pos), data.Length, open);
              l == r.count && err == r.err && pos == old(pos) + l
      ensures data[..l] == input[old(pos)..pos]
      ensures data[l..] == old(data[l..])
    {
      var r := FullRead(input, pos, data.Length, open);
      var i := 0;
      while i < r.count
        invariant 0 <= i <= r.count
        invariant pos == old(pos) + i
        invariant data[..i] == input[old(pos)..pos]
        invariant data[i..] == old(data[i..])
      {
        data[i] := input[pos];
        assert data[i + 1..] == old(data[i + 1..]);
        pos := pos + 1;
        i := i + 1;
      }
      return r.count, r.err;
    }

    /** Close: raise the sticky flag and close the transport. Closing a
        second time changes nothing further. */
    method Close()
      modifies this`Disconnected, this`open
      ensures Disconnected && !open
    {
      Disconnected := true;
      open := false;
    }

    /** SendMessage: encode, write the 4-byte big-endian length, write the
        payload, flush; any failure closes the connection. */
    method SendMessage(c: Codec, m: Message) returns (err: Option<Error>)
      requires Valid()
      modifies this`window, this`pending, this`sent, this`capacity, this`writeErr, this`Disconnected, this`open
      ensures Valid() && window == OutputWindow
      ensures Disconnected == (old(Disconnected) || err.Some?)
      ensures c.marshal(m).None? ==>
                && err == Some(JsonError)
                && pending == old(pending) && sent == old(sent)
                && capacity == old(capacity) && writeErr == old(writeErr)
      ensures c.marshal(m).Some? && old(writeErr).Some? ==>
                && err == old(writeErr)
                && pending == old(pending) && sent == old(sent)
                && capacity == old(capacity) && writeErr == old(writeErr)
      ensures c.marshal(m).Some? && old(writeErr).None? ==>
                var out := old(pending) + EncodeFrame(c.marshal(m).value);
                var f := FlushStep(None, out, old(open), old(capacity));
                && err == f.err && writeErr == f.err
                && sent == old(sent) + out[..f.count]
                && pending == out[f.count..]
                && capacity == old(capacity) - f.count
      ensures err.None? ==>
                && !old(Disconnected) && c.marshal(m).Some?
                && sent == old(sent) + old(pending) + EncodeFrame(c.marshal(m).value)
                && pending == []
    {
      window := OutputWindow;
      var jsoned := c.marshal(m);
      if jsoned.None? {
        Close();
        return Some(JsonError);
      }
      var payload := jsoned.value;
      var n, e := BufferWrite(BE32Encode(PrefixLength(|payload|)));
      if e.Some? {
        Close();
        return e;
      }
      assert pending == old(pending) + EncodeFrame(payload)[..4];
      n, e := BufferWrite(payload);
      if e.Some? {
        Close();
        return e;
      }
      assert pending == old(pending) + EncodeFrame(payload);
      e := BufferFlush();
      if e.Some? {
        Close();
        return e;
      }
      return None;
    }

    /** RecvMessage: read the 4-byte big-endian length, read exactly that
        many bytes into a fresh buffer, decode them; any failure closes the
        connection. */
    method RecvMessage(c: Codec, k: Kind) returns (r: Result<Message, Error>)
      requires Valid()
      modifies this`window, this`pos, this`Disconnected, this`open
      ensures Valid() && window == InputWindow
      ensures r == Receive(c, k, input, old(pos), old(open))
      ensures pos == ReadFrame(input, old(pos), old(open)).next
      ensures Disconnected == (old(Disconnected) || r.Err?)
    {
      window := InputWindow;
      var header := new byte[4];
      var got, e := ReadFull(header);
      if e.Some? {
        Close();
        return Err(e.value);
      }
      assert header[..] == header[..got] == input[old(pos)..old(pos) + 4];
      var length := BE32Decode(header[..]);
      var data := new byte[length];
      var got2, e2 := ReadFull(data);
      if e2.Some? {
        Close();
        return Err(e2.value);
      }
      assert data[..] == data[..got2] == input[old(pos) + 4..old(pos) + 4 + length];
      r := Decode(c, k, data[..]);
      if r.Err? {
        Close();
      }
    }

    /** Write on the raw byte channel: buffered, fails only with the
        writer's sticky error, which closes the connection. */
    method Write(data: Bytes) returns (l: nat, err: Option<Error>)
      requires Valid()
      modifies this`window, this`pending, this`Disconnected, this`open
      ensures Valid() && window == OutputWindow
      ensures err == old(writeErr)
      ensures err.None? ==> l == |data| && pending == old(pending) + data
      ensures err.Some? ==> l == 0 && pending == old(pending)
      ensures Disconnected == (old(Disconnected) || err.Some?)
    {
      window := OutputWindow;
      l, err := BufferWrite(data);
      if err.Some? {
        Close();
      }
    }

    /** Flush on the raw byte channel: moves the buffer to the transport as
        FlushStep describes; a failure closes the connection. */
    method Flush() returns (err: Option<Error>)
      requires Valid()
      modifies this`window, this`pending, this`sent, this`capacity, this`writeErr, this`Disconnected, this`open
      ensures Valid() && window == OutputWindow
      ensures var f := FlushStep(old(writeErr), old(pending), old(open), old(capacity));
              && err == f.err && writeErr == f.err
              && sent == old(sent) + old(pending)[..f.count]
              && pending == old(pending)[f.count..]
              && capacity == old(capacity) - f.count
      ensures Disconnected == (old(Disconnected) || err.Some?)
    {
      window := OutputWindow;
      err := BufferFlush();
      if err.Some? {
        Close();
      }
    }

    /** Read on the raw byte channel: a full read into data, as FullRead
        describes; a failure closes the connection. */
    method Read(data: array<byte>) returns (l: nat, err: Option<Error>)
      requires Valid()
      modifies this`window, this`pos, this`Disconnected, this`open, data
      ensures Valid() && window == InputWindow
      ensures var r := FullRead(input, old(pos), data.Length, old(open));
              l == r.count && err == r.err && pos == old(pos) + l
      ensures data[..l] == input[old(pos)..pos]
      ensures data[l..] == old(data[l..])
      ensures Disconnected == (old(Disconnected) || err.Some?)
    {
      window := InputWindow;
      l, err := ReadFull(data);
      if err.Some? {
        Close();
      }
    }
  }
}
