/** The wire format of the replication connection: the 4-byte unsigned
    big-endian length prefix, the framed message it introduces, and the
    full-read semantics (io.ReadFull) with which a receiver takes bytes
    off the stream. Everything here is a pure function over byte
    sequences; the connection object in module RepConnection is specified
    by these functions. */
module Wire {
  import opened Base

  type byte = b: int | 0 <= b < 0x100
  type Bytes = seq<byte>

  const TwoTo32: nat := 0x1_0000_0000

  type uint32 = n: int | 0 <= n < TwoTo32

  /** binary.Write(w, binary.BigEndian, n) for a uint32: four bytes, most
      significant first, weighing 2^24, 2^16, 2^8 and 1. */
  function BE32Encode(n: uint32): (r: Bytes)
    ensures |r| == 4
    ensures n == r[0] as int * 0x100_0000 + r[1] as int * 0x1_0000 + r[2] as int * 0x100 + r[3] as int
  {
    var q1 := n / 0x100;
    var q2 := q1 / 0x100;
    var q3 := q2 / 0x100;
    [q3, q2 % 0x100, q1 % 0x100, n % 0x100]
  }

  /** binary.Read(r, binary.BigEndian, &length) for a uint32 once its 4 bytes are in hand. */
  function BE32Decode(b: Bytes): (n: uint32)
    requires |b| == 4
  {
    b[0] as int * 0x100_0000 + b[1] as int * 0x1_0000 + b[2] as int * 0x100 + b[3] as int
  }

  /** Decoding the prefix written for n gives n back. */
  lemma BE32DecodeEncode(n: uint32)
    ensures BE32Decode(BE32Encode(n)) == n
  {
    var q1 := n / 0x100;
    var q2 := q1 / 0x100;
    var q3 := q2 / 0x100;
    assert n == q1 * 0x100 + n % 0x100;
    assert q1 == q2 * 0x100 + q1 % 0x100;
    assert q2 == q3 * 0x100 + q2 % 0x100;
  }

  /** Every 4-byte prefix is the encoding of exactly one length: encoding
      what was decoded gives the same bytes back. */
  lemma BE32EncodeDecode(b: Bytes)
    requires |b| == 4
    ensures BE32Encode(BE32Decode(b)) == b
  {
    var n := BE32Decode(b);
    assert n / 0x100 == b[0] as int * 0x1_0000 + b[1] as int * 0x100 + b[2] as int;
    assert n % 0x100 == b[3];
    assert (n / 0x100) / 0x100 == b[0] as int * 0x100 + b[1] as int;
    assert (n / 0x100) % 0x100 == b[2];
    assert ((n / 0x100) / 0x100) / 0x100 == b[0];
    assert ((n / 0x100) / 0x100) % 0x100 == b[1];
  }

  /** The length that SendMessage puts in the prefix: Go's uint32(len(jsoned))
      keeps the low 32 bits of the length. */
  function PrefixLength(len: nat): (n: uint32)
    ensures len < TwoTo32 ==> n == len
  {
    len % TwoTo32
  }

  /** The bytes SendMessage hands to the buffered writer for an encoded payload. */
  function EncodeFrame(payload: Bytes): (f: Bytes)
    ensures |f| == 4 + |payload|
    ensures f[4..] == payload
  {
    BE32Encode(PrefixLength(|payload|)) + payload
  }

  /** What one io.ReadFull of n bytes takes off the stream input at cursor
      pos: the number of bytes copied and the error, if any. The stream
      ending early is io.EOF when nothing was copied and
      io.ErrUnexpectedEOF otherwise; a request for zero bytes returns at
      once without touching the transport. */
  datatype ReadResult = ReadResult(count: nat, err: Option<Error>)

  function FullRead(input: Bytes, pos: nat, n: nat, open: bool): (r: ReadResult)
    requires pos <= |input|
    ensures r.count <= n && pos + r.count <= |input|
    ensures r.err.None? <==> r.count == n
    ensures r.err.None? <==> n == 0 || (open && pos + n <= |input|)
    ensures r.err == Some(EOF) <==> n > 0 && open && pos == |input|
    ensures r.err == Some(UnexpectedEOF) <==> open && pos < |input| < pos + n
    ensures r.err == Some(ClosedConnection) <==> n > 0 && !open
    ensures open ==> r.count == if pos + n <= |input| then n else |input| - pos
  {
    if n == 0 then ReadResult(0, None)
    else if !open then ReadResult(0, Some(ClosedConnection))
    else if pos + n <= |input| then ReadResult(n, None)
    else if pos == |input| then ReadResult(0, Some(EOF))
    else ReadResult(|input| - pos, Some(UnexpectedEOF))
  }

  /** What RecvMessage's framing steps take off the stream: a payload and
      the cursor after it, or the error of the failing read and the cursor
      after the bytes that read consumed. */
  datatype FrameRead = Frame(payload: Bytes, next: nat) | FrameError(error: Error, next: nat)

  function ReadFrame(input: Bytes, pos: nat, open: bool): (f: FrameRead)
    requires pos <= |input|
    ensures pos <= f.next <= |input|
    ensures f.Frame? ==>
              && f.next == pos + 4 + |f.payload|
              && BE32Decode(input[pos..pos + 4]) == |f.payload|
              && f.payload == input[pos + 4..f.next]
    ensures f.FrameError? ==> f.error in {EOF, UnexpectedEOF, ClosedConnection}
  {
    var head := FullRead(input, pos, 4, open);
    if head.err.Some? then FrameError(head.err.value, pos + head.count)
    else
      var n := BE32Decode(input[pos..pos + 4]);
      var body := FullRead(input, pos + 4, n, open);
      if body.err.Some? then FrameError(body.err.value, pos + 4 + body.count)
      else Frame(input[pos + 4..pos + 4 + n], pos + 4 + n)
  }

  /** A frame is read exactly when the transport is open, the 4 prefix
      bytes are there, and the declared number of payload bytes follows. */
  lemma ReadFrameSucceedsIff(input: Bytes, pos: nat, open: bool)
    requires pos <= |input|
    ensures ReadFrame(input, pos, open).Frame? <==>
      open && pos + 4 <= |input| && pos + 4 + BE32Decode(input[pos..pos + 4]) <= |input|
  {
  }

  /** Round trip of the framing: a frame written for a payload shorter
      than 2^32 bytes, found at the cursor, is read back as that payload,
      consuming exactly 4 + |payload| bytes, whatever precedes or follows it. */
  lemma ReadFrameOfEncodeFrame(before: Bytes, payload: Bytes, after: Bytes)
    requires |payload| < TwoTo32
    ensures ReadFrame(before + EncodeFrame(payload) + after, |before|, true)
      == Frame(payload, |before| + 4 + |payload|)
  {
    var input := before + EncodeFrame(payload) + after;
    var p := |before|;
    assert input[p..p + 4] == BE32Encode(|payload|);
    BE32DecodeEncode(|payload|);
    assert input[p + 4..p + 4 + |payload|] == payload;
  }

  /** Short read: with fewer than 4 bytes left, or fewer payload bytes
      than the prefix declares, no frame is produced; the error is the
      end-of-stream error of io.ReadFull. */
  lemma ShortReadIsFrameError(input: Bytes, pos: nat)
    requires pos <= |input|
    requires |input| - pos < 4 ||
      (|input| - pos >= 4 && BE32Decode(input[pos..pos + 4]) > |input| - pos - 4)
    ensures var f := ReadFrame(input, pos, true);
      f.FrameError? && f.error in {EOF, UnexpectedEOF} && f.next == |input|
  {
  }

  /** A declared length of zero is a complete frame with an empty payload:
      only the 4 prefix bytes are consumed, even at the end of the stream. */
  lemma ZeroLengthFrame(input: Bytes, pos: nat)
    requires pos + 4 <= |input| && input[pos..pos + 4] == [0, 0, 0, 0]
    ensures ReadFrame(input, pos, true) == Frame([], pos + 4)
  {
  }

  /** The prefix is written as Go writes it: for a payload of 2^32 bytes or
      more the prefix holds only the low 32 bits of the length, so the
      reader takes a different payload than was sent. */
  lemma OversizedPayloadMisframed(payload: Bytes)
    requires |payload| >= TwoTo32
    ensures ReadFrame(EncodeFrame(payload), 0, true) != Frame(payload, 4 + |payload|)
    ensures BE32Decode(EncodeFrame(payload)[..4]) == |payload| % TwoTo32
  {
    var f := EncodeFrame(payload);
    assert f[..4] == BE32Encode(PrefixLength(|payload|));
    BE32DecodeEncode(PrefixLength(|payload|));
  }
  /** The bytes of several SendMessage calls in a row, one frame after another. */
  function EncodeFrames(payloads: seq<Bytes>): Bytes
  {
    if payloads == [] then [] else EncodeFrame(payloads[0]) + EncodeFrames(payloads[1..])
  }

  /** The payloads of k RecvMessage calls in a row from cursor pos, or None
      when one of them hits a framing error. */
  function ReadFrames(input: Bytes, pos: nat, k: nat): (r: Option<seq<Bytes>>)
    requires pos <= |input|
    ensures r.Some? ==> |r.value| == k
    decreases k
  {
    if k == 0 then Some([])
    else match ReadFrame(input, pos, true)
      case FrameError(_, _) => None
      case Frame(p, next) =>
        match ReadFrames(input, next, k - 1)
        case None => None
        case Some(rest) => Some([p] + rest)
  }

  /** Message boundaries survive on the stream: frames written back to back
      are read back one by one, each with its own payload, in order. */
  lemma {:induction false} ReadFramesOfEncodeFrames(before: Bytes, payloads: seq<Bytes>, after: Bytes)
    requires forall i :: 0 <= i < |payloads| ==> |payloads[i]| < TwoTo32
    ensures ReadFrames(before + EncodeFrames(payloads) + after, |before|, |payloads|) == Some(payloads)
    decreases |payloads|
  {
    if payloads != [] {
      var first := EncodeFrame(payloads[0]);
      var rest := EncodeFrames(payloads[1..]) + after;
      var input := before + EncodeFrames(payloads) + after;
      assert input == before + first + rest;
      ReadFrameOfEncodeFrame(before, payloads[0], rest);
      var before' := before + first;
      assert input == before' + EncodeFrames(payloads[1..]) + after;
      ReadFramesOfEncodeFrames(before', payloads[1..], after);
      assert [payloads[0]] + payloads[1..] == payloads;
    }
  }
}
