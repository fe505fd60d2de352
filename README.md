# Replication connection (RepConn) — a Dafny model

This project models the connection layer that object-server nodes use to
replicate data with one another (`go/objectserver/repconn.go`). A node
opens a connection with a `REPCONN` handshake request to
`http://{ip}:{port}/{device}/{partition}`. A 2xx reply turns the hijacked
socket into a private duplex byte stream. Any other status is the
"device unmounted" error. Over that stream the peers exchange framed
control messages. Each frame is a 4-byte unsigned big-endian length
followed by that many bytes of JSON. Raw file bytes travel over the same
buffered reader and writer. Every failure closes the connection and
raises the sticky `Disconnected` flag.

Files and modules:

- `base.dfy` (`Base`): `Option`, `Result` and the error values the layer reports.
- `wire.dfy` (`Wire`): bytes, the big-endian prefix, frame encoding, and full-read semantics. All pure functions, with the framing round trip.
- `messages.dfy` (`Messages`): the five message schemas and their `Kind`. JSON is an abstract `Codec` of a marshal function and an unmarshal function that, like `json.Unmarshal` into a destination value, is told the schema the caller expects. The promises of the JSON library are predicates on the codec (`Typed`, `RoundTrips`, `RejectsEmpty`); the lemmas that rely on them take them as hypotheses, and `Messages.CodecHypothesesSatisfiable` shows they can all hold at once.
- `repconn.dfy` (`RepConnection`): the class `RepConn`. Its fields are the writer's buffer and sticky error, the transport (open flag, bytes sent, an oracle `capacity` for how many more bytes the link accepts), the input stream with the read cursor, the last deadline window armed, and `Disconnected`. Its methods are `SendMessage`, `RecvMessage`, `Write`, `Flush`, `Read` and `Close`. `SendMessage` is proved against `Wire.EncodeFrame` and `FlushStep`, `RecvMessage` against `Receive` and `Wire.ReadFrame`, `Read` against `Wire.FullRead`, and `Flush` against `FlushStep`. `Write` and `Close` state their new state field by field. `Deliver` is not part of the connection: it stands for the peer and the network putting bytes on the input stream.
- `handshake.dfy` (`Handshake`): the target URL, the status classification and `NewRepConn`. The network environment is a `Peer` value.
- `scenarios.dfy` (`Scenarios`): callers that use only the contracts. They cover the begin-replication exchange, a failed connection and a double close.

Where the code differs from the protocol's intended behaviour, the model follows the code:

- On a non-2xx handshake reply, `NewRepConn` returns the unmounted error without closing the dialed socket (repconn.go:140-142). In the model, no connection object exists at that point.
- After a failure that did not come from the writer (a failed receive, read or marshal), the connection is not rejected locally. A raw `Write` that fits in the writer's buffer still succeeds, and a `Flush` with an empty buffer also succeeds. Only operations that touch the closed transport fail (see `Scenarios.FailedConnectionStaysDown`). After a failure that did come from the writer, its sticky error is set and every later `Write` and `Flush` fails with it. In the model only a failing flush sets that error; in the code an overflowing `Write` that reaches the transport and fails sets it too (see the bufio line under "## Left out").

## Model

| member | source | states |
|---|---|---|
| `Wire.BE32Encode` | go/objectserver/repconn.go:62 | the prefix is 4 bytes weighing 2^24, 2^16, 2^8 and 1: the length is written most significant byte first |
| `Wire.BE32DecodeEncode` | go/objectserver/repconn.go:80 | `BE32Decode`, the uint32 read by `binary.Read`, gives back n from the prefix written for any n < 2^32 |
| `Wire.BE32EncodeDecode` | go/objectserver/repconn.go:80 | every 4-byte prefix is the encoding of exactly the length `BE32Decode` reads from it |
| `Wire.PrefixLength` | go/objectserver/repconn.go:62 | `uint32(len(jsoned))` equals the length whenever it is below 2^32 |
| `Wire.EncodeFrame` | go/objectserver/repconn.go:62-69 | a frame is 4 prefix bytes followed by exactly the payload |
| `RepConnection.RepConn.ReadFull` | go/objectserver/repconn.go:85 | `io.ReadFull` over the buffered reader copies the next bytes of the stream into the array, as many as `FullRead` counts, advances the cursor by that many, leaves the rest of the array untouched and returns `FullRead`'s error |
| `Wire.FullRead` | go/objectserver/repconn.go:85 | `io.ReadFull` succeeds exactly when n is 0 or n bytes remain on an open transport; otherwise EOF if nothing was left, unexpected EOF if some bytes were, closed-connection if the transport is closed; it never takes more than n bytes |
| `Wire.ReadFrame` | go/objectserver/repconn.go:80-88 | a frame read takes the 4-byte prefix, then exactly the declared number of bytes; the payload is those bytes and the cursor moves past them; failures are end-of-stream or closed-connection errors |
| `Wire.ReadFrameSucceedsIff` | go/objectserver/repconn.go:80-88 | a frame is read if and only if the transport is open, 4 prefix bytes remain, and the declared number of payload bytes follows |
| `Wire.ReadFrameOfEncodeFrame` | go/objectserver/repconn.go:62-88 | a frame written for a payload shorter than 2^32 bytes is read back as that payload and consumes exactly 4 + length bytes, whatever surrounds it |
| `Wire.ShortReadIsFrameError` | go/objectserver/repconn.go:80-88 | with fewer than 4 bytes left, or fewer than the declared payload bytes, the read fails with EOF or unexpected EOF and consumes the rest of the stream |
| `Wire.ZeroLengthFrame` | go/objectserver/repconn.go:84-85 | a declared length of 0 is a complete frame with an empty payload; only the prefix is consumed |
| `Wire.OversizedPayloadMisframed` | go/objectserver/repconn.go:62 | for a payload of 2^32 bytes or more, the prefix carries the length modulo 2^32, so the reader does not get the payload back |
| `Wire.ReadFramesOfEncodeFrames` | go/objectserver/repconn.go:62-88 | frames sent back to back are read back one by one, each with its own payload, in order |
| `Messages.Decode` | go/objectserver/repconn.go:89 | the decode step into a destination of the expected schema succeeds exactly when unmarshalling succeeds, delivers the unmarshalled message (of that schema when the codec is `Typed`), and otherwise fails with the JSON error |
| `Messages.CodecHypothesesSatisfiable` | go/objectserver/repconn.go:57-89 | for any message there is a codec that is typed, round-trips, refuses zero bytes and encodes that message, so the lemmas assuming these are not vacuous |
| `RepConnection.RepConn.BufferFlush` | go/objectserver/repconn.go:70 | the buffered writer's Flush moves the first `FlushStep` count of pending bytes to the transport, keeps the rest pending, reduces the link's capacity by that count and records `FlushStep`'s error as the writer's sticky error |
| `RepConnection.FlushStep` | go/objectserver/repconn.go:70 | a buffered flush reports the writer's sticky error without writing; an empty buffer flushes without touching the transport; otherwise all pending bytes are delivered if the link takes them, or only the accepted prefix with a write error |
| `RepConnection.Receive` | go/objectserver/repconn.go:77-93 | a receive succeeds exactly when a frame is read and its payload unmarshals, and then yields that message; a framing error is returned as is and is never decoded |
| `RepConnection.ReceiveOfSentMessage` | go/objectserver/repconn.go:55-93 | if JSON round-trips, the frame that a send writes for m is received as m by a receiver expecting m's schema, consuming exactly 4 + payload length bytes |
| `RepConnection.ShortReadNeverDecodes` | go/objectserver/repconn.go:80-89 | on a short stream, a receive fails with EOF or unexpected EOF, and the result does not depend on the codec: decode is never reached |
| `RepConnection.ZeroLengthReachesDecode` | go/objectserver/repconn.go:84-89 | a zero-length frame passes framing and the decoder's verdict on the empty payload is the result; only 4 bytes are consumed |
| `RepConnection.ZeroLengthIsDecodeError` | go/objectserver/repconn.go:84-92 | with a decoder that refuses zero bytes, as JSON does, a zero-length frame ends in the JSON error, a decode failure and not a framing failure |
| `RepConnection.RepConn.constructor` | go/objectserver/repconn.go:144 | a new connection is Established, with empty buffers, nothing sent or read, and an open transport |
| `RepConnection.RepConn.BufferWrite` | go/objectserver/repconn.go:66 | the buffered writer's Write fails at once with its sticky error, taking nothing; otherwise it appends all the bytes to the buffer |
| `RepConnection.RepConn.Close` | go/objectserver/repconn.go:120-123 | Close sets `Disconnected` and closes the transport, and changes nothing else |
| `RepConnection.RepConn.SendMessage` | go/objectserver/repconn.go:55-75 | a successful send appends the earlier buffered bytes followed by exactly `BE32(len) ++ payload` to the transport and empties the buffer; a marshal failure, a sticky writer error or a failing flush returns that error and closes the connection; `Disconnected` becomes true exactly on error and is never cleared |
| `RepConnection.RepConn.RecvMessage` | go/objectserver/repconn.go:77-94 | the result is `Receive` of the stream at the cursor for the destination's schema; the cursor advances by the bytes the framing reads consumed; an error closes the connection, and success leaves the flag unchanged |
| `RepConnection.RepConn.Write` | go/objectserver/repconn.go:96-102 | a raw write appends the bytes to the writer's buffer unless the writer holds a sticky error, which is returned and closes the connection |
| `RepConnection.RepConn.Flush` | go/objectserver/repconn.go:104-110 | a raw flush moves bytes from the buffer to the transport as `FlushStep` says; an error closes the connection |
| `RepConnection.RepConn.Read` | go/objectserver/repconn.go:112-118 | a raw read fills the array with the next bytes of the stream as `FullRead` says and leaves the rest untouched; an error closes the connection |
| `Handshake.IntToDecimal` | go/objectserver/repconn.go:126 | `%d` renders the port as decimal digits, at least one, led by '-' exactly when it is negative |
| `Handshake.IntDecimalRoundTrip` | go/objectserver/repconn.go:126 | the decimal rendering of the port reads back as the same integer |
| `Handshake.SplitHostPortOf` | go/objectserver/repconn.go:131 | `HostPort`, the `ip:port` host that is dialed, splits at its last colon back into the address and the port |
| `Handshake.TargetUrlParts` | go/objectserver/repconn.go:126 | the URL `TargetUrl` builds, `http://ip:port/device/partition`, splits back into host `ip:port`, device and partition, and the host splits back into ip and port, when ip and device contain no '/' |
| `Handshake.GoQuotient` | go/objectserver/repconn.go:140 | Go's `/` on int truncates toward zero: the quotient times the divisor is within one divisor of the dividend, on the side of zero |
| `Handshake.StatusIsOk` | go/objectserver/repconn.go:140 | `StatusCode/100 == 2` with Go's truncating division holds exactly for statuses 200 to 299 |
| `Handshake.Establish` | go/objectserver/repconn.go:125-145 | establishment succeeds exactly when the request is built, the dial succeeds, a reply arrives and its status is 2xx; it fails with the unmounted error exactly when a reply arrives with a non-2xx status |
| `Handshake.NewRepConn` | go/objectserver/repconn.go:125-145 | a connection is returned exactly when there is no error, and it is fresh, Established and empty; otherwise no connection is returned |
| `Handshake.RejectedHandshake` | go/objectserver/repconn.go:140-142 | a 404 reply from 127.0.0.1:6000 for device "sdb1", partition "42" gives the unmounted error and no connection |
| `Scenarios.BeginReplicationExchange` | go/objectserver/repconn.go:55-94 | a BeginReplicationRequest sent by one end is received equal by the other, whose BeginReplicationResponse `{"0": "abc123"}` is received equal in turn; both ends stay Established |
| `Scenarios.FailedConnectionStaysDown` | go/objectserver/repconn.go:96-123 | after a failed receive, a raw write that fits in the 4096-byte writer buffer is still accepted, but the flush fails on the closed transport and so does each send of any sequence that follows; nothing reaches the peer and the connection stays Disconnected |
| `Scenarios.CloseTwice` | go/objectserver/repconn.go:120-123 | closing twice leaves the connection Disconnected with its transport closed and its buffers and streams untouched |

## Left out

- The TCP dial through the package-level `repDialer` (5 s connect timeout, 30 s keep-alive) is network I/O. It is the `Peer.dials` oracle.
- The dial target is `req.URL.Host`, as Go's `url.Parse` extracts it; the model dials `ip:port` directly. `Handshake.TargetUrlParts` is about the model's own splitting functions, not Go's parser. The cases where Go's host differs from `ip:port` are not modelled: an ip containing '@' (the userinfo is stripped), '?' or '#' (query and fragment are split off first), or '/'. Dialing an unbracketed IPv6 address fails in Go (too many colons); in the model it is whatever `Peer.dials` says.
- `http.NewRequest`, the request/response exchange and `Hijack` are library networking. They are the `Peer.acceptsUrl` and `Peer.reply` oracles.
- `Hijack` returns the connection and the HTTP client's buffered reader; the code discards the reader (repconn.go:143). Bytes the peer sent straight after its 2xx reply that the HTTP client had already read are therefore lost. The model's connection always starts with an empty input stream and does not show this loss.
- Deadlines (`SetDeadline`, `time.Now`) depend on the wall clock. The model records only which window each operation arms (`InputWindow` 600 s, `OutputWindow` 60 s). An expired write deadline shows up as the link refusing bytes (`capacity`), reported as `WriteFailed`. An expired read deadline shows up as the input ending, so the model reports `EOF` or `UnexpectedEOF` for it (`Wire.FullRead`, `Wire.ShortReadIsFrameError`, `RepConnection.ShortReadNeverDecodes`). In the code a read timeout returns the transport's own timeout error; the model merges it into the end-of-stream errors.
- JSON encoding (`encoding/json`) is a foreign library. It is the abstract `Codec`, and its round-trip promise is the hypothesis `RoundTrips`. Which schema the caller decodes into is the `Kind` passed to `RecvMessage`. What `json.Unmarshal` does with a payload of another schema (unknown fields ignored, missing ones left as they were in the destination (their zero value for a fresh one), usually without an error) is not constrained: the codec's `unmarshal` may return anything for it.
- The model assumes `RecvMessage` decodes into a fresh, zero-valued destination. `json.Unmarshal` decodes in place: fields absent from the payload keep the destination's old values, and a non-nil map such as `Hashes` keeps its old entries and gains the received ones. Receiving into a reused destination, where the result is not the message that was sent, is not modelled; `RoundTrips`, `RepConnection.ReceiveOfSentMessage` and `Scenarios.BeginReplicationExchange` describe the fresh case only.
- Concurrency: a `Close` that races an in-flight operation is outside a sequential model.
- bufio internals: the writer's 4096-byte buffer is not modelled. In the code, a `Write` larger than the free space pushes bytes to the transport and can fail; in the model, `Write` only buffers.
- bufio internals: the reader's read-ahead is not modelled. In the code, bytes already buffered before `Close` can still be read afterwards; in the model, every non-empty read on a closed transport fails.
- `RecvMessage` allocates `make([]byte, length)` for any declared length up to 2^32 - 1 before reading a payload byte, up to 4 GiB for a corrupt or hostile prefix. The model's allocation of that array has no cost, so it does not capture this; no upper bound on the length is enforced by the code or the model.
- Message strings are Dafny strings, sequences of Unicode characters. Go strings are byte strings, and `json.Marshal` replaces invalid UTF-8 with U+FFFD, so a field holding invalid UTF-8 does not round-trip in the code; the model's strings are always valid Unicode and `RoundTrips` cannot express that loss.
- The error returned by the transport's own `Close` is discarded by the code and is not modelled.
- `Wire.PrefixLength`: the round trip is stated only for payloads below 2^32 bytes. For longer payloads the code truncates the prefix, and `Wire.OversizedPayloadMisframed` states what happens then.
