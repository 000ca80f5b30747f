# Key-exchange frame reader of the cscrypto desktop client

This project models, in Dafny, the client side of the key-exchange handshake in
the cscrypto Qt tool: the incremental frame reader that reassembles a
request-type tag and a fixed-size payload from arbitrarily chunked socket
deliveries (`Client::onReadyRead`), the transport fault handler
(`Client::socketErrorHandler`), and the small data model of the handshake codec
(`RequestMaster`: the one-byte `RequestType` tag, the static `requestSize`, the
`validate` entry point, the codec's initial state and role flag).

Files:

- `wrappers.dfy` — `Option`.
- `request_master.dfy` — module `RequestMaster`: `byte`, `RequestType` and its
  one-byte wire encoding, `SizeTable` (the static `requestSize`, a parameter of
  type `byte -> nat`), `Validator` (the codec's `validate`, a parameter of type
  `(byte, seq<byte>) -> bool`), `KeyPair`, `SessionKeys` (the two-key completion
  report, as a returned pair), `Codec` and its construction.
- `frame_reader.dfy` — module `FrameReader`: the reader state `Framer(reqType, buffer)`
  where `reqType` is the raw `serverReqType_` byte (3, `Unknown`, means no tag
  recorded; `PendingTag()` is the optional view) and `buffer` is what the socket
  holds unread; one reader call `Step`, returning the next state, an `Outcome`
  (`Wait | Aborted | Validated(tag, payload, ok)`) and the bytes read; the error
  a call emits; `Restart` for the socket abort at the start of a new request.
- `delivery.dfy` — module `Delivery`: runs of the reader over a sequence of
  chunk deliveries, the no-loss/no-reorder invariant, and the proof that a
  frame split into chunks in any way is validated exactly once with the same
  tag and payload as when delivered whole.
- `socket_faults.dfy` — module `SocketFaults`: the fault → message mapping and
  the proof that every report identifies its fault class.

Three behaviours of the code shape the reader:

- after a payload is consumed the recorded tag is not reset to `Unknown`, so the
  first byte of a following frame is read as payload under the old tag
  (`FrameReader.NextFrameReadUnderStaleTag`);
- a call handles at most one frame, never looping over several;
- a rejected payload emits an error but does not abort the connection or clear
  the buffer (`FrameReader.RejectedFrameKeepsConnection`); only a tag byte equal
  to 3 aborts, and bytes 4..255 are accepted as tags
  (`FrameReader.OutOfRangeTagAccepted`).

Starting a new request (`sendKeyExchangeRequest`) aborts the socket, which drops
the unread bytes, but leaves `serverReqType_` as it was (`FrameReader.Restart`,
`FrameReader.RestartKeepsStaleTag`). The initial value of `serverReqType_` is
declared in a header that is not part of this model; it is taken to be `Unknown`
(`FrameReader.Idle`).

## Model

| member | source | states |
|---|---|---|
| RequestMaster.Encode | qt/include/requestmaster.hpp:18-23 | each request type is sent as one byte 0..3, and decoding that byte gives the type back |
| RequestMaster.Decode | qt/include/requestmaster.hpp:18-23 | a wire byte names a request type exactly when it is at most 3 |
| RequestMaster.DecodeInvertsEncode | qt/include/requestmaster.hpp:18-23 | decoding and encoding are inverse on the four tags, in both directions |
| RequestMaster.NewCodec | qt/include/requestmaster.hpp:16-38 | a fresh codec has recorded no request type yet (`Unknown`, the wire byte 3 the reader treats as no tag), keeps its keys, and its role is the one given at construction, the server side when none is given |
| FrameReader.EmittedError | qt/src/client.cpp:30-49 | "Invalid data from server." is emitted exactly for a corrupt tag or a rejected payload, and never while waiting or after an accepted payload |
| FrameReader.Step | qt/src/client.cpp:24-50 | with no tag and nothing buffered nothing happens; a tag read consumes exactly the first byte and aborts with the buffer cleared iff it is 3, and any other first byte is recorded as the tag; while waiting no payload byte is read and only an available tag byte is consumed; a recorded tag is kept and never re-read; the validator runs exactly when a whole payload is buffered, gets exactly `requestSize(tag)` bytes from the front, and the read bytes followed by the remaining ones are the buffered ones |
| FrameReader.Restart | qt/src/client.cpp:17 | a new request drops every unread byte and keeps the recorded tag |
| FrameReader.RejectedFrameKeepsConnection | qt/src/client.cpp:42-49 | a completed payload is validated; a rejection emits the error but keeps the tag and the bytes after the payload, unlike the abort on a corrupt tag |
| FrameReader.OutOfRangeTagAccepted | qt/src/client.cpp:29-34 | a tag byte 4..255 names no request type, yet it does not abort and is recorded as the pending tag |
| FrameReader.NextFrameReadUnderStaleTag | qt/src/client.cpp:42-49 | after a frame the tag stays recorded, so the next bytes are validated as payload under the old tag |
| FrameReader.RestartKeepsStaleTag | qt/src/client.cpp:16-25 | after a new request, a reply arriving while a tag is recorded is validated under that tag, its first byte taken as payload |
| Delivery.Run | qt/src/client.cpp:24-50 | one reader call per delivery, hence at most one validation per delivery; a recorded tag survives any run and nothing aborts |
| Delivery.RunConservesStream | qt/src/client.cpp:26-44 | unless a run aborts, the bytes read followed by those still buffered are exactly the initially buffered bytes followed by every delivered chunk: nothing lost or reordered |
| Delivery.FrameCompletesOnce | qt/src/client.cpp:24-50 | from any point inside a frame, the rest of it delivered in any chunks yields exactly one validation, of the whole payload |
| Delivery.SplitFrameValidatedOnce | qt/src/client.cpp:24-50 | a frame with a non-empty payload split into chunks in any way is validated exactly once, with the same tag, payload and verdict as when delivered in one piece, and leaves nothing buffered |
| Delivery.BytewiseFrameValidatedOnce | qt/src/client.cpp:24-50 | fed one byte per call, a frame takes one call per byte and is validated once |
| SocketFaults.HandleSocketError | qt/src/client.cpp:52-66 | remote close is the only ignored fault; host-not-found and connection-refused get their fixed messages; every other fault gets the generic prefix followed by the socket's description |
| SocketFaults.ReportsAreDistinguishable | qt/src/client.cpp:52-66 | reading a report back gives the fault class that produced it, and for a generic fault the socket's description |

## Left out

- `requestSize` returns `int` in the source; the model's size table returns `nat`, so a negative size (which the reader would pass to `resize` as a huge `size_t`) is not modelled.
- `validate` is modelled as a pure function of tag and payload: the codec's state change on validation (recording `containingType_`, storing the peer's keys, deriving and reporting session keys) lives in an implementation file that is not part of this model.
- `validateRequest`, `formReply`, `verifySenderPublicKey`, `checkRequestSignature`, `formCommonKeys` and base58 reporting: implementation not available; signature and key-derivation semantics are not modelled. `SessionKeys` is only the two-key shape of the completion report.
- `sendKeyExchangeRequest`: only its socket abort is modelled (`Restart`). Connecting, `setOwnKeys`, `form` and the write of the query are left out; those calls do not match the declared codec interface and the write passes the address of the byte vector rather than its contents.
- The client's constructor passes the single argument `false` to the codec (qt/src/client.cpp:11), which does not match the declared constructor taking the key pair first; the model reads it as the role flag, a client-side codec (`NewCodec(keys, false)`), with the keys supplied later.
- After an abort the socket is closed and no further notifications arrive; the model only records the cleared state and does not model the closed socket.
- Qt signal/slot wiring, `tr()` translation and `emit`: emitted errors are returned as values (`Outcome`, `EmittedError`, `Report`).
- `SocketError` names only the three codes the handler distinguishes; every other Qt socket error code is `OtherError(code)`, and the socket's `errorString()` is a parameter.
- The file cipher widget and the signing widget: user interface and calls into external file encryption, not part of the handshake.
