# minicap client protocol core, in Dafny

minicap streams an Android device's screen over a TCP socket. First it sends a
banner: a version byte, a length byte, then little-endian 32-bit pid, real and
virtual width and height, an orientation byte (times 90 degrees) and a quirks
byte. After that it sends frames, each a 4-byte little-endian length followed by
that many bytes of JPEG. This project models the Python client's protocol logic
and the connection test's one-shot read:

- `MinicapClient.ReadBanner` is `read_banner`. It reads the banner one byte per
  `recv(1)` and dispatches on the byte offset.
- `MinicapClient.ReceiveFrames` is `receive_frames`. It returns at once without a
  banner. Otherwise it runs the frame loop `FrameDemuxer.DemuxFrames`.
- `ConnectionTest.TestConnection` is the connection test. It reads the banner with
  the same `BannerDecoder.ReadBannerBytes`, then one frame through a single
  `recv(4)` and a body loop of requests of at most 4096 bytes.

The transport is `RecvStream.Socket`. It holds the bytes the peer will send and a
schedule of per-call delivery caps. So every proof about the readers holds for
every way TCP might fragment the stream.

Every reader is proved against an independent reference:

- `BannerDecoder.BannerSpec` decodes by fields, where the source dispatches one
  offset at a time.
- `FrameDemuxer.SplitFrames` reads a whole byte sequence into frames. The
  refinement proof shows that `DemuxFrames` returns the same frames, stop reason
  and unread bytes as `SplitFrames`, whatever the cap schedule.

Modules: `Common` (Option, Min, Max), `LittleEndian` (bytes, place values,
encode/decode round trips), `RecvStream`, `BannerDecoder`, `FrameDemuxer`,
`MinicapClient` and `ConnectionTest`.

The code's own behaviour, which the model keeps:

- **Errors.** The code has no error types. It returns `False`, or breaks out of
  the loop after printing. The model returns booleans and a `StopReason`.
- **Partial banners.** The banner record is installed as soon as both header
  bytes arrive. So a truncated banner leaves a partly filled record, and
  `receive_frames` will then run. `ReadBanner` states exactly this.
- **Orientation.** Any orientation byte is accepted and stored times 90.
  `BannerSpecBounds` states the resulting range: a multiple of 90, at most
  255 * 90.
- **Zero length.** On a zero frame length, no branch of the client's loop body
  fires, so the loop spins forever. The test reads an empty body, which fails
  its JPEG check, so it returns `False`.
- **Truncated body.** When the stream closes inside a body, the client just
  stops, and the test returns `False`.

## Model

| member | source | states |
|---|---|---|
| MinicapClient.ReadBanner | minicap_client.py:32-122 | fewer than 2 bytes: false and the old banner kept; otherwise true iff max(length, 2) bytes arrived, the banner is the reference decoding of the bytes received (partial if truncated), and exactly those bytes are consumed |
| BannerDecoder.ReadBannerBytes | minicap_client.py:36-116 | the banner read on any cap schedule: no header iff fewer than 2 bytes, success iff max(length, 2) bytes arrive, the record is the reference decoding of min(max(length, 2), available) bytes, the rest of the stream is untouched, and one schedule entry is spent per recv call |
| BannerDecoder.ReadBannerTail | minicap_client.py:62-116 | the byte-at-a-time loop after the header consumes bytes up to the declared length or the close, and builds the reference decoding of them |
| BannerDecoder.DispatchedIsBannerSpec | minicap_client.py:63-116 | the offset-by-offset dispatch, applied byte after byte, equals the field-wise reference decoding for every prefix of the banner |
| BannerDecoder.BannerSpecSnoc | minicap_client.py:71-114 | one more byte at offset n updates exactly the field owning offset n, in the way the dispatch does |
| BannerDecoder.BannerSpecHeader | minicap_client.py:49-59 | after the two header bytes every other field is 0 |
| BannerDecoder.BannerSpecBounds | minicap_client.py:71-114 | every 32-bit field is below 2^32, orientation is a multiple of 90 and at most 255*90, quirks is below 256, and a field whose offsets were not reached is 0 |
| BannerDecoder.BannerFieldsLittleEndian | minicap_client.py:71-114 | on a full 24-byte banner each 32-bit field is the little-endian value of its four bytes, orientation is its byte times 90, quirks its byte |
| BannerDecoder.WindowIsLe32 | minicap_client.py:71-78 | a complete four-byte field decodes to byte0 + byte1*2^8 + byte2*2^16 + byte3*2^24 |
| BannerDecoder.DecodeEncodeBanner | minicap_client.py:71-114 | every 24-byte banner is re-encoded byte for byte from its decoding |
| BannerDecoder.EncodeDecodeBanner | minicap_client.py:71-114 | every encodable banner record decodes back to itself |
| BannerDecoder.BannerExample | minicap_client.py:71-114 | the banner 01 18 0A0B0C0D ... 02 03 decodes to pid 0x0D0C0B0A, the four dimensions, orientation 180 and quirks 3 |
| MinicapClient.ReceiveFrames | minicap_client.py:140-192 | without a banner: no frames and nothing read; with one, for every cap schedule, the emitted frames, the stop reason and the unread bytes are those of the reference reading with the frame limit |
| FrameDemuxer.DemuxFrames | minicap_client.py:154-192 | the frame loop's outcome (frames, reason, unread bytes) equals the reference reading of the stream's bytes, whatever the fragmentation |
| FrameDemuxer.Iterate | minicap_client.py:156-192 | one loop iteration either ends the loop with the reference outcome, or keeps the state well formed, consumes at least one byte, emits at most one frame and keeps the outcome still to come equal to the reference reading of what is left |
| FrameDemuxer.StepRefines | minicap_client.py:156-192 | one iteration from a well-formed, non-spinning state agrees with the reference reading of the pending bytes plus the stream |
| FrameDemuxer.LengthPhaseRefines | minicap_client.py:156-164 | the length half of an iteration agrees with the reference reading |
| FrameDemuxer.LengthPhaseCloses | minicap_client.py:157-160 | an empty answer while the length field is incomplete ends the loop as a closed stream |
| FrameDemuxer.BodyPhaseRefines | minicap_client.py:167-192 | the body half of an iteration agrees with the reference reading: it grows the body, emits a JPEG frame and resets, rejects a non-JPEG body, or closes |
| FrameDemuxer.BodyPhaseCloses | minicap_client.py:169-173 | an empty answer while the body is incomplete ends the loop as closed, and the reference reading of the pending bytes is closed with no frame |
| FrameDemuxer.AccumulateLengthIsLittleEndian | minicap_client.py:162-164 | each received length byte is added at place value 256^(bytes read so far), so the length is little-endian in all the bytes fed |
| FrameDemuxer.LengthFragmentationIndependent | minicap_client.py:156-164 | feeding the length bytes in any fragments gives the same state as feeding their concatenation at once |
| FrameDemuxer.AccumulateLengthAppend | minicap_client.py:162-164 | feeding a + b equals feeding a and then b |
| FrameDemuxer.LengthFragmentExtendsPending | minicap_client.py:162-164 | a length fragment that fits keeps the state well formed and appends exactly its bytes to the pending wire image |
| FrameDemuxer.ZeroLengthIsFixedPoint | minicap_client.py:156-167 | with four length bytes read and length 0, an iteration changes nothing and reads nothing: the source loop never ends |
| FrameDemuxer.TracksWhenSpinning | minicap_client.py:156-167 | once the loop spins on a zero length, the outcome is the reference's Spinning stop with the frames emitted so far |
| FrameDemuxer.NextFrameShape | minicap_client.py:156-192 | a frame is a 4-byte little-endian length, that many bytes starting FF D8, then the rest; the stream closes for the reader exactly when the length field or the body is incomplete |
| FrameDemuxer.SplitFramesCount | minicap_client.py:154-180 | at most max(limit, 0) frames, and the frame limit is the stop reason exactly when that many were emitted |
| FrameDemuxer.SplitFramesMarked | minicap_client.py:177-185 | every emitted frame starts with FF D8 |
| FrameDemuxer.SplitFramesPrefix | minicap_client.py:156-189 | the emitted frames, each re-framed with its length, are a prefix of the stream |
| FrameDemuxer.SplitFramesRest | minicap_client.py:156-192 | the unread bytes are a suffix of the stream, empty when the stream closed |
| ConnectionTest.TestConnection | test_minicap.py:28-158 | true iff the banner arrived in full and the one-shot frame read on the bytes after it succeeds |
| ConnectionTest.ReadOneFrame | test_minicap.py:121-154 | false when the single recv(4) returns fewer than 4 bytes; otherwise true iff the whole declared body arrived and starts FF D8, in which case the frame is exactly those bytes |
| ConnectionTest.ReadBody | test_minicap.py:130-140 | with requests of min(4096, bytes missing), the body is complete iff the stream holds the declared length, and is then exactly those bytes; an empty chunk means every remaining byte was already taken |
| ConnectionTest.UnpackMatchesAccumulation | test_minicap.py:127 | unpacking four bytes as an unsigned 32-bit little-endian value gives the length the client's byte-wise accumulation builds from the same bytes |
| ConnectionTest.OneShotAgreesWithClient | test_minicap.py:121-154 | when recv(4) returns four bytes, the one-shot read succeeds iff the client's reading yields a first frame, and both take the same body |
| ConnectionTest.ShortLengthReadFailsCheck | test_minicap.py:122-125 | a stream holding a complete JPEG frame whose first recv(4) delivers two bytes fails the test, though the client emits the frame |
| LittleEndian.LeSumOfFour | test_minicap.py:127 | the recursive little-endian value of four bytes is b0 + b1*2^8 + b2*2^16 + b3*2^24 |
| LittleEndian.LeSumOfEncode | minicap_client.py:162-164 | decoding the n-byte little-endian encoding of v below 256^n gives v |
| LittleEndian.LeEncodeOfSum | minicap_client.py:162-164 | encoding the little-endian value of n bytes in n bytes gives them back |
| RecvStream.Recv | minicap_client.py:157 | recv(n) returns at most n bytes and at most the call's cap, a prefix of what is left, and nothing only when the peer has closed |

## Left out

- FrameDemuxer.DemuxFrames: on a zero frame length it stops with the reason `Spinning`. The loop at minicap_client.py:156-167 never ends there. `ZeroLengthIsFixedPoint` proves that an iteration changes nothing in that state.
- MinicapClient.ReceiveFrames: it stops with `Spinning` on a zero length for the same reason.
- MinicapClient.ReceiveFrames: it returns the frames in order rather than passing each one to `save_frame`. The `save_frames` flag is dropped with it.
- MinicapClient.ReceiveFrames: the defaults `max_frames=10` and `save_frames=True` are dropped. The frame limit is an explicit parameter.
- `save_frame`: not modelled. It writes a file whose name includes the wall-clock time.
- Exception handlers are not modelled. These are `except Exception` in `read_banner` (minicap_client.py:124-126) and `KeyboardInterrupt`/`Exception`/`finally` in `receive_frames` (minicap_client.py:194-199). A peer close is modelled as an empty recv, not as an exception.
- The test's exception handlers are not modelled (test_minicap.py:160-170). These are `socket.timeout`, `ConnectionRefusedError` and `Exception`, and each returns `False`. The model has no timeouts and no refused connections; a peer close is an empty recv.
- The transport is left out: socket creation, `connect`, `close`, `settimeout` and timeouts. Only `recv` is modelled, as `RecvStream.Recv` over an explicit schedule.
- Console output is left out, and so are `main` and the command-line entry points.
- The JPEG payload is not decoded. Only its two-byte start-of-image marker is checked, as in the source.
- ConnectionTest.TestConnection: it returns only the verdict. The decoded banner, which the test only prints, is not returned. The write of `test_frame.jpg` is left out.
- Python's integers are unbounded, and so are the model's `nat` fields. No wrap-around exists to model.
