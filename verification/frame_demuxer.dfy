/** The frame demuxer of the minicap client: a loop over the state
    (read_frame_bytes, frame_body_length, frame_body) that accumulates a 4-byte
    little-endian length, then that many body bytes, checks the JPEG start-of-image
    marker and emits the frame. `Step` is one iteration of that loop; `SplitFrames`
    is an independent reference reading of the whole stream. */
module FrameDemuxer {
  import opened Common
  import opened LittleEndian
  import opened RecvStream

  /** Why the frame loop ended. `Spinning` stands for the source looping forever
      on a declared length of 0 (see `ZeroLengthIsFixedPoint`); `NoBanner` for the
      early return when no banner was read. */
  datatype StopReason = FrameLimit | StreamClosed | NotJpeg | Spinning | NoBanner

  /** The loop's variables: how many length bytes were read, the length assembled
      so far, and the body bytes collected so far. */
  datatype DemuxState = DemuxState(readFrameBytes: nat, frameBodyLength: nat, frameBody: seq<byte>)

  /** The state at loop entry and after every emitted frame. */
  const Initial := DemuxState(0, 0, [])

  /** Outcome of one loop iteration: go on (possibly having emitted a frame), or break. */
  datatype StepResult =
    | Continue(next: DemuxState, frame: Option<seq<byte>>, sock: Socket)
    | Halt(reason: StopReason, sock: Socket)

  /** The body opens with the JPEG start-of-image marker FF D8; a body shorter
      than two bytes never does. */
  predicate HasJpegMarker(body: seq<byte>)
  {
    |body| >= 2 && body[0] == 0xFF && body[1] == 0xD8
  }

  /** The declared length is complete and 0: no branch of the loop body fires. */
  predicate IsSpinning(st: DemuxState)
  {
    st.readFrameBytes == 4 && st.frameBodyLength == 0
  }

  /** The length half of the loop body on one received chunk: each byte is
      shifted left by eight bits per length byte already read and added to the
      length, and the count of length bytes read grows by one. */
  function AccumulateLength(st: DemuxState, data: seq<byte>): DemuxState
    decreases data
  {
    if data == [] then st
    else
      AccumulateLength(
        st.(frameBodyLength := st.frameBodyLength + data[0] * Pow256(st.readFrameBytes),
            readFrameBytes := st.readFrameBytes + 1),
        data[1..])
  }

  /** However the length bytes are fragmented, each fragment shifts in at the
      position of the bytes already read: the result is little-endian in the
      concatenation of all fragments. */
  lemma {:induction false} AccumulateLengthIsLittleEndian(st: DemuxState, data: seq<byte>)
    ensures AccumulateLength(st, data).frameBodyLength
         == st.frameBodyLength + Pow256(st.readFrameBytes) * LeSum(data)
    ensures AccumulateLength(st, data).readFrameBytes == st.readFrameBytes + |data|
    ensures AccumulateLength(st, data).frameBody == st.frameBody
    decreases data
  {
    if data != [] {
      var n := st.readFrameBytes;
      var st' := st.(frameBodyLength := st.frameBodyLength + data[0] * Pow256(n), readFrameBytes := n + 1);
      AccumulateLengthIsLittleEndian(st', data[1..]);
      ShiftDistributes(st.frameBodyLength, data[0], LeSum(data[1..]), Pow256(n), 256);
    }
  }

  /** The length field split into any sequence of fragments (each fed to the
      accumulation in turn) gives the same state as feeding all of them at once,
      and so decodes to the little-endian value of their concatenation. */
  lemma LengthFragmentationIndependent(fragments: seq<seq<byte>>, st: DemuxState)
    ensures FeedAll(st, fragments) == AccumulateLength(st, Concat(fragments))
    ensures FeedAll(st, fragments).frameBodyLength
         == st.frameBodyLength + Pow256(st.readFrameBytes) * LeSum(Concat(fragments))
    ensures FeedAll(st, fragments).readFrameBytes == st.readFrameBytes + |Concat(fragments)|
  {
    FeedAllIsAccumulateConcat(st, fragments);
    AccumulateLengthIsLittleEndian(st, Concat(fragments));
  }

  lemma {:induction false} FeedAllIsAccumulateConcat(st: DemuxState, fragments: seq<seq<byte>>)
    ensures FeedAll(st, fragments) == AccumulateLength(st, Concat(fragments))
    decreases fragments
  {
    if fragments != [] {
      var head, tail := fragments[0], fragments[1..];
      FeedAllIsAccumulateConcat(AccumulateLength(st, head), tail);
      AccumulateLengthAppend(st, head, Concat(tail));
    }
  }

  /** Feeding two pieces in turn is feeding their concatenation. */
  lemma {:induction false} AccumulateLengthAppend(st: DemuxState, a: seq<byte>, b: seq<byte>)
    ensures AccumulateLength(st, a + b) == AccumulateLength(AccumulateLength(st, a), b)
    decreases a
  {
    if a == [] {
      assert a + b == b;
    } else {
      var st' := st.(frameBodyLength := st.frameBodyLength + a[0] * Pow256(st.readFrameBytes),
                     readFrameBytes := st.readFrameBytes + 1);
      assert (a + b)[0] == a[0] && (a + b)[1..] == a[1..] + b;
      AccumulateLengthAppend(st', a[1..], b);
    }
  }

  lemma ShiftDistributes(base: int, a: int, b: int, p: int, q: int)
    ensures base + a * p + (q * p) * b == base + p * (a + q * b)
  {
  }

  /** The fragments joined in order. */
  function Concat(fragments: seq<seq<byte>>): seq<byte>
  {
    if fragments == [] then [] else fragments[0] + Concat(fragments[1..])
  }

  /** Each fragment fed to the accumulation in turn. */
  function FeedAll(st: DemuxState, fragments: seq<seq<byte>>): DemuxState
    decreases fragments
  {
    if fragments == [] then st else FeedAll(AccumulateLength(st, fragments[0]), fragments[1..])
  }

  /** The body half of an iteration: runs only once all four length bytes are in
      and the length is positive; requests exactly the missing body bytes. */
  function BodyPhase(st: DemuxState, sock: Socket): StepResult
  {
    if st.readFrameBytes == 4 && st.frameBodyLength > 0 then
      var remaining := st.frameBodyLength - |st.frameBody|;
      var (chunk, sock') := if remaining > 0 then Recv(sock, remaining) else ([], sock);
      if remaining > 0 && chunk == [] then Halt(StreamClosed, sock')
      else
        var body := st.frameBody + chunk;
        if |body| == st.frameBodyLength then
          if HasJpegMarker(body) then Continue(Initial, Some(body), sock')
          else Halt(NotJpeg, sock')
        else Continue(st.(frameBody := body), None, sock')
    else Continue(st, None, sock)
  }

  /** One iteration of the frame loop: the length half (a recv of the missing
      length bytes, breaking on an empty read), then the body half. */
  function Step(st: DemuxState, sock: Socket): StepResult
  {
    if st.readFrameBytes < 4 then
      var (data, sock') := Recv(sock, 4 - st.readFrameBytes);
      if data == [] then Halt(StreamClosed, sock')
      else BodyPhase(AccumulateLength(st, data), sock')
    else BodyPhase(st, sock)
  }

  /** With a complete zero length, an iteration reads nothing and changes nothing:
      the state is a fixed point, so the source's loop never ends. */
  lemma ZeroLengthIsFixedPoint(st: DemuxState, sock: Socket)
    requires IsSpinning(st)
    ensures Step(st, sock) == Continue(st, None, sock)
  {
  }

  /** The states the loop can be in at the top of an iteration. */
  predicate WellFormed(st: DemuxState)
  {
    && st.readFrameBytes <= 4
    && st.frameBodyLength < Pow256(st.readFrameBytes)
    && (st.readFrameBytes < 4 || st.frameBodyLength == 0 ==> st.frameBody == [])
    && (st.readFrameBytes == 4 && st.frameBodyLength > 0 ==> |st.frameBody| < st.frameBodyLength)
  }

  /** The bytes of the current frame the state has already consumed. */
  function Pending(st: DemuxState): seq<byte>
  {
    LeEncode(st.frameBodyLength, st.readFrameBytes) + st.frameBody
  }

  /** Result of reading a stream: the frames emitted in order, why reading
      stopped, and the bytes left unread. */
  datatype Demuxed = Demuxed(frames: seq<seq<byte>>, stop: StopReason, rest: seq<byte>)

  /** The wire image of frames: each body behind its 4-byte little-endian length. */
  function Framed(frames: seq<seq<byte>>): seq<byte>
  {
    if frames == [] then [] else LeEncode(|frames[0]|, 4) + frames[0] + Framed(frames[1..])
  }

  /** `tail` is what is left of `s` after dropping a prefix. */
  predicate IsSuffix(tail: seq<byte>, s: seq<byte>)
  {
    |tail| <= |s| && tail == s[|s| - |tail|..]
  }

  lemma SuffixTransitive(a: seq<byte>, b: seq<byte>, c: seq<byte>)
    requires IsSuffix(a, b) && IsSuffix(b, c)
    ensures IsSuffix(a, c)
  {
    assert c[|c| - |b|..][|b| - |a|..] == c[|c| - |a|..];
  }

  /** What the stream offers as its next frame. */
  datatype Head =
    | Closed                                     // fewer than 4 length bytes, or fewer body bytes than declared
    | ZeroLength(after: seq<byte>)               // a complete length field declaring 0 bytes
    | Rejected(after: seq<byte>)                 // a complete body that does not start FF D8
    | Frame(body: seq<byte>, after: seq<byte>)   // a complete body that starts FF D8

  /** Reference reading of one frame at the front of `data`. */
  function NextFrame(data: seq<byte>): (h: Head)
    ensures h.Frame? ==> |h.after| < |data|
  {
    if |data| < 4 then Closed
    else
      var length := LeSum(data[..4]);
      if length == 0 then ZeroLength(data[4..])
      else if |data| - 4 < length then Closed
      else
        var body := data[4..4 + length];
        if !HasJpegMarker(body) then Rejected(data[4 + length..])
        else Frame(body, data[4 + length..])
  }

  /** A frame is a 4-byte little-endian length, that many body bytes starting
      FF D8, and the rest of the stream; a zero length is followed by the rest;
      a rejected body is dropped; the stream is closed for the reader exactly
      when the length field or the declared body is incomplete. */
  lemma NextFrameShape(data: seq<byte>)
    ensures var h := NextFrame(data);
            && (h.Frame? ==> HasJpegMarker(h.body) && data == LeEncode(|h.body|, 4) + h.body + h.after)
            && (h.ZeroLength? ==> |data| >= 4 && h.after == data[4..])
            && (h.Rejected? ==> IsSuffix(h.after, data) && |h.after| < |data|)
            && (h.Closed? <==> |data| < 4 || |data| - 4 < LeSum(data[..4]))
  {
    NextFrameImage(data);
    NextFrameAfter(data);
  }

  /** A frame's wire image is its length field, its body and the rest. */
  lemma NextFrameImage(data: seq<byte>)
    ensures var h := NextFrame(data);
            h.Frame? ==> data == LeEncode(|h.body|, 4) + h.body + h.after
  {
    var h := NextFrame(data);
    if h.Frame? {
      LeEncodeOfSum(data[..4]);
      assert data == data[..4] + h.body + h.after;
    }
  }

  /** What follows a frame or a rejected body is a proper suffix of the stream. */
  lemma NextFrameAfter(data: seq<byte>)
    ensures var h := NextFrame(data);
            (h.Frame? || h.Rejected?) ==> IsSuffix(h.after, data) && |h.after| < |data|
  {
    var h := NextFrame(data);
    if h.Frame? || h.Rejected? {
      assert h.after == data[4 + LeSum(data[..4])..];
    }
  }

  /** Reference reading of a whole stream, independent of how it is fragmented:
      up to `budget` frames, each a 4-byte little-endian length and that many
      body bytes starting FF D8. */
  function SplitFrames(data: seq<byte>, budget: int): Demuxed
    decreases |data|
  {
    if budget <= 0 then Demuxed([], FrameLimit, data)
    else
      match NextFrame(data)
      case Closed => Demuxed([], StreamClosed, [])
      case ZeroLength(after) => Demuxed([], Spinning, after)
      case Rejected(after) => Demuxed([], NotJpeg, after)
      case Frame(body, after) =>
        var tail := SplitFrames(after, budget - 1);
        Demuxed([body] + tail.frames, tail.stop, tail.rest)
  }

  /** The reference reading emits at most `budget` frames, and stops for the
      budget exactly when it emitted that many. */
  lemma {:induction false} SplitFramesCount(data: seq<byte>, budget: int)
    ensures var r := SplitFrames(data, budget);
            && |r.frames| <= Max(budget, 0)
            && (r.stop == FrameLimit <==> |r.frames| == Max(budget, 0))
    decreases |data|
  {
    if budget > 0 {
      match NextFrame(data)
      case Closed =>
      case ZeroLength(after) =>
      case Rejected(after) =>
      case Frame(body, after) =>
        SplitFramesCount(after, budget - 1);
    }
  }

  /** The reference reading leaves a suffix of the stream, nothing at all when
      the stream closed, and never claims a missing banner. */
  lemma {:induction false} SplitFramesRest(data: seq<byte>, budget: int)
    ensures var r := SplitFrames(data, budget);
            && IsSuffix(r.rest, data)
            && (r.stop == StreamClosed ==> r.rest == [])
            && r.stop != NoBanner
    decreases |data|, 1
  {
    if budget > 0 {
      NextFrameAfter(data);
      if NextFrame(data).Frame? {
        SplitFramesRestOnFrame(data, budget);
      }
    }
  }

  lemma {:induction false} SplitFramesRestOnFrame(data: seq<byte>, budget: int)
    requires budget > 0 && NextFrame(data).Frame?
    ensures var r := SplitFrames(data, budget);
            && IsSuffix(r.rest, data)
            && (r.stop == StreamClosed ==> r.rest == [])
            && r.stop != NoBanner
    decreases |data|, 0
  {
    var h := NextFrame(data);
    var tail := SplitFrames(h.after, budget - 1);
    SplitFramesOnFrame(data, budget);
    NextFrameAfter(data);
    SplitFramesRest(h.after, budget - 1);
    SuffixTransitive(tail.rest, h.after, data);
  }

  /** Every body the reference reading emits starts FF D8. */
  lemma {:induction false} SplitFramesMarked(data: seq<byte>, budget: int)
    ensures forall i :: 0 <= i < |SplitFrames(data, budget).frames| ==> HasJpegMarker(SplitFrames(data, budget).frames[i])
    decreases |data|
  {
    var h := NextFrame(data);
    if budget > 0 && h.Frame? {
      var r, tail := SplitFrames(data, budget), SplitFrames(h.after, budget - 1);
      SplitFramesMarked(h.after, budget - 1);
      assert r.frames == [h.body] + tail.frames;
      forall i | 0 <= i < |r.frames|
        ensures HasJpegMarker(r.frames[i])
      {
        if i > 0 {
          assert r.frames[i] == tail.frames[i - 1];
        }
      }
    }
  }

  /** `a` is what `b` starts with. */
  predicate IsPrefix(a: seq<byte>, b: seq<byte>)
  {
    |a| <= |b| && b[..|a|] == a
  }

  /** The reference reading consumes exactly the wire image of its frames before
      the bytes it stops at. */
  lemma {:induction false} SplitFramesPrefix(data: seq<byte>, budget: int)
    ensures IsPrefix(Framed(SplitFrames(data, budget).frames), data)
    decreases |data|, 1
  {
    if budget > 0 && NextFrame(data).Frame? {
      SplitFramesPrefixOnFrame(data, budget);
    }
  }

  lemma {:induction false} SplitFramesPrefixOnFrame(data: seq<byte>, budget: int)
    requires budget > 0 && NextFrame(data).Frame?
    ensures IsPrefix(Framed(SplitFrames(data, budget).frames), data)
    decreases |data|, 0
  {
    var h := NextFrame(data);
    var tail := SplitFrames(h.after, budget - 1);
    SplitFramesOnFrame(data, budget);
    NextFrameImage(data);
    SplitFramesPrefix(h.after, budget - 1);
    FramedPrefixStep(h.body, h.after, tail.frames, data, SplitFrames(data, budget).frames);
  }

  /** Unfolding the reference reading at a frame. */
  lemma SplitFramesOnFrame(data: seq<byte>, budget: int)
    requires budget > 0 && NextFrame(data).Frame?
    ensures var h := NextFrame(data);
            var tail := SplitFrames(h.after, budget - 1);
            SplitFrames(data, budget) == Demuxed([h.body] + tail.frames, tail.stop, tail.rest)
  {
  }

  lemma FramedPrefixStep(body: seq<byte>, after: seq<byte>, tail: seq<seq<byte>>, data: seq<byte>, frames: seq<seq<byte>>)
    requires data == LeEncode(|body|, 4) + body + after
    requires IsPrefix(Framed(tail), after)
    requires frames == [body] + tail
    ensures IsPrefix(Framed(frames), data)
  {
    FramedCons(body, tail);
    PrefixAfterCommonLead(LeEncode(|body|, 4) + body, Framed(tail), after);
  }

  lemma FramedCons(body: seq<byte>, frames: seq<seq<byte>>)
    ensures Framed([body] + frames) == LeEncode(|body|, 4) + body + Framed(frames)
  {
    assert ([body] + frames)[1..] == frames;
  }

  lemma PrefixAfterCommonLead(lead: seq<byte>, a: seq<byte>, b: seq<byte>)
    requires IsPrefix(a, b)
    ensures IsPrefix(lead + a, lead + b)
  {
    assert (lead + b)[..|lead + a|] == lead + b[..|a|];
  }

  /** How one iteration relates to the reference reading of everything the loop
      has still to see (the pending bytes of the current frame, then the socket):
      a break ends it exactly where the reference stops, for the same reason;
      going on consumes at least one byte and leaves the reference reading
      unchanged, minus the frame it emitted. */
  ghost predicate StepAgrees(st: DemuxState, sock: Socket, r: StepResult, budget: int)
  {
    var spec := SplitFrames(Pending(st) + sock.data, budget);
    match r
    case Halt(reason, after) => spec == Demuxed([], reason, after.data)
    case Continue(next, None, after) =>
      && WellFormed(next) && |after.data| < |sock.data|
      && spec == SplitFrames(Pending(next) + after.data, budget)
    case Continue(next, Some(f), after) =>
      && next == Initial && |after.data| < |sock.data|
      && var tail := SplitFrames(after.data, budget - 1);
         spec == Demuxed([f] + tail.frames, tail.stop, tail.rest)
  }

  /** Reading back a framed body: a 4-byte length and that many bytes give the
      frame (or its rejection) and exactly the bytes behind it. */
  lemma NextFrameOfImage(body: seq<byte>, rest: seq<byte>)
    requires 0 < |body| < Pow256(4)
    ensures var h := NextFrame(LeEncode(|body|, 4) + body + rest);
            h == if HasJpegMarker(body) then Frame(body, rest) else Rejected(rest)
  {
    var x := LeEncode(|body|, 4) + body + rest;
    LeSumOfEncode(|body|, 4);
    assert x[..4] == LeEncode(|body|, 4);
    assert x[4..4 + |body|] == body && x[4 + |body|..] == rest;
  }

  /** A length field followed by fewer body bytes than it declares is, for the
      reference reading, a closed stream. */
  lemma NextFrameOfShort(length: nat, body: seq<byte>)
    requires 0 < length < Pow256(4) && |body| < length
    ensures NextFrame(LeEncode(length, 4) + body).Closed?
  {
    var x := LeEncode(length, 4) + body;
    LeSumOfEncode(length, 4);
    assert x[..4] == LeEncode(length, 4);
  }

  /** The body half's request takes the missing body bytes, no more: the pending
      bytes and the socket still hold the same stream behind the length field. */
  lemma BodyChunkKeepsBytes(st: DemuxState, sock: Socket)
    requires WellFormed(st) && st.readFrameBytes == 4 && st.frameBodyLength > 0
    ensures var (chunk, sock') := Recv(sock, st.frameBodyLength - |st.frameBody|);
            && |st.frameBody + chunk| <= st.frameBodyLength
            && Pending(st) + sock.data == LeEncode(st.frameBodyLength, 4) + (st.frameBody + chunk) + sock'.data
  {
    var (chunk, sock') := Recv(sock, st.frameBodyLength - |st.frameBody|);
    var header := LeEncode(st.frameBodyLength, 4);
    assert header + st.frameBody + (chunk + sock'.data) == header + (st.frameBody + chunk) + sock'.data;
  }

  /** The body half agrees with the reference reading: each request is exactly
      the missing part of the body, so no byte of the next frame is taken. */
  lemma BodyPhaseRefines(st: DemuxState, sock: Socket, budget: int)
    requires WellFormed(st) && st.readFrameBytes == 4 && st.frameBodyLength > 0 && budget > 0
    ensures StepAgrees(st, sock, BodyPhase(st, sock), budget)
  {
    var (chunk, sock') := Recv(sock, st.frameBodyLength - |st.frameBody|);
    BodyChunkKeepsBytes(st, sock);
    if chunk == [] {
      BodyPhaseCloses(st, sock, budget);
    } else if |st.frameBody + chunk| == st.frameBodyLength {
      BodyPhaseCompletes(st, sock, budget);
    } else {
      BodyPhaseGrows(st, sock, budget);
    }
  }

  lemma BodyPhaseCloses(st: DemuxState, sock: Socket, budget: int)
    requires WellFormed(st) && st.readFrameBytes == 4 && st.frameBodyLength > 0 && budget > 0
    requires Recv(sock, st.frameBodyLength - |st.frameBody|).0 == []
    ensures var r := BodyPhase(st, sock);
            sock.data == [] && r.Halt? && r.reason == StreamClosed && r.sock.data == []
    ensures SplitFrames(Pending(st) + sock.data, budget) == Demuxed([], StreamClosed, [])
  {
    BodyPhaseHaltsWhenDry(st, sock);
    ShortBodyCloses(st, sock, budget);
  }

  /** An empty answer to the body request means the peer closed: the loop breaks. */
  lemma BodyPhaseHaltsWhenDry(st: DemuxState, sock: Socket)
    requires st.readFrameBytes == 4 && |st.frameBody| < st.frameBodyLength
    requires Recv(sock, st.frameBodyLength - |st.frameBody|).0 == []
    ensures var r := BodyPhase(st, sock);
            sock.data == [] && r.Halt? && r.reason == StreamClosed && r.sock.data == []
  {
    var n := st.frameBodyLength - |st.frameBody|;
    DryRecv(sock, n);
    var received := Recv(sock, n);
    assert BodyPhase(st, sock) == Halt(StreamClosed, received.1);
  }

  /** A positive request answered with nothing: the peer has closed and sent everything. */
  lemma DryRecv(sock: Socket, n: nat)
    requires n > 0 && Recv(sock, n).0 == []
    ensures sock.data == [] && Recv(sock, n).1.data == []
  {
  }

  lemma ShortBodyCloses(st: DemuxState, sock: Socket, budget: int)
    requires WellFormed(st) && st.readFrameBytes == 4 && st.frameBodyLength > 0 && budget > 0
    requires sock.data == []
    ensures SplitFrames(Pending(st) + sock.data, budget) == Demuxed([], StreamClosed, [])
  {
    var x := LeEncode(st.frameBodyLength, 4) + st.frameBody;
    assert Pending(st) + sock.data == x;
    NextFrameOfShort(st.frameBodyLength, st.frameBody);
  }

  lemma BodyPhaseCompletes(st: DemuxState, sock: Socket, budget: int)
    requires WellFormed(st) && st.readFrameBytes == 4 && st.frameBodyLength > 0 && budget > 0
    requires var (chunk, _) := Recv(sock, st.frameBodyLength - |st.frameBody|);
             chunk != [] && |st.frameBody + chunk| == st.frameBodyLength
    ensures StepAgrees(st, sock, BodyPhase(st, sock), budget)
  {
    var (chunk, sock') := Recv(sock, st.frameBodyLength - |st.frameBody|);
    BodyChunkKeepsBytes(st, sock);
    NextFrameOfImage(st.frameBody + chunk, sock'.data);
  }

  lemma BodyPhaseGrows(st: DemuxState, sock: Socket, budget: int)
    requires WellFormed(st) && st.readFrameBytes == 4 && st.frameBodyLength > 0 && budget > 0
    requires var (chunk, _) := Recv(sock, st.frameBodyLength - |st.frameBody|);
             chunk != [] && |st.frameBody + chunk| != st.frameBodyLength
    ensures StepAgrees(st, sock, BodyPhase(st, sock), budget)
  {
    var (chunk, sock') := Recv(sock, st.frameBodyLength - |st.frameBody|);
    BodyChunkKeepsBytes(st, sock);
    var next := st.(frameBody := st.frameBody + chunk);
    assert Pending(next) == LeEncode(st.frameBodyLength, 4) + (st.frameBody + chunk);
  }

  /** Feeding a fragment of the length field appends exactly that fragment to
      the pending bytes, and the state stays well formed. */
  lemma LengthFragmentExtendsPending(st: DemuxState, data: seq<byte>)
    requires WellFormed(st) && st.readFrameBytes < 4 && |data| <= 4 - st.readFrameBytes
    ensures Pending(AccumulateLength(st, data)) == Pending(st) + data
    ensures WellFormed(AccumulateLength(st, data))
  {
    var n, v := st.readFrameBytes, st.frameBodyLength;
    var st1 := AccumulateLength(st, data);
    AccumulateLengthIsLittleEndian(st, data);
    var w := st1.frameBodyLength;
    assert st == DemuxState(n, v, []);
    assert st1 == DemuxState(n + |data|, w, []);
    LeEncodeExtend(v, n, data, w);
    PendingOfLengthField(st, n, v);
    PendingOfLengthField(st1, n + |data|, w);
  }

  /** Before the body, the pending bytes are just the length field read so far. */
  lemma PendingOfLengthField(st: DemuxState, n: nat, v: nat)
    requires st == DemuxState(n, v, [])
    ensures Pending(st) == LeEncode(v, n)
  {
    assert LeEncode(v, n) + [] == LeEncode(v, n);
  }

  /** The body half agrees with the reference reading also as seen from earlier
      in the same iteration, where the same bytes were still to come and no fewer
      of them were on the socket. */
  lemma BodyPhaseRefinesFrom(st: DemuxState, sock: Socket, st1: DemuxState, sock1: Socket, budget: int)
    requires Pending(st) + sock.data == Pending(st1) + sock1.data && |sock1.data| <= |sock.data|
    requires WellFormed(st1) && st1.readFrameBytes == 4 && st1.frameBodyLength > 0 && budget > 0
    ensures StepAgrees(st, sock, BodyPhase(st1, sock1), budget)
  {
    BodyPhaseRefines(st1, sock1, budget);
  }

  /** The length half agrees with the reference reading: each request is exactly
      the missing part of the 4-byte field. */
  lemma LengthPhaseRefines(st: DemuxState, sock: Socket, budget: int)
    requires WellFormed(st) && st.readFrameBytes < 4 && budget > 0
    ensures StepAgrees(st, sock, Step(st, sock), budget)
  {
    if Recv(sock, 4 - st.readFrameBytes).0 == [] {
      LengthPhaseCloses(st, sock, budget);
    } else {
      LengthPhaseReads(st, sock, budget);
    }
  }

  /** An empty read of the length field: the stream closed inside it, and the
      reference reading, seeing fewer than four bytes, closes too. */
  lemma LengthPhaseCloses(st: DemuxState, sock: Socket, budget: int)
    requires WellFormed(st) && st.readFrameBytes < 4 && budget > 0
    requires Recv(sock, 4 - st.readFrameBytes).0 == []
    ensures StepAgrees(st, sock, Step(st, sock), budget)
  {
    assert sock.data == [] && |Pending(st)| < 4;
    assert NextFrame(Pending(st) + sock.data).Closed?;
  }

  /** A read of the length field moves its bytes from the socket to the pending
      bytes: what is still to come does not change. */
  lemma LengthReadKeepsBytes(st: DemuxState, sock: Socket)
    requires WellFormed(st) && st.readFrameBytes < 4
    ensures var (data, sock') := Recv(sock, 4 - st.readFrameBytes);
            Pending(AccumulateLength(st, data)) + sock'.data == Pending(st) + sock.data
  {
    var (data, sock') := Recv(sock, 4 - st.readFrameBytes);
    var p, p1 := Pending(st), Pending(AccumulateLength(st, data));
    LengthFragmentExtendsPending(st, data);
    assert p1 == p + data && data + sock'.data == sock.data;
    AppendAssociates(p, data, sock'.data);
  }

  lemma AppendAssociates(a: seq<byte>, b: seq<byte>, c: seq<byte>)
    ensures (a + b) + c == a + (b + c)
  {
  }

  /** A non-empty read of the length field: the body half goes on from there. */
  lemma LengthPhaseReads(st: DemuxState, sock: Socket, budget: int)
    requires WellFormed(st) && st.readFrameBytes < 4 && budget > 0
    requires Recv(sock, 4 - st.readFrameBytes).0 != []
    ensures StepAgrees(st, sock, Step(st, sock), budget)
  {
    var (data, sock') := Recv(sock, 4 - st.readFrameBytes);
    var st1 := AccumulateLength(st, data);
    if st1.readFrameBytes == 4 && st1.frameBodyLength > 0 {
      LengthThenBody(st, sock, budget);
    } else {
      LengthFragmentExtendsPending(st, data);
      LengthReadKeepsBytes(st, sock);
      assert Step(st, sock) == Continue(st1, None, sock');
    }
  }

  /** The read completed a positive length: the body half runs in the same iteration. */
  lemma LengthThenBody(st: DemuxState, sock: Socket, budget: int)
    requires WellFormed(st) && st.readFrameBytes < 4 && budget > 0
    requires Recv(sock, 4 - st.readFrameBytes).0 != []
    requires var st1 := AccumulateLength(st, Recv(sock, 4 - st.readFrameBytes).0);
             st1.readFrameBytes == 4 && st1.frameBodyLength > 0
    ensures StepAgrees(st, sock, Step(st, sock), budget)
  {
    var (data, sock') := Recv(sock, 4 - st.readFrameBytes);
    var st1 := AccumulateLength(st, data);
    assert Step(st, sock) == BodyPhase(st1, sock');
    LengthFragmentExtendsPending(st, data);
    LengthReadKeepsBytes(st, sock);
    BodyPhaseRefinesFrom(st, sock, st1, sock', budget);
  }

  /** Every iteration of a well-formed, non-spinning loop agrees with the reference reading. */
  lemma StepRefines(st: DemuxState, sock: Socket, budget: int)
    requires WellFormed(st) && !IsSpinning(st) && budget > 0
    ensures StepAgrees(st, sock, Step(st, sock), budget)
  {
    if st.readFrameBytes < 4 {
      LengthPhaseRefines(st, sock, budget);
    } else {
      BodyPhaseRefines(st, sock, budget);
    }
  }

  /** The frames emitted so far, followed by the reference reading of what is
      still to come (the bytes of the current frame already consumed, then the
      socket), make up the reference reading of the whole stream. */
  ghost predicate Tracks(emitted: seq<seq<byte>>, st: DemuxState, data: seq<byte>, budget: int, whole: Demuxed)
  {
    var toCome := SplitFrames(Pending(st) + data, budget);
    emitted + toCome.frames == whole.frames && toCome.stop == whole.stop && toCome.rest == whole.rest
  }

  /** Before the loop: nothing emitted, nothing pending, the whole stream to come. */
  lemma TracksInitially(data: seq<byte>, budget: int)
    ensures Tracks([], Initial, data, budget, SplitFrames(data, budget))
  {
    assert Pending(Initial) + data == data;
  }

  /** A complete zero length field at the front: the reference stops there, spinning. */
  lemma SplitZeroLength(x: seq<byte>, budget: int)
    requires budget > 0 && |x| >= 4 && LeSum(x[..4]) == 0
    ensures SplitFrames(x, budget) == Demuxed([], Spinning, x[4..])
  {
  }

  /** A spinning state: the reference reading stops with what was emitted. */
  lemma TracksWhenSpinning(emitted: seq<seq<byte>>, st: DemuxState, data: seq<byte>, budget: int, whole: Demuxed)
    requires IsSpinning(st) && WellFormed(st) && budget > 0
    requires Tracks(emitted, st, data, budget, whole)
    ensures whole == Demuxed(emitted, Spinning, data)
  {
    var x := Pending(st) + data;
    var header := LeEncode(0, 4);
    assert x == header + data;
    assert x[..4] == header && x[4..] == data;
    LeSumOfEncode(0, 4);
    SplitZeroLength(x, budget);
    assert emitted + [] == emitted;
  }

  /** The budget used up between frames: the reference reading stops with what was emitted. */
  lemma TracksAtLimit(emitted: seq<seq<byte>>, data: seq<byte>, budget: int, whole: Demuxed)
    requires budget <= 0 && Tracks(emitted, Initial, data, budget, whole)
    ensures whole == Demuxed(emitted, FrameLimit, data)
  {
    assert Pending(Initial) + data == data;
    assert emitted + [] == emitted;
  }

  /** A halting step ends the reading exactly where the reference stops. */
  lemma TracksOnHalt(emitted: seq<seq<byte>>, st: DemuxState, sock: Socket, r: StepResult, budget: int, whole: Demuxed)
    requires r.Halt? && StepAgrees(st, sock, r, budget)
    requires Tracks(emitted, st, sock.data, budget, whole)
    ensures whole == Demuxed(emitted, r.reason, r.sock.data)
  {
    assert emitted + [] == emitted;
  }

  /** The frames a step emits: none, or the one it completed. */
  function Emitted(r: StepResult): (e: seq<seq<byte>>)
    requires r.Continue?
    ensures |e| <= 1
  {
    if r.frame.Some? then [r.frame.value] else []
  }

  /** A step that completes a frame moves it from the part to come to the part emitted. */
  lemma TracksOnFrame(emitted: seq<seq<byte>>, st: DemuxState, sock: Socket, r: StepResult, budget: int, whole: Demuxed)
    requires r.Continue? && r.frame.Some? && StepAgrees(st, sock, r, budget)
    requires Tracks(emitted, st, sock.data, budget, whole)
    ensures Tracks(emitted + [r.frame.value], r.next, r.sock.data, budget - 1, whole)
  {
    var tail := SplitFrames(r.sock.data, budget - 1);
    assert emitted + ([r.frame.value] + tail.frames) == (emitted + [r.frame.value]) + tail.frames;
    assert r.next == Initial;
    assert Pending(r.next) + r.sock.data == r.sock.data;
  }

  /** A continuing step keeps the reading on track. */
  lemma TracksOnContinue(emitted: seq<seq<byte>>, st: DemuxState, sock: Socket, r: StepResult, budget: int, whole: Demuxed)
    requires r.Continue? && StepAgrees(st, sock, r, budget)
    requires Tracks(emitted, st, sock.data, budget, whole)
    ensures Tracks(emitted + Emitted(r), r.next, r.sock.data, budget - |Emitted(r)|, whole)
  {
    if r.frame.Some? {
      TracksOnFrame(emitted, st, sock, r, budget, whole);
    } else {
      TracksOnNoFrame(emitted, st, sock, r, budget, whole);
    }
  }

  /** A step that emits nothing leaves the part to come unchanged. */
  lemma TracksOnNoFrame(emitted: seq<seq<byte>>, st: DemuxState, sock: Socket, r: StepResult, budget: int, whole: Demuxed)
    requires r.Continue? && r.frame.None? && StepAgrees(st, sock, r, budget)
    requires Tracks(emitted, st, sock.data, budget, whole)
    ensures Tracks(emitted + Emitted(r), r.next, r.sock.data, budget - |Emitted(r)|, whole)
  {
    assert Emitted(r) == [] && emitted + [] == emitted;
  }

  /** One iteration of the frame loop: a zero length makes the loop spin, a halt
      ends it, and a continuing step appends the frame it completed, if any, and
      keeps the reading on track. */
  method Iterate(st: DemuxState, sock: Socket, frames: seq<seq<byte>>, ghost left: int, ghost whole: Demuxed)
    returns (done: bool, stop: StopReason, st': DemuxState, sock': Socket, frames': seq<seq<byte>>, ghost left': int)
    requires WellFormed(st) && left > 0
    requires Tracks(frames, st, sock.data, left, whole)
    ensures done ==> whole == Demuxed(frames', stop, sock'.data)
    ensures !done ==>
              && WellFormed(st') && |sock'.data| < |sock.data|
              && |frames'| - |frames| == left - left' && left - 1 <= left' <= left
              && (left' < left ==> st' == Initial)
              && Tracks(frames', st', sock'.data, left', whole)
  {
    if IsSpinning(st) {
      TracksWhenSpinning(frames, st, sock.data, left, whole);
      return true, Spinning, st, sock, frames, left;
    }
    StepRefines(st, sock, left);
    var r := Step(st, sock);
    if r.Halt? {
      TracksOnHalt(frames, st, sock, r, left, whole);
      return true, r.reason, st, r.sock, frames, left;
    }
    TracksOnContinue(frames, st, sock, r, left, whole);
    var emitted := Emitted(r);
    done, stop, st', sock', frames', left' := false, FrameLimit, r.next, r.sock, frames + emitted, left - |emitted|;
  }

  /** The frame loop of `receive_frames`, the helper `MinicapClient.ReceiveFrames`
      runs once a banner was read: emits frames until `maxFrames` are
      emitted, the stream closes, a body lacks the JPEG marker, or a zero length
      makes the loop spin. Whatever the recv chunk schedule, the frames, the
      reason and the bytes left are those of the reference reading of the bytes. */
  method DemuxFrames(sock0: Socket, maxFrames: int) returns (frames: seq<seq<byte>>, stop: StopReason, sock: Socket)
    ensures Demuxed(frames, stop, sock.data) == SplitFrames(sock0.data, maxFrames)
  {
    ghost var target := SplitFrames(sock0.data, maxFrames);
    var frameCount := 0;
    ghost var left := maxFrames;
    var st := Initial;
    sock := sock0;
    frames := [];
    TracksInitially(sock0.data, maxFrames);
    while frameCount < maxFrames
      invariant WellFormed(st)
      invariant frameCount == |frames| && left == maxFrames - frameCount
      invariant st == Initial || frameCount < maxFrames
      invariant Tracks(frames, st, sock.data, left, target)
      decreases |sock.data|
    {
      var done;
      done, stop, st, sock, frames, left := Iterate(st, sock, frames, left, target);
      if done {
        return;
      }
      frameCount := |frames|;
    }
    TracksAtLimit(frames, sock.data, left, target);
    stop := FrameLimit;
  }

}
