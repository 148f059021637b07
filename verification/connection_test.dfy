/** The one-shot connection check: read the banner with the same byte-offset
    dispatch as the client, then one frame with a single 4-byte length read and
    a body loop of bounded requests, and accept the frame only if it is a JPEG. */
module ConnectionTest {
  import opened Common
  import opened LittleEndian
  import opened RecvStream
  import opened BannerDecoder
  import opened FrameDemuxer

  /** The test's unpacking of the length field: four bytes as an unsigned 32-bit little-endian value. */
  function UnpackLe32(w: seq<byte>): (v: nat)
    requires |w| == 4
    ensures v < 0x1_0000_0000
  {
    Le32(w[0], w[1], w[2], w[3])
  }

  /** The unpacked length is the value the client's byte-wise accumulation
      builds from the same four bytes, starting from its initial state. */
  lemma UnpackMatchesAccumulation(w: seq<byte>)
    requires |w| == 4
    ensures UnpackLe32(w) == LeSum(w) == AccumulateLength(Initial, w).frameBodyLength
    ensures AccumulateLength(Initial, w).readFrameBytes == 4
  {
    LeSumOfFour(w);
    AccumulateLengthIsLittleEndian(Initial, w);
  }

  /** The banner arrived in full: both header bytes and max(length, 2) bytes in all. */
  predicate BannerComplete(data: seq<byte>)
  {
    |data| >= 2 && |data| >= Max(data[1], 2)
  }

  /** The socket as the banner read leaves it: the banner's bytes consumed, and
      one schedule entry spent per recv call. */
  function AfterBanner(sock: Socket): Socket
    requires |sock.data| >= 2
  {
    var got := Min(Max(sock.data[1], 2), |sock.data|);
    Socket(sock.data[got..], Spent(sock.caps, BannerReads(sock.data)))
  }

  /** Reference outcome of the one-shot frame read: the single recv(4) returned
      all four length bytes, the stream holds the whole declared body behind
      them, and that body starts FF D8. The body's own chunking does not matter. */
  predicate OneShotSucceeds(s: Socket)
  {
    var (header, s1) := Recv(s, 4);
    |header| == 4 && LeSum(header) <= |s1.data| && HasJpegMarker(s1.data[..LeSum(header)])
  }

  /** The body loop: requests min(4096, bytes still missing) until the declared
      length is reached; an empty chunk means the connection closed. */
  method ReadBody(sock: Socket, frameLength: nat) returns (complete: bool, body: seq<byte>, rest: Socket)
    ensures complete <==> frameLength <= |sock.data|
    ensures complete ==> body == sock.data[..frameLength] && rest.data == sock.data[frameLength..]
    ensures !complete ==> body == sock.data && rest.data == []
  {
    body := [];
    var bytesRead := 0;
    rest := sock;
    while bytesRead < frameLength
      invariant bytesRead == |body| <= frameLength
      invariant bytesRead <= |sock.data|
      invariant body == sock.data[..bytesRead] && rest.data == sock.data[bytesRead..]
      decreases frameLength - bytesRead
    {
      var request := Min(4096, frameLength - bytesRead);
      assert 0 < request <= 4096 && request <= frameLength - bytesRead;
      var received := Recv(rest, request);
      if received.0 == [] {
        return false, body, received.1;
      }
      ChunkExtendsPrefix(sock.data, bytesRead, received.0, received.1.data);
      body := body + received.0;
      bytesRead := bytesRead + |received.0|;
      rest := received.1;
    }
    complete := true;
  }

  /** A chunk received at offset `i` extends the prefix read so far and leaves
      the bytes behind it. */
  lemma ChunkExtendsPrefix(whole: seq<byte>, i: nat, chunk: seq<byte>, after: seq<byte>)
    requires i <= |whole| && whole[i..] == chunk + after
    ensures i + |chunk| <= |whole|
    ensures whole[..i] + chunk == whole[..i + |chunk|] && after == whole[i + |chunk|..]
  {
    assert whole[i..][..|chunk|] == chunk;
    assert whole[i..][|chunk|..] == after;
  }

  /** The one-shot frame read: a single recv(4) that must return four bytes,
      the unpacked length, the body loop, and the JPEG marker check. */
  method ReadOneFrame(sock: Socket) returns (ok: bool, frame: seq<byte>, rest: Socket)
    ensures ok <==> OneShotSucceeds(sock)
    ensures |Recv(sock, 4).0| < 4 ==> !ok && frame == [] && rest == Recv(sock, 4).1
    ensures ok ==> HasJpegMarker(frame)
                   && frame == Recv(sock, 4).1.data[..LeSum(Recv(sock, 4).0)]
                   && rest.data == Recv(sock, 4).1.data[LeSum(Recv(sock, 4).0)..]
  {
    var (header, s1) := Recv(sock, 4);
    if |header| < 4 {
      return false, [], s1;
    }
    var frameLength := UnpackLe32(header);
    UnpackMatchesAccumulation(header);
    var complete;
    complete, frame, rest := ReadBody(s1, frameLength);
    ok := complete && HasJpegMarker(frame);
  }

  /** The whole check: true exactly when the banner arrived in full and the
      one-shot frame read, on what the banner read left, found a JPEG frame. */
  method TestConnection(sock: Socket) returns (ok: bool)
    ensures ok <==> BannerComplete(sock.data) && OneShotSucceeds(AfterBanner(sock))
  {
    var bannerOk, header, rest := ReadBannerBytes(sock);
    if !bannerOk {
      return false;
    }
    assert rest == AfterBanner(sock);
    var frame, after;
    ok, frame, after := ReadOneFrame(rest);
  }

  /** When the single length read is not cut short, the one-shot read accepts
      exactly the streams whose first frame the client would emit, and takes the
      same body. */
  lemma OneShotAgreesWithClient(s: Socket)
    requires |Recv(s, 4).0| == 4
    ensures OneShotSucceeds(s) <==> |SplitFrames(s.data, 1).frames| == 1
    ensures OneShotSucceeds(s) ==>
              SplitFrames(s.data, 1).frames == [Recv(s, 4).1.data[..LeSum(Recv(s, 4).0)]]
  {
    var (header, s1) := Recv(s, 4);
    assert s.data[..4] == header && s.data[4..] == s1.data;
    var length := LeSum(header);
    var h := NextFrame(s.data);
    if length == 0 {
      assert h.ZeroLength?;
    } else if length <= |s1.data| {
      assert s.data[4..4 + length] == s1.data[..length];
    }
  }

  /** The single length read is the check's weak point: a stream holding a
      complete JPEG frame, whose first recv(4) delivers only two bytes, fails the
      check, while the client's accumulating loop emits the frame. */
  lemma ShortLengthReadFailsCheck()
    ensures var s := Socket([2, 0, 0, 0, 0xFF, 0xD8], [2]);
            !OneShotSucceeds(s) && SplitFrames(s.data, 1).frames == [[0xFF, 0xD8]]
  {
    var s := Socket([2, 0, 0, 0, 0xFF, 0xD8], [2]);
    assert |Recv(s, 4).0| == 2;
    var body: seq<byte> := [0xFF, 0xD8];
    assert LeEncode(2, 4) == [2, 0, 0, 0];
    NextFrameOfImage(body, []);
    assert s.data == LeEncode(2, 4) + body + [];
  }
}
