/** The long-running minicap client: a connected socket and the banner it has
    read, `read_banner` and `receive_frames`. Saving frames to files and all
    console output are left to the caller; the emitted frames are returned in order. */
module MinicapClient {
  import opened Common
  import opened LittleEndian
  import opened RecvStream
  import opened BannerDecoder
  import opened FrameDemuxer

  /** The client object's state that the protocol logic uses. */
  datatype Client = Client(sock: Socket, banner: Option<Banner>)

  /** `read_banner`: true iff all max(length, 2) banner bytes arrived. The banner
      record is installed as soon as the two header bytes are in, so a truncated
      banner leaves it partly filled; without a header the old value stays. */
  method ReadBanner(c: Client) returns (ok: bool, c': Client)
    ensures |c.sock.data| < 2 ==> !ok && c'.banner == c.banner && c'.sock.data == []
    ensures |c.sock.data| >= 2 ==>
              var need := Max(c.sock.data[1], 2);
              var got := Min(need, |c.sock.data|);
              && ok == (|c.sock.data| >= need)
              && c'.banner == Some(BannerSpec(c.sock.data[..got]))
              && c'.sock.data == c.sock.data[got..]
  {
    var header, rest;
    ok, header, rest := ReadBannerBytes(c.sock);
    c' := Client(rest, if header.Some? then header else c.banner);
  }

  /** `receive_frames`: with no banner, returns at once. Otherwise runs the frame
      loop (`DemuxFrames`), which emits frames until `maxFrames` are emitted, the
      stream closes, a body lacks the JPEG marker, or a zero length makes the loop
      spin. Whatever the recv chunk schedule, the frames, the reason and the bytes
      left are those of the reference reading of the stream's bytes. */
  method ReceiveFrames(c: Client, maxFrames: int) returns (frames: seq<seq<byte>>, stop: StopReason, c': Client)
    ensures c.banner.None? ==> frames == [] && stop == NoBanner && c' == c
    ensures c.banner.Some? ==>
              var spec := SplitFrames(c.sock.data, maxFrames);
              && frames == spec.frames && stop == spec.stop
              && c'.sock.data == spec.rest && c'.banner == c.banner
  {
    if c.banner.None? {
      return [], NoBanner, c;
    }
    var sock;
    frames, stop, sock := DemuxFrames(c.sock, maxFrames);
    c' := Client(sock, c.banner);
  }
}
