/** The minicap banner: version, length, then display geometry decoded one byte
    at a time by byte offset. */
module BannerDecoder {
  import opened Common
  import opened LittleEndian
  import opened RecvStream

  /** The banner record both callers build. Integer fields are unbounded, as in
      Python; the lemmas below bound them. */
  datatype Banner = Banner(
    version: byte,
    length: byte,
    pid: nat,
    realWidth: nat,
    realHeight: nat,
    virtualWidth: nat,
    virtualHeight: nat,
    orientation: nat,
    quirks: nat)

  /** The record as it stands right after the two header bytes: every field 0. */
  function Fresh(version: byte, length: byte): Banner
  {
    Banner(version, length, 0, 0, 0, 0, 0, 0, 0)
  }

  /** One step of a 32-bit field's assembly: its byte 0 is assigned, its byte k
      (k = 1, 2, 3) is added shifted left by 8 * k bits. */
  function ShiftIn(field: nat, k: nat, v: byte): nat
  {
    if k == 0 then v else field + v * Pow256(k)
  }

  /** The byte-offset dispatch applied to the byte `v` found at `offset`: offsets
      2-5, 6-9, 10-13, 14-17 and 18-21 assemble pid, realWidth, realHeight,
      virtualWidth and virtualHeight; offset 22 is the orientation byte scaled by
      90, offset 23 the quirks byte; any other offset is ignored. */
  function ApplyBannerByte(b: Banner, offset: nat, v: byte): Banner
  {
    if 2 <= offset < 6 then b.(pid := ShiftIn(b.pid, offset - 2, v))
    else if 6 <= offset < 10 then b.(realWidth := ShiftIn(b.realWidth, offset - 6, v))
    else if 10 <= offset < 14 then b.(realHeight := ShiftIn(b.realHeight, offset - 10, v))
    else if 14 <= offset < 18 then b.(virtualWidth := ShiftIn(b.virtualWidth, offset - 14, v))
    else if 18 <= offset < 22 then b.(virtualHeight := ShiftIn(b.virtualHeight, offset - 18, v))
    else if offset == 22 then b.(orientation := v as nat * 90)
    else if offset == 23 then b.(quirks := v)
    else b
  }

  /** The bytes of the four-byte field starting at `start` that are present in `raw`. */
  function Window(raw: seq<byte>, start: nat): (w: seq<byte>)
    ensures |w| <= 4
  {
    raw[Min(start, |raw|)..Min(start + 4, |raw|)]
  }

  /** Little-endian value of the (possibly partial) field at `start`. */
  function Field(raw: seq<byte>, start: nat): (v: nat)
    ensures v < 0x1_0000_0000
  {
    LeSumBound(Window(raw, start));
    assert Pow256(|Window(raw, start)|) <= Pow256(4) by { Pow256Monotone(|Window(raw, start)|, 4); }
    LeSum(Window(raw, start))
  }

  /** Reference decoding of the banner bytes received so far (`raw` starts with
      the version and length bytes): every 32-bit field is the little-endian value
      of its own four bytes, orientation is its byte times 90, quirks is its byte. */
  function BannerSpec(raw: seq<byte>): (b: Banner)
    requires |raw| >= 2
    ensures b.version == raw[0] && b.length == raw[1]
  {
    Banner(
      raw[0], raw[1],
      Field(raw, 2), Field(raw, 6), Field(raw, 10), Field(raw, 14), Field(raw, 18),
      if |raw| > 22 then (raw[22] as nat) * 90 else 0,
      if |raw| > 23 then raw[23] else 0)
  }

  /** Every decoded 32-bit field fits in 32 bits; orientation is any multiple of 90
      up to 255 * 90 (no range check); a field none of whose bytes were received
      keeps its initial 0. */
  lemma BannerSpecBounds(raw: seq<byte>)
    requires |raw| >= 2
    ensures var b := BannerSpec(raw);
      && b.pid < 0x1_0000_0000 && b.realWidth < 0x1_0000_0000 && b.realHeight < 0x1_0000_0000
      && b.virtualWidth < 0x1_0000_0000 && b.virtualHeight < 0x1_0000_0000
      && b.orientation <= 255 * 90 && b.orientation % 90 == 0
      && b.quirks < 256
      && (|raw| <= 2 ==> b.pid == 0)
      && (|raw| <= 6 ==> b.realWidth == 0)
      && (|raw| <= 10 ==> b.realHeight == 0)
      && (|raw| <= 14 ==> b.virtualWidth == 0)
      && (|raw| <= 18 ==> b.virtualHeight == 0)
      && (|raw| <= 22 ==> b.orientation == 0)
      && (|raw| <= 23 ==> b.quirks == 0)
  {
    forall start: nat | |raw| <= start
      ensures Field(raw, start) == 0
    {
      assert Window(raw, start) == [];
    }
  }

  /** Right after the header bytes every field is still 0. */
  lemma BannerSpecHeader(raw: seq<byte>)
    requires |raw| == 2
    ensures BannerSpec(raw) == Fresh(raw[0], raw[1])
  {
    BannerSpecBounds(raw);
  }

  /** One more byte extends at most one field window, by that byte at the next position. */
  lemma FieldSnoc(raw: seq<byte>, v: byte, start: nat)
    ensures Field(raw + [v], start) ==
              if start <= |raw| < start + 4 then Field(raw, start) + v * Pow256(|raw| - start)
              else Field(raw, start)
  {
    var raw' := raw + [v];
    var w, w' := Window(raw, start), Window(raw', start);
    if start <= |raw| < start + 4 {
      assert w == raw[start..] && |w| == |raw| - start;
      assert w' == w + [v];
      LeSumAppend(w, [v]);
      assert [v][1..] == [];
      assert LeSum([v]) == v;
    } else if |raw| < start {
      assert w' == [] && w == [];
    } else {
      assert w' == w;
    }
  }

  /** The dispatch is exactly the reference decoding advanced by one byte: applying
      it at offset |raw| to the decoding of `raw` gives the decoding of `raw + [v]`. */
  lemma BannerSpecSnoc(raw: seq<byte>, v: byte)
    requires |raw| >= 2
    ensures BannerSpec(raw + [v]) == ApplyBannerByte(BannerSpec(raw), |raw|, v)
  {
    FieldSnoc(raw, v, 2);
    FieldSnoc(raw, v, 6);
    FieldSnoc(raw, v, 10);
    FieldSnoc(raw, v, 14);
    FieldSnoc(raw, v, 18);
    var raw' := raw + [v];
    assert raw'[0] == raw[0] && raw'[1] == raw[1];
    assert |raw| > 22 ==> raw'[22] == raw[22];
    assert |raw| > 23 ==> raw'[23] == raw[23];
  }

  /** The record the banner loop has built after receiving `raw`: the header
      record, then the dispatch applied to each later byte at its offset. */
  function Dispatched(raw: seq<byte>): Banner
    requires |raw| >= 2
    decreases |raw|
  {
    if |raw| == 2 then Fresh(raw[0], raw[1])
    else ApplyBannerByte(Dispatched(raw[..|raw| - 1]), |raw| - 1, raw[|raw| - 1])
  }

  /** The byte-by-byte dispatch computes the reference little-endian decoding,
      for every prefix of a banner (complete or truncated). */
  lemma {:induction false} DispatchedIsBannerSpec(raw: seq<byte>)
    requires |raw| >= 2
    ensures Dispatched(raw) == BannerSpec(raw)
    decreases |raw|
  {
    if |raw| == 2 {
      BannerSpecHeader(raw);
    } else {
      var init, v := raw[..|raw| - 1], raw[|raw| - 1];
      DispatchedIsBannerSpec(init);
      assert init + [v] == raw;
      BannerSpecSnoc(init, v);
    }
  }

  /** With the whole fixed layout present, each 32-bit field is b0 + b1*2^8 + b2*2^16 + b3*2^24
      of its bytes at offsets 2-5, 6-9, 10-13, 14-17, 18-21. */
  lemma BannerFieldsLittleEndian(raw: seq<byte>)
    requires |raw| >= 24
    ensures BannerSpec(raw).pid == Le32(raw[2], raw[3], raw[4], raw[5])
    ensures BannerSpec(raw).realWidth == Le32(raw[6], raw[7], raw[8], raw[9])
    ensures BannerSpec(raw).realHeight == Le32(raw[10], raw[11], raw[12], raw[13])
    ensures BannerSpec(raw).virtualWidth == Le32(raw[14], raw[15], raw[16], raw[17])
    ensures BannerSpec(raw).virtualHeight == Le32(raw[18], raw[19], raw[20], raw[21])
    ensures BannerSpec(raw).orientation == raw[22] as nat * 90 && BannerSpec(raw).quirks == raw[23]
  {
    WindowIsLe32(raw, 2);
    WindowIsLe32(raw, 6);
    WindowIsLe32(raw, 10);
    WindowIsLe32(raw, 14);
    WindowIsLe32(raw, 18);
  }

  /** A version-1, 24-byte banner: each 32-bit field reads least-significant byte
      first, the orientation byte 2 is 180 degrees, the quirks byte is kept. */
  lemma BannerExample()
    ensures BannerSpec([0x01, 0x18, 0x0A, 0x0B, 0x0C, 0x0D, 0x0E, 0x0F, 0x10, 0x11,
                        0x12, 0x13, 0x14, 0x15, 0x16, 0x17, 0x18, 0x19, 0x1A, 0x1B,
                        0x1C, 0x1D, 0x02, 0x03])
         == Banner(1, 24, 0x0D0C0B0A, 0x11100F0E, 0x15141312, 0x19181716, 0x1D1C1B1A, 180, 3)
  {
    var raw: seq<byte> := [0x01, 0x18, 0x0A, 0x0B, 0x0C, 0x0D, 0x0E, 0x0F, 0x10, 0x11,
                           0x12, 0x13, 0x14, 0x15, 0x16, 0x17, 0x18, 0x19, 0x1A, 0x1B,
                           0x1C, 0x1D, 0x02, 0x03];
    BannerFieldsLittleEndian(raw);
  }

  lemma WindowIsLe32(raw: seq<byte>, start: nat)
    requires start + 4 <= |raw|
    ensures Field(raw, start) == Le32(raw[start], raw[start + 1], raw[start + 2], raw[start + 3])
  {
    assert Window(raw, start) == raw[start..start + 4];
    LeSumOfFour(raw[start..start + 4]);
  }

  /** The banner read: the version and length bytes, then one recv(1) per
      remaining banner byte through the dispatch. `header` is None when a header
      byte was missing (no record was created); otherwise it holds the record as
      far as it got, which on a truncated banner is only partly filled in. */
  method ReadBannerBytes(sock: Socket) returns (ok: bool, header: Option<Banner>, rest: Socket)
    ensures |sock.data| < 2 <==> header.None?
    ensures |sock.data| < 2 ==> !ok && rest.data == []
    ensures |sock.data| >= 2 ==>
              var got := Min(Max(sock.data[1], 2), |sock.data|);
              && ok == (|sock.data| >= Max(sock.data[1], 2))
              && header == Some(BannerSpec(sock.data[..got]))
              && rest.data == sock.data[got..]
    ensures rest.caps == Spent(sock.caps, BannerReads(sock.data))
  {
    var first := Recv(sock, 1);
    var second := Recv(first.1, 1);
    RecvSpends(sock, 1, sock.caps, 0);
    RecvSpends(first.1, 1, sock.caps, 1);
    if first.0 == [] || second.0 == [] {
      return false, None, second.1;
    }
    HeaderBytes(sock);
    var b;
    ok, b, rest := ReadBannerTail(sock.data, sock.caps, first.0[0], second.0[0], second.1);
    header := Some(b);
  }

  /** How many recv calls the banner read makes on a stream holding `data`: both
      header reads always happen; then one per banner byte up to the declared
      length, plus the empty read that ends a truncated banner. */
  function BannerReads(data: seq<byte>): nat
  {
    if |data| < 2 then 2
    else if |data| >= Max(data[1], 2) then Max(data[1], 2)
    else |data| + 1
  }

  /** The two header reads take the first two bytes of the stream. */
  lemma HeaderBytes(sock: Socket)
    requires Recv(sock, 1).0 != [] && Recv(Recv(sock, 1).1, 1).0 != []
    ensures var second := Recv(Recv(sock, 1).1, 1);
            && |sock.data| >= 2
            && Recv(sock, 1).0 == [sock.data[0]] && second.0 == [sock.data[1]]
            && second.1.data == sock.data[2..]
  {
  }

  /** The loop over the banner bytes after the header, one recv(1) each, with the
      record created from the header bytes. */
  method ReadBannerTail(ghost data: seq<byte>, ghost caps: seq<Cap>, version: byte, bannerLength: byte, sock: Socket)
    returns (ok: bool, b: Banner, rest: Socket)
    requires |data| >= 2 && version == data[0] && bannerLength == data[1] && sock.data == data[2..]
    requires sock.caps == Spent(caps, 2)
    ensures var got := Min(Max(bannerLength, 2), |data|);
            && ok == (|data| >= Max(bannerLength, 2))
            && b == BannerSpec(data[..got])
            && rest.data == data[got..]
    ensures rest.caps == Spent(caps, BannerReads(data))
  {
    b := Fresh(version, bannerLength);
    var readBytes: nat := 2;
    rest := sock;
    assert b == Dispatched(data[..2]);
    while readBytes < bannerLength
      invariant 2 <= readBytes <= Max(bannerLength, 2) && readBytes <= |data|
      invariant rest.data == data[readBytes..]
      invariant b == Dispatched(data[..readBytes])
      invariant rest.caps == Spent(caps, readBytes)
      decreases bannerLength - readBytes
    {
      var next := Recv(rest, 1);
      RecvSpends(rest, 1, caps, readBytes);
      if next.0 == [] {
        TruncatedBanner(data, readBytes, b);
        return false, b, next.1;
      }
      BannerByteStep(data, readBytes, rest, b);
      b := ApplyBannerByte(b, readBytes, next.0[0]);
      readBytes := readBytes + 1;
      rest := next.1;
    }
    CompleteBanner(data, readBytes, b);
    ok := true;
  }

  /** One more banner byte: the recv(1) takes the byte at offset `readBytes`, and
      the dispatch of it extends the record to one more byte. */
  lemma BannerByteStep(data: seq<byte>, readBytes: nat, rest: Socket, b: Banner)
    requires 2 <= readBytes <= |data| && rest.data == data[readBytes..]
    requires b == Dispatched(data[..readBytes]) && Recv(rest, 1).0 != []
    ensures readBytes < |data| && Recv(rest, 1).0 == [data[readBytes]]
    ensures Recv(rest, 1).1.data == data[readBytes + 1..]
    ensures ApplyBannerByte(b, readBytes, data[readBytes]) == Dispatched(data[..readBytes + 1])
  {
    assert data[..readBytes + 1][..readBytes] == data[..readBytes];
  }

  /** A banner read that ran dry after `readBytes` bytes, short of the declared
      length: everything was received, and the record is the reference decoding
      of it. */
  lemma TruncatedBanner(data: seq<byte>, readBytes: nat, b: Banner)
    requires 2 <= readBytes == |data| < data[1]
    requires b == Dispatched(data[..readBytes])
    ensures Min(Max(data[1], 2), |data|) == readBytes && |data| < Max(data[1], 2)
    ensures b == BannerSpec(data[..readBytes]) && data[readBytes..] == []
  {
    DispatchedIsBannerSpec(data[..readBytes]);
  }

  /** A banner read that reached the declared length (at least the two header
      bytes): the record is the reference decoding of exactly those bytes. */
  lemma CompleteBanner(data: seq<byte>, readBytes: nat, b: Banner)
    requires 2 <= readBytes <= |data| && |data| >= 2 && readBytes == Max(data[1], 2)
    requires b == Dispatched(data[..readBytes])
    ensures Min(Max(data[1], 2), |data|) == readBytes && |data| >= Max(data[1], 2)
    ensures b == BannerSpec(data[..readBytes])
  {
    DispatchedIsBannerSpec(data[..readBytes]);
  }

  /** The wire image of a banner in the fixed 24-byte layout: the inverse of the
      reference decoding. */
  function EncodeBanner(b: Banner): (raw: seq<byte>)
    requires Encodable(b)
    ensures |raw| == 24
  {
    [b.version, b.length]
      + LeEncode(b.pid, 4) + LeEncode(b.realWidth, 4) + LeEncode(b.realHeight, 4)
      + LeEncode(b.virtualWidth, 4) + LeEncode(b.virtualHeight, 4)
      + [b.orientation / 90, b.quirks]
  }

  /** A record the 24-byte layout can carry. */
  predicate Encodable(b: Banner)
  {
    && b.pid < 0x1_0000_0000 && b.realWidth < 0x1_0000_0000 && b.realHeight < 0x1_0000_0000
    && b.virtualWidth < 0x1_0000_0000 && b.virtualHeight < 0x1_0000_0000
    && b.orientation % 90 == 0 && b.orientation / 90 < 256 && b.quirks < 256
  }

  /** Decoding then re-encoding a 24-byte banner reproduces its bytes. */
  lemma DecodeEncodeBanner(raw: seq<byte>)
    requires |raw| == 24
    ensures Encodable(BannerSpec(raw)) && EncodeBanner(BannerSpec(raw)) == raw
  {
    var b := BannerSpec(raw);
    forall start | start in {2, 6, 10, 14, 18}
      ensures LeEncode(Field(raw, start), 4) == raw[start..start + 4]
    {
      assert Window(raw, start) == raw[start..start + 4];
      LeEncodeOfSum(raw[start..start + 4]);
    }
    assert raw == [raw[0], raw[1]] + raw[2..6] + raw[6..10] + raw[10..14] + raw[14..18] + raw[18..22] + [raw[22], raw[23]];
  }

  /** Encoding then decoding gives back every record the layout can carry. */
  lemma EncodeDecodeBanner(b: Banner)
    requires Encodable(b)
    ensures BannerSpec(EncodeBanner(b)) == b
  {
    var raw := EncodeBanner(b);
    assert Pow256(4) == 0x1_0000_0000;
    FieldOfEncoding(raw, 2, b.pid);
    FieldOfEncoding(raw, 6, b.realWidth);
    FieldOfEncoding(raw, 10, b.realHeight);
    FieldOfEncoding(raw, 14, b.virtualWidth);
    FieldOfEncoding(raw, 18, b.virtualHeight);
  }

  /** A field whose four bytes are the encoding of v decodes to v. */
  lemma FieldOfEncoding(raw: seq<byte>, start: nat, v: nat)
    requires start + 4 <= |raw| && v < Pow256(4) && raw[start..start + 4] == LeEncode(v, 4)
    ensures Field(raw, start) == v
  {
    assert Window(raw, start) == raw[start..start + 4];
    LeSumOfEncode(v, 4);
  }
}
