/**
 * WebSocket framing of librcom/src/messagelink.c, following sections 5.2
 * and 5.3 of RFC 6455: the frame header (FIN bit, opcode, mask bit,
 * 7-, 16- or 64-bit payload length, masking key), the XOR masking of the
 * payload, the reading side with its 16 MiB limit, and the close code.
 * The socket is replaced by the byte stream it would deliver.
 */
module Frames {
  import opened Common

  const WS_CONTINUATION: byte := 0
  const WS_TEXT: byte := 1
  const WS_BINARY: byte := 2
  const WS_CLOSE: byte := 8
  const WS_PING: byte := 9
  const WS_PONG: byte := 10

  /** The largest payload `messagelink_read_message` accepts. */
  const MAX_MESSAGE: nat := 16777216

  /** The close code reported when the close frame carries none (section
      7.4.1 of RFC 6455: no status code was present). */
  const NO_STATUS: int := 1005

  const UINT64_LIMIT: nat := 0x1_0000_0000_0000_0000

  // --- network byte order ---------------------------------------------

  function Pow256(n: nat): (r: nat)
    ensures r >= 1
  {
    if n == 0 then 1 else 256 * Pow256(n - 1)
  }

  /** The `n` low bytes of `v`, most significant first, as `htons` and
      `htonll` lay a value out on the wire. Higher bytes are cut off, as
      the casts to `uint16_t` do. */
  function BigEndian(n: nat, v: nat): (r: seq<byte>)
    ensures |r| == n
  {
    if n == 0 then [] else BigEndian(n - 1, v / 256) + [(v % 256) as byte]
  }

  /** `ntohs` and `ntohll`: the value of bytes read most significant first. */
  function FromBigEndian(s: seq<byte>): nat {
    if |s| == 0 then 0 else FromBigEndian(s[..|s| - 1]) * 256 + s[|s| - 1] as int
  }

  /** An int below 256 survives the trip through a byte. */
  lemma ByteOfInt(x: int)
    requires 0 <= x < 256
    ensures (x as byte) as int == x
  {
    var w: bv16 := x as bv16;
    assert w < 256;
    assert (w as byte) as bv16 == w;
  }

  /** The bit tests of `messagelink_read_frame` in terms of the byte's value. */
  lemma ByteBits(b: byte)
    ensures (b & 0x7f) as int == b as int % 128
    ensures (b & 0x80 == 0x80) <==> b as int >= 128
  {
  }

  /** The value of `n` bytes is below 256^n. */
  lemma {:induction false} FromBigEndianBound(s: seq<byte>)
    ensures FromBigEndian(s) < Pow256(|s|)
  {
    if |s| > 0 {
      FromBigEndianBound(s[..|s| - 1]);
      assert s[|s| - 1] as int < 256;
    }
  }

  lemma DivBound(v: nat, p: nat)
    requires v < 256 * p
    ensures v / 256 < p
  {
  }

  /** A value that fits in `n` bytes survives the round trip through them. */
  lemma {:induction false} BigEndianRoundTrip(n: nat, v: nat)
    requires v < Pow256(n)
    ensures FromBigEndian(BigEndian(n, v)) == v
  {
    if n > 0 {
      var s := BigEndian(n, v);
      assert s[..n - 1] == BigEndian(n - 1, v / 256);
      DivBound(v, Pow256(n - 1));
      BigEndianRoundTrip(n - 1, v / 256);
      ByteOfInt(v % 256);
    }
  }

  /** Only the low `n` bytes are kept: 65536 in two bytes reads back as 0. */
  lemma BigEndianOf65536()
    ensures BigEndian(2, 65536) == [0, 0]
    ensures FromBigEndian(BigEndian(2, 65536)) == 0
  {
    assert BigEndian(1, 256) == BigEndian(0, 1) + [0];
  }

  lemma Pow256Values()
    ensures Pow256(2) == 65536
    ensures Pow256(8) == UINT64_LIMIT
  {
    assert Pow256(1) == 256;
    assert Pow256(4) == 0x1_0000_0000;
  }

  // --- masking ----------------------------------------------------------

  /** Section 5.3 of RFC 6455: byte `i` of the payload is XORed with byte
      `i mod 4` of the masking key. */
  function Masked(data: seq<byte>, mask: seq<byte>): (r: seq<byte>)
    requires |mask| == 4
    ensures |r| == |data|
  {
    seq(|data|, i requires 0 <= i < |data| => data[i] ^ mask[i % 4])
  }

  /** Masking is its own inverse, so the reader recovers the payload. */
  lemma MaskTwice(data: seq<byte>, mask: seq<byte>)
    requires |mask| == 4
    ensures Masked(Masked(data, mask), mask) == data
  {
    var m := Masked(data, mask);
    forall i | 0 <= i < |data|
      ensures Masked(m, mask)[i] == data[i]
    {
      assert m[i] == data[i] ^ mask[i % 4];
    }
  }

  /** The all-zero key that an unmasked frame is read with changes nothing. */
  lemma ZeroMask(data: seq<byte>)
    ensures Masked(data, [0, 0, 0, 0]) == data
  {
    var m := Masked(data, [0, 0, 0, 0]);
    forall i | 0 <= i < |data|
      ensures m[i] == data[i]
    {
    }
  }

  lemma MaskedSnoc(data: seq<byte>, mask: seq<byte>, k: nat)
    requires |mask| == 4 && k < |data|
    ensures Masked(data[..k + 1], mask) == Masked(data[..k], mask) + [data[k] ^ mask[k % 4]]
  {
    var a := Masked(data[..k + 1], mask);
    var b := Masked(data[..k], mask) + [data[k] ^ mask[k % 4]];
    forall i | 0 <= i <= k
      ensures a[i] == b[i]
    {
      if i < k {
        assert a[i] == data[i] ^ mask[i % 4];
        assert b[i] == Masked(data[..k], mask)[i];
      }
    }
  }

  // --- headers ----------------------------------------------------------

  /** The second header byte for a payload below 126 bytes. */
  function ShortLength(masked: bool, length: nat): byte
    requires length < 126
  {
    if masked then 0x80 | length as byte else length as byte
  }

  /** The header `frame_make_header` writes, as written: the 16-bit form
      is used up to and including a length of 65536. */
  function HeaderAsWritten(opcode: byte, masked: bool, mask: seq<byte>, length: nat): seq<byte>
    requires |mask| == 4
  {
    [0x80 | opcode] + LengthFieldAsWritten(masked, length) + (if masked then mask else [])
  }

  /** The mask bit and payload length as `frame_make_header` writes them. */
  function LengthFieldAsWritten(masked: bool, length: nat): seq<byte> {
    if length < 126 then [ShortLength(masked, length)]
    else if length <= 65536 then [if masked then 254 else 126] + BigEndian(2, length)
    else [if masked then 255 else 127] + BigEndian(8, length)
  }

  /** The number of bytes `frame_make_header` returns. */
  function HeaderSizeAsWritten(masked: bool, length: nat): nat {
    (if length < 126 then 2 else if length <= 65536 then 4 else 10) + (if masked then 4 else 0)
  }

  /** The header of section 5.2 of RFC 6455: the 16-bit form for
      lengths up to 65535, the 64-bit form above. */
  function Header(opcode: byte, masked: bool, mask: seq<byte>, length: nat): seq<byte>
    requires |mask| == 4
  {
    [0x80 | opcode] + LengthField(masked, length) + (if masked then mask else [])
  }

  /** The mask bit and payload length, in 1, 3 or 9 bytes. */
  function LengthField(masked: bool, length: nat): seq<byte> {
    if length < 126 then [ShortLength(masked, length)]
    else if length < 65536 then [if masked then 254 else 126] + BigEndian(2, length)
    else [if masked then 255 else 127] + BigEndian(8, length)
  }

  /** The number of header bytes for a payload length. */
  function HeaderSize(masked: bool, length: nat): nat {
    (if length < 126 then 2 else if length < 65536 then 4 else 10) + (if masked then 4 else 0)
  }

  /** The header as written is 2, 4 or 10 bytes plus 4 for the key, the
      16-bit form reaching up to 65536; the first byte has FIN set and
      carries the opcode, and the second has the mask bit set exactly when
      the frame is masked. */
  lemma HeaderShape(opcode: byte, masked: bool, mask: seq<byte>, length: nat)
    requires |mask| == 4
    ensures |HeaderAsWritten(opcode, masked, mask, length)| == HeaderSizeAsWritten(masked, length)
    ensures HeaderAsWritten(opcode, masked, mask, length)[0] == 0x80 | opcode
    ensures (HeaderAsWritten(opcode, masked, mask, length)[1] & 0x80 == 0x80) <==> masked
    ensures masked ==> HeaderAsWritten(opcode, masked, mask, length)[HeaderSizeAsWritten(false, length)..] == mask
  {
  }

  /** The same for the header of section 5.2 of RFC 6455. */
  lemma CorrectedHeaderShape(opcode: byte, masked: bool, mask: seq<byte>, length: nat)
    requires |mask| == 4
    ensures |Header(opcode, masked, mask, length)| == HeaderSize(masked, length)
    ensures Header(opcode, masked, mask, length)[0] == 0x80 | opcode
    ensures (Header(opcode, masked, mask, length)[1] & 0x80 == 0x80) <==> masked
  {
  }

  /** The two headers differ only at a length of exactly 65536. */
  lemma HeaderAsWrittenAgrees(opcode: byte, masked: bool, mask: seq<byte>, length: nat)
    requires |mask| == 4 && length != 65536
    ensures HeaderAsWritten(opcode, masked, mask, length) == Header(opcode, masked, mask, length)
    ensures HeaderSizeAsWritten(masked, length) == HeaderSize(masked, length)
  {
  }

  /** The header as read by `messagelink_read_frame` and the length and
      key reads of `messagelink_read_message`; `size` is the number of
      bytes read. An unmasked frame is read with the all-zero key. */
  datatype FrameHeader = FrameHeader(fin: bool, opcode: byte, masked: bool, length: nat,
                                     mask: seq<byte>, size: nat)

  /** Reads a frame header from the front of a stream; None when the
      stream ends before the header does (a failed socket read). */
  function DecodeHeader(b: seq<byte>): (r: Option<FrameHeader>)
    ensures r.Some? ==> r.value.size <= |b| && |r.value.mask| == 4
  {
    if |b| < 2 then None
    else
      var masked := b[1] & 0x80 == 0x80;
      var len7 := (b[1] & 0x7f) as int;
      var ext := if len7 < 126 then 0 else if len7 == 126 then 2 else 8;
      var size := 2 + ext + (if masked then 4 else 0);
      if |b| < size then None
      else
        var length := if ext == 0 then len7 else FromBigEndian(b[2..2 + ext]);
        var mask := if masked then b[2 + ext..size] else [0, 0, 0, 0];
        Some(FrameHeader(b[0] & 0x80 == 0x80, b[0] & 0x0f, masked, length, mask, size))
  }

  /** At length 65536 the header as written announces an empty payload. */
  lemma HeaderAsWrittenLosesLength(opcode: byte, mask: seq<byte>)
    requires |mask| == 4
    ensures DecodeHeader(HeaderAsWritten(opcode, false, mask, 65536)).Some?
    ensures DecodeHeader(HeaderAsWritten(opcode, false, mask, 65536)).value.length == 0
  {
    BigEndianOf65536();
    var h := HeaderAsWritten(opcode, false, mask, 65536);
    assert h == [0x80 | opcode, 126, 0, 0];
    assert h[2..4] == [0, 0];
    assert FromBigEndian([0, 0]) == 0 by {
      assert [0, 0][..1] == [0 as byte];
    }
  }

  lemma ShortLengthDecodes(masked: bool, length: nat)
    requires length < 126
    ensures (ShortLength(masked, length) & 0x80 == 0x80) <==> masked
    ensures (ShortLength(masked, length) & 0x7f) as int == length
  {
    ByteOfInt(length);
    var b := length as byte;
    assert b & 0x80 == 0 by { ByteBits(b); }
    assert (b & 0x7f) == b by { ByteBits(b); ByteOfInt(length % 128); }
  }

  /** The first header byte gives back FIN and the opcode. */
  lemma FirstByteDecodes(opcode: byte)
    requires opcode < 16
    ensures (0x80 | opcode) & 0x80 == 0x80
    ensures (0x80 | opcode) & 0x0f == opcode
  {
  }

  /** The second byte of the 16- and 64-bit forms. */
  lemma LengthMarkerDecodes(masked: bool)
    ensures ((if masked then 254 else 126) as byte & 0x80 == 0x80) <==> masked
    ensures ((if masked then 254 else 126) as byte & 0x7f) as int == 126
    ensures ((if masked then 255 else 127) as byte & 0x80 == 0x80) <==> masked
    ensures ((if masked then 255 else 127) as byte & 0x7f) as int == 127
  {
  }

  /** `DecodeHeader` once the fields of the first two bytes are known. */
  lemma DecodeHeaderIs(b: seq<byte>, masked: bool, len7: int, ext: nat)
    requires |b| >= 2 && (b[1] & 0x80 == 0x80) == masked && (b[1] & 0x7f) as int == len7
    requires ext == if len7 < 126 then 0 else if len7 == 126 then 2 else 8
    requires |b| >= 2 + ext + (if masked then 4 else 0)
    ensures DecodeHeader(b) == Some(FrameHeader(b[0] & 0x80 == 0x80, b[0] & 0x0f, masked,
      if ext == 0 then len7 else FromBigEndian(b[2..2 + ext]),
      if masked then b[2 + ext..2 + ext + 4] else [0, 0, 0, 0], 2 + ext + (if masked then 4 else 0)))
  {
  }

  /** A header written by `Header` reads back as the opcode, the mask
      flag, the length and the key it was written with. */
  lemma DecodeHeaderOfHeader(opcode: byte, masked: bool, mask: seq<byte>, length: nat, rest: seq<byte>)
    requires opcode < 16 && |mask| == 4 && length < UINT64_LIMIT
    ensures DecodeHeader(Header(opcode, masked, mask, length) + rest)
      == Some(FrameHeader(true, opcode, masked, length, if masked then mask else [0, 0, 0, 0],
                          HeaderSize(masked, length)))
  {
    FirstByteDecodes(opcode);
    if length < 126 {
      DecodeShortHeader(opcode, masked, mask, length, rest);
    } else if length < 65536 {
      DecodeExtendedHeader(opcode, masked, mask, length, rest, 2);
    } else {
      DecodeExtendedHeader(opcode, masked, mask, length, rest, 8);
    }
  }

  lemma DecodeShortHeader(opcode: byte, masked: bool, mask: seq<byte>, length: nat, rest: seq<byte>)
    requires opcode < 16 && |mask| == 4 && length < 126
    requires (0x80 | opcode) & 0x80 == 0x80 && (0x80 | opcode) & 0x0f == opcode
    ensures DecodeHeader(Header(opcode, masked, mask, length) + rest)
      == Some(FrameHeader(true, opcode, masked, length, if masked then mask else [0, 0, 0, 0],
                          HeaderSize(masked, length)))
  {
    var b := Header(opcode, masked, mask, length) + rest;
    var k := if masked then mask else [];
    ShortLengthDecodes(masked, length);
    assert b == [0x80 | opcode, ShortLength(masked, length)] + k + rest;
    assert masked ==> b[2..6] == k;
    DecodeHeaderIs(b, masked, length, 0);
  }

  /** The 16-bit (`w` = 2) and 64-bit (`w` = 8) length forms. */
  lemma DecodeExtendedHeader(opcode: byte, masked: bool, mask: seq<byte>, length: nat, rest: seq<byte>,
                             w: nat)
    requires opcode < 16 && |mask| == 4 && 126 <= length < UINT64_LIMIT
    requires w == if length < 65536 then 2 else 8
    requires (0x80 | opcode) & 0x80 == 0x80 && (0x80 | opcode) & 0x0f == opcode
    ensures DecodeHeader(Header(opcode, masked, mask, length) + rest)
      == Some(FrameHeader(true, opcode, masked, length, if masked then mask else [0, 0, 0, 0],
                          HeaderSize(masked, length)))
  {
    var k := if masked then mask else [];
    var marker: byte := if w == 2 then (if masked then 254 else 126) else (if masked then 255 else 127);
    var be := BigEndian(w, length);
    assert Header(opcode, masked, mask, length) + rest == [0x80 | opcode, marker] + be + k + rest;
    LengthMarkerDecodes(masked);
    Pow256Values();
    BigEndianRoundTrip(w, length);
    DecodeLongForm(0x80 | opcode, marker, be, mask, masked, rest);
  }

  /** `DecodeHeader` on a 16- or 64-bit length form. */
  lemma DecodeLongForm(b0: byte, marker: byte, be: seq<byte>, mask: seq<byte>, masked: bool,
                       rest: seq<byte>)
    requires |mask| == 4 && (|be| == 2 || |be| == 8)
    requires (marker & 0x80 == 0x80) == masked
    requires (marker & 0x7f) as int == if |be| == 2 then 126 else 127
    ensures DecodeHeader([b0, marker] + be + (if masked then mask else []) + rest)
      == Some(FrameHeader(b0 & 0x80 == 0x80, b0 & 0x0f, masked, FromBigEndian(be),
                          if masked then mask else [0, 0, 0, 0], 2 + |be| + (if masked then 4 else 0)))
  {
    if masked {
      DecodeLongMasked(b0, marker, be, mask, rest);
    } else {
      DecodeLongUnmasked(b0, marker, be, rest);
      assert [b0, marker] + be + [] + rest == [b0, marker] + be + rest;
    }
  }

  lemma DecodeLongMasked(b0: byte, marker: byte, be: seq<byte>, mask: seq<byte>, rest: seq<byte>)
    requires |mask| == 4 && (|be| == 2 || |be| == 8)
    requires marker & 0x80 == 0x80
    requires (marker & 0x7f) as int == if |be| == 2 then 126 else 127
    ensures DecodeHeader([b0, marker] + be + mask + rest)
      == Some(FrameHeader(b0 & 0x80 == 0x80, b0 & 0x0f, true, FromBigEndian(be), mask, 6 + |be|))
  {
    var b := [b0, marker] + be + mask + rest;
    SecondOfFour([b0, marker], be, mask, rest);
    Middle([b0, marker] + be, mask, rest);
    assert b[0] == b0 && b[1] == marker;
    DecodeHeaderIs(b, true, if |be| == 2 then 126 else 127, |be|);
  }

  lemma DecodeLongUnmasked(b0: byte, marker: byte, be: seq<byte>, rest: seq<byte>)
    requires |be| == 2 || |be| == 8
    requires marker & 0x80 != 0x80
    requires (marker & 0x7f) as int == if |be| == 2 then 126 else 127
    ensures DecodeHeader([b0, marker] + be + rest)
      == Some(FrameHeader(b0 & 0x80 == 0x80, b0 & 0x0f, false, FromBigEndian(be), [0, 0, 0, 0], 2 + |be|))
  {
    var b := [b0, marker] + be + rest;
    Middle([b0, marker], be, rest);
    assert b[0] == b0 && b[1] == marker;
    DecodeHeaderIs(b, false, if |be| == 2 then 126 else 127, |be|);
  }

  lemma Regroup(a: seq<byte>, b: seq<byte>, c: seq<byte>)
    ensures a + b + c == a + (b + c)
  {
  }

  /** The second part of a sequence made of four parts. */
  lemma SecondOfFour(p: seq<byte>, m: seq<byte>, k: seq<byte>, t: seq<byte>)
    ensures (p + m + k + t)[|p|..|p| + |m|] == m
  {
    var s := p + m + k + t;
    forall i | 0 <= i < |m|
      ensures s[|p|..|p| + |m|][i] == m[i]
    {
      assert s[|p| + i] == m[i];
    }
  }

  /** The middle part of a sequence made of three parts. */
  lemma Middle(p: seq<byte>, m: seq<byte>, t: seq<byte>)
    ensures (p + m + t)[|p|..|p| + |m|] == m
  {
    var s := p + m + t;
    forall i | 0 <= i < |m|
      ensures s[|p|..|p| + |m|][i] == m[i]
    {
      assert s[|p| + i] == m[i];
    }
  }

  // --- frames -----------------------------------------------------------

  /** What `frame_append_payload` adds: the payload, masked when the
      frame is masked. */
  function Payload(masked: bool, mask: seq<byte>, data: seq<byte>): seq<byte>
    requires |mask| == 4
  {
    if masked then Masked(data, mask) else data
  }

  /** `frame_make`: header as written and payload, with the key drawn by
      the caller. */
  function Frame(opcode: byte, masked: bool, mask: seq<byte>, data: seq<byte>): seq<byte>
    requires |mask| == 4
  {
    HeaderAsWritten(opcode, masked, mask, |data|) + Payload(masked, mask, data)
  }

  /** The outcome of `messagelink_read_message`: the header and the
      payload, or -1 when the stream ends early and -2 when the announced
      length exceeds 16 MiB. */
  datatype ReadResult = Received(header: FrameHeader, payload: seq<byte>) | ReadFailed(code: int)

  /** `messagelink_read_message` on the bytes the socket delivers: a
      server unmasks the payload with the key it read (zero for an
      unmasked frame), a client does not. */
  function ReadMessage(stream: seq<byte>, isClient: bool): (r: ReadResult)
    ensures r.ReadFailed? ==> r.code == -1 || r.code == -2
    ensures r.ReadFailed? && r.code == -2
      <==> DecodeHeader(stream).Some? && DecodeHeader(stream).value.length > MAX_MESSAGE
    ensures r.Received? ==> |r.payload| == r.header.length <= MAX_MESSAGE
    ensures r.Received? ==> r.header.size + r.header.length <= |stream|
  {
    match DecodeHeader(stream)
    case None => ReadFailed(-1)
    case Some(h) =>
      if h.length > MAX_MESSAGE then ReadFailed(-2)
      else if |stream| - h.size < h.length then ReadFailed(-1)
      else
        var raw := stream[h.size..h.size + h.length];
        Received(h, if isClient then raw else Masked(raw, h.mask))
  }

  /** A frame made by `Frame` and read by the other end gives back its
      opcode and payload, for every payload length but 65536; a client
      sends masked frames to the server and the server sends unmasked
      frames to the client. */
  lemma FrameRoundTrip(opcode: byte, masked: bool, mask: seq<byte>, data: seq<byte>,
                       rest: seq<byte>, isClient: bool)
    requires opcode < 16 && |mask| == 4 && |data| <= MAX_MESSAGE && |data| != 65536
    requires !(isClient && masked)
    ensures ReadMessage(Frame(opcode, masked, mask, data) + rest, isClient).Received?
    ensures ReadMessage(Frame(opcode, masked, mask, data) + rest, isClient).header.opcode == opcode
    ensures ReadMessage(Frame(opcode, masked, mask, data) + rest, isClient).payload == data
  {
    var h := Header(opcode, masked, mask, |data|);
    var p := Payload(masked, mask, data);
    var k := if masked then mask else [0, 0, 0, 0];
    Regroup(h, p, rest);
    HeaderAsWrittenAgrees(opcode, masked, mask, |data|);
    DecodeHeaderOfHeader(opcode, masked, mask, |data|, p + rest);
    CorrectedHeaderShape(opcode, masked, mask, |data|);
    ReadAfterHeader(h, p, rest, FrameHeader(true, opcode, masked, |data|, k, |h|), isClient);
    if masked {
      MaskTwice(data, mask);
    } else if !isClient {
      ZeroMask(data);
    }
  }

  /** A stream that starts with a decoded header of `|h|` bytes, followed
      by a payload of the announced length, is read as that payload. */
  lemma ReadAfterHeader(h: seq<byte>, p: seq<byte>, rest: seq<byte>, fh: FrameHeader, isClient: bool)
    requires DecodeHeader(h + p + rest) == Some(fh)
    requires fh.size == |h| && fh.length == |p| <= MAX_MESSAGE
    ensures ReadMessage(h + p + rest, isClient)
      == Received(fh, if isClient then p else Masked(p, fh.mask))
  {
    Middle(h, p, rest);
  }

  /** A frame longer than 16 MiB is refused with -2 before its payload is
      read. */
  lemma LongFrameRefused(opcode: byte, masked: bool, mask: seq<byte>, length: nat, rest: seq<byte>,
                         isClient: bool)
    requires opcode < 16 && |mask| == 4 && MAX_MESSAGE < length < UINT64_LIMIT
    ensures ReadMessage(HeaderAsWritten(opcode, masked, mask, length) + rest, isClient) == ReadFailed(-2)
  {
    HeaderAsWrittenAgrees(opcode, masked, mask, length);
    DecodeHeaderOfHeader(opcode, masked, mask, length, rest);
  }

  /** An unmasked frame of exactly 65536 bytes, as written, reads back
      as an empty payload: the reader takes the header's zero length. */
  lemma FrameOf65536ReadsEmpty(opcode: byte, mask: seq<byte>, data: seq<byte>, rest: seq<byte>,
                               isClient: bool)
    requires |mask| == 4 && |data| == 65536
    ensures ReadMessage(Frame(opcode, false, mask, data) + rest, isClient).Received?
    ensures ReadMessage(Frame(opcode, false, mask, data) + rest, isClient).payload == []
  {
    BigEndianOf65536();
    var s := Frame(opcode, false, mask, data) + rest;
    assert s == [0x80 | opcode, 126, 0, 0] + data + rest;
    LengthMarkerDecodes(false);
    assert s[2..4] == [0, 0];
    assert FromBigEndian([0, 0]) == 0 by {
      assert [0, 0][..1] == [0 as byte];
    }
    DecodeHeaderIs(s, false, 126, 2);
  }

  /** `frame_make_header` into the 14-byte `frame` array, returning the
      number of bytes written; the rest of the array is left as it was.
      The length bytes and the key are each written as one block. */
  method MakeHeader(frame: array<byte>, opcode: byte, masked: bool, mask: seq<byte>, length: nat)
    returns (n: nat)
    requires frame.Length == 14 && |mask| == 4
    modifies frame
    ensures n == HeaderSizeAsWritten(masked, length)
    ensures frame[..] == HeaderAsWritten(opcode, masked, mask, length) + old(frame[n..])
  {
    ghost var o := frame[..];
    var field := LengthFieldAsWritten(masked, length);
    ghost var h1 := [0x80 | opcode] + field;
    HeaderShape(opcode, masked, mask, length);
    TwoBlocks(o, h1, mask);
    CopyInto(frame, 0, [0x80 | opcode] + field);
    n := 1 + |field|;
    if masked {
      CopyInto(frame, n, mask);
      n := n + 4;
      assert HeaderAsWritten(opcode, masked, mask, length) == h1 + mask;
    } else {
      assert HeaderAsWritten(opcode, masked, mask, length) == h1;
    }
  }

  /** The array after the header bytes and then the key are copied in. */
  lemma TwoBlocks(o: seq<byte>, h: seq<byte>, mask: seq<byte>)
    requires |h| + |mask| <= |o|
    ensures Overwrite(o, 0, h) == h + o[|h|..]
    ensures Overwrite(Overwrite(o, 0, h), |h|, mask) == h + mask + o[|h| + |mask|..]
  {
    assert o[..0] == [];
    var mid := h + o[|h|..];
    assert mid[..|h|] == h;
    assert mid[|h| + |mask|..] == o[|h| + |mask|..];
  }

  /** `frame_append_payload`: a masked payload is XORed into a 1024-byte
      scratch buffer chunk by chunk, carrying the key position across
      chunks; an unmasked one is appended as it is. */
  method AppendPayload(buf: seq<byte>, masked: bool, mask: seq<byte>, data: seq<byte>)
    returns (out: seq<byte>)
    requires |mask| == 4
    ensures out == buf + Payload(masked, mask, data)
  {
    if !masked {
      return buf + data;
    }
    out := buf;
    var j := 0;
    var sent := 0;
    while sent < |data|
      invariant 0 <= sent <= |data|
      invariant j == sent % 4
      invariant out == buf + Masked(data[..sent], mask)
    {
      var n := |data| - sent;
      if n > 1024 {
        n := 1024;
      }
      var chunk: seq<byte> := [];
      var i := 0;
      while i < n
        invariant 0 <= i <= n
        invariant j == (sent + i) % 4
        invariant out + chunk == buf + Masked(data[..sent + i], mask)
      {
        MaskStep(buf, data, mask, out, chunk, sent + i, j);
        chunk := chunk + [data[sent + i] ^ mask[j]];
        j := j + 1;
        if j == 4 {
          j := 0;
        }
        i := i + 1;
      }
      out := out + chunk;
      sent := sent + n;
    }
    assert data[..sent] == data;
  }

  /** One byte of the inner loop of `frame_append_payload`. */
  lemma MaskStep(buf: seq<byte>, data: seq<byte>, mask: seq<byte>, out: seq<byte>, chunk: seq<byte>,
                 k: nat, j: nat)
    requires |mask| == 4 && k < |data| && j == k % 4
    requires out + chunk == buf + Masked(data[..k], mask)
    ensures out + (chunk + [data[k] ^ mask[j]]) == buf + Masked(data[..k + 1], mask)
  {
    MaskedSnoc(data, mask, k);
    assert out + (chunk + [data[k] ^ mask[j]]) == (out + chunk) + [data[k] ^ mask[j]];
  }

  /** `frame_make`: the header followed by the payload. */
  method MakeFrame(buf: seq<byte>, opcode: byte, masked: bool, mask: seq<byte>, data: seq<byte>)
    returns (out: seq<byte>)
    requires |mask| == 4
    ensures out == buf + Frame(opcode, masked, mask, data)
  {
    var frame := new byte[14];
    var n := MakeHeader(frame, opcode, masked, mask, |data|);
    out := AppendPayload(buf + frame[..n], masked, mask, data);
  }

  // --- closing ----------------------------------------------------------

  /** The payload `messagelink_send_close` sends: the code cut to 16 bits,
      in network order. */
  function CloseData(code: int): seq<byte> {
    BigEndian(2, code % 65536)
  }

  /** `remote_messagelink_close_code`: the first two payload bytes in
      network order, or 1005 when there are fewer than two. */
  function CloseCode(payload: seq<byte>): (code: int)
    ensures 0 <= code < 65536
  {
    if |payload| >= 2 then
      assert FromBigEndian(payload[..2]) < 65536 by {
        FromBigEndianBound(payload[..2]);
        Pow256Values();
      }
      FromBigEndian(payload[..2])
    else NO_STATUS
  }

  /** The code sent by one end is the code the other end reports, anything
      after it being ignored; a close frame without a code reports 1005. */
  lemma CloseRoundTrip(code: int, rest: seq<byte>)
    ensures CloseCode(CloseData(code) + rest) == code % 65536
    ensures CloseCode([]) == NO_STATUS
  {
    Pow256Values();
    BigEndianRoundTrip(2, code % 65536);
    assert (CloseData(code) + rest)[..2] == CloseData(code);
  }
}
