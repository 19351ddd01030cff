/** The UDP datagram container of librcom/src/data.c: a length and a packed
    packet of a 4-byte sequence number, an 8-byte timestamp and up to 1420
    bytes of payload. */
module Packets {
  import opened Common

  const DATA_MAXLEN: int := 1420
  const PACKET_HEADER: int := 12
  const PACKET_MAXLEN: int := 1432

  /** The 8 timestamp bytes read as a big-endian `uint64_t`. */
  function Uint64Of(p: seq<byte>): bv64
    requires |p| == 8
  {
    (p[0] as bv64 << 56) | (p[1] as bv64 << 48) | (p[2] as bv64 << 40) | (p[3] as bv64 << 32)
    | (p[4] as bv64 << 24) | (p[5] as bv64 << 16) | (p[6] as bv64 << 8) | p[7] as bv64
  }

  /** The bytes `data_set_timestamp` stores, most significant first. */
  function BytesOf64(t: bv64): (p: seq<byte>)
    ensures |p| == 8
  {
    [((t & 0xff00000000000000) >> 56) as bv8, ((t & 0x00ff000000000000) >> 48) as bv8,
     ((t & 0x0000ff0000000000) >> 40) as bv8, ((t & 0x000000ff00000000) >> 32) as bv8,
     ((t & 0x00000000ff000000) >> 24) as bv8, ((t & 0x0000000000ff0000) >> 16) as bv8,
     ((t & 0x000000000000ff00) >> 8) as bv8, (t & 0x00000000000000ff) as bv8]
  }

  /** The 4 sequence-number bytes read as a big-endian `uint32_t`. */
  function Uint32Of(p: seq<byte>): bv32
    requires |p| == 4
  {
    (p[0] as bv32 << 24) | (p[1] as bv32 << 16) | (p[2] as bv32 << 8) | p[3] as bv32
  }

  function BytesOf32(n: bv32): (p: seq<byte>)
    ensures |p| == 4
  {
    [((n & 0xff000000) >> 24) as bv8, ((n & 0x00ff0000) >> 16) as bv8,
     ((n & 0x0000ff00) >> 8) as bv8, (n & 0x000000ff) as bv8]
  }

  /** Storing a timestamp and reading it back gives the same value, and
      reading the bytes and storing the value gives the same bytes. */
  lemma TimestampRoundTrip(t: bv64, p: seq<byte>)
    requires |p| == 8
    ensures Uint64Of(BytesOf64(t)) == t
    ensures BytesOf64(Uint64Of(p)) == p
  {
    ValueOfBytes64(t);
    BytesOfValue64(p);
  }

  lemma ValueOfBytes64(t: bv64)
    ensures Uint64Of(BytesOf64(t)) == t
  {
    var q := BytesOf64(t);
    assert q[0] as bv64 << 56 == t & 0xff00000000000000;
    assert q[1] as bv64 << 48 == t & 0x00ff000000000000;
    assert q[2] as bv64 << 40 == t & 0x0000ff0000000000;
    assert q[3] as bv64 << 32 == t & 0x000000ff00000000;
    assert q[4] as bv64 << 24 == t & 0x00000000ff000000;
    assert q[5] as bv64 << 16 == t & 0x0000000000ff0000;
    assert q[6] as bv64 << 8 == t & 0x000000000000ff00;
    assert q[7] as bv64 == t & 0x00000000000000ff;
  }

  lemma BytesOfValue64(p: seq<byte>)
    requires |p| == 8
    ensures BytesOf64(Uint64Of(p)) == p
  {
    var b0, b1, b2, b3, b4, b5, b6, b7 := p[0], p[1], p[2], p[3], p[4], p[5], p[6], p[7];
    assert p == [b0, b1, b2, b3, b4, b5, b6, b7];
    var v := Join64(b0, b1, b2, b3, b4, b5, b6, b7);
    assert v == Uint64Of(p);
    ByteOfJoin56(b0, b1, b2, b3, b4, b5, b6, b7);
    ByteOfJoin48(b0, b1, b2, b3, b4, b5, b6, b7);
    ByteOfJoin40(b0, b1, b2, b3, b4, b5, b6, b7);
    ByteOfJoin32(b0, b1, b2, b3, b4, b5, b6, b7);
    ByteOfJoin24(b0, b1, b2, b3, b4, b5, b6, b7);
    ByteOfJoin16(b0, b1, b2, b3, b4, b5, b6, b7);
    ByteOfJoin8(b0, b1, b2, b3, b4, b5, b6, b7);
    ByteOfJoin0(b0, b1, b2, b3, b4, b5, b6, b7);
    var q := BytesOf64(v);
    assert q == [b0, b1, b2, b3, b4, b5, b6, b7];
  }

  /** `Uint64Of` of eight separate bytes. */
  function Join64(b0: bv8, b1: bv8, b2: bv8, b3: bv8, b4: bv8, b5: bv8, b6: bv8, b7: bv8): (v: bv64)
    ensures v == Uint64Of([b0, b1, b2, b3, b4, b5, b6, b7])
  {
    (b0 as bv64 << 56) | (b1 as bv64 << 48) | (b2 as bv64 << 40) | (b3 as bv64 << 32)
    | (b4 as bv64 << 24) | (b5 as bv64 << 16) | (b6 as bv64 << 8) | b7 as bv64
  }

  lemma ByteOfJoin56(b0: bv8, b1: bv8, b2: bv8, b3: bv8, b4: bv8, b5: bv8, b6: bv8, b7: bv8)
    ensures ((Join64(b0, b1, b2, b3, b4, b5, b6, b7) & 0xff00000000000000) >> 56) as bv8 == b0
  {
  }

  lemma ByteOfJoin48(b0: bv8, b1: bv8, b2: bv8, b3: bv8, b4: bv8, b5: bv8, b6: bv8, b7: bv8)
    ensures ((Join64(b0, b1, b2, b3, b4, b5, b6, b7) & 0x00ff000000000000) >> 48) as bv8 == b1
  {
  }

  lemma ByteOfJoin40(b0: bv8, b1: bv8, b2: bv8, b3: bv8, b4: bv8, b5: bv8, b6: bv8, b7: bv8)
    ensures ((Join64(b0, b1, b2, b3, b4, b5, b6, b7) & 0x0000ff0000000000) >> 40) as bv8 == b2
  {
  }

  lemma ByteOfJoin32(b0: bv8, b1: bv8, b2: bv8, b3: bv8, b4: bv8, b5: bv8, b6: bv8, b7: bv8)
    ensures ((Join64(b0, b1, b2, b3, b4, b5, b6, b7) & 0x000000ff00000000) >> 32) as bv8 == b3
  {
  }

  lemma ByteOfJoin24(b0: bv8, b1: bv8, b2: bv8, b3: bv8, b4: bv8, b5: bv8, b6: bv8, b7: bv8)
    ensures ((Join64(b0, b1, b2, b3, b4, b5, b6, b7) & 0x00000000ff000000) >> 24) as bv8 == b4
  {
  }

  lemma ByteOfJoin16(b0: bv8, b1: bv8, b2: bv8, b3: bv8, b4: bv8, b5: bv8, b6: bv8, b7: bv8)
    ensures ((Join64(b0, b1, b2, b3, b4, b5, b6, b7) & 0x0000000000ff0000) >> 16) as bv8 == b5
  {
  }

  lemma ByteOfJoin8(b0: bv8, b1: bv8, b2: bv8, b3: bv8, b4: bv8, b5: bv8, b6: bv8, b7: bv8)
    ensures ((Join64(b0, b1, b2, b3, b4, b5, b6, b7) & 0x000000000000ff00) >> 8) as bv8 == b6
  {
  }

  lemma ByteOfJoin0(b0: bv8, b1: bv8, b2: bv8, b3: bv8, b4: bv8, b5: bv8, b6: bv8, b7: bv8)
    ensures ((Join64(b0, b1, b2, b3, b4, b5, b6, b7) & 0x00000000000000ff) >> 0) as bv8 == b7
  {
  }

  lemma SeqnumRoundTrip(n: bv32, p: seq<byte>)
    requires |p| == 4
    ensures Uint32Of(BytesOf32(n)) == n
    ensures BytesOf32(Uint32Of(p)) == p
  {
    ValueOfBytes32(n);
    BytesOfValue32(p);
  }

  lemma ValueOfBytes32(n: bv32)
    ensures Uint32Of(BytesOf32(n)) == n
  {
    var q := BytesOf32(n);
    assert q[0] as bv32 << 24 == n & 0xff000000;
    assert q[1] as bv32 << 16 == n & 0x00ff0000;
    assert q[2] as bv32 << 8 == n & 0x0000ff00;
    assert q[3] as bv32 == n & 0x000000ff;
  }

  lemma BytesOfValue32(p: seq<byte>)
    requires |p| == 4
    ensures BytesOf32(Uint32Of(p)) == p
  {
    var b0, b1, b2, b3 := p[0], p[1], p[2], p[3];
    assert p == [b0, b1, b2, b3];
    var v := Join32(b0, b1, b2, b3);
    assert v == Uint32Of(p);
    ByteOfJoin32Of(b0, b1, b2, b3);
    var q := BytesOf32(v);
    assert q == [b0, b1, b2, b3];
  }

  /** `Uint32Of` of four separate bytes. */
  function Join32(b0: bv8, b1: bv8, b2: bv8, b3: bv8): (v: bv32)
    ensures v == Uint32Of([b0, b1, b2, b3])
  {
    (b0 as bv32 << 24) | (b1 as bv32 << 16) | (b2 as bv32 << 8) | b3 as bv32
  }

  lemma ByteOfJoin32Of(b0: bv8, b1: bv8, b2: bv8, b3: bv8)
    ensures ((Join32(b0, b1, b2, b3) & 0xff000000) >> 24) as bv8 == b0
    ensures ((Join32(b0, b1, b2, b3) & 0x00ff0000) >> 16) as bv8 == b1
    ensures ((Join32(b0, b1, b2, b3) & 0x0000ff00) >> 8) as bv8 == b2
    ensures (Join32(b0, b1, b2, b3) & 0x000000ff) as bv8 == b3
  {
  }

  /** Eight zero bytes read as 0, and the value's bytes are zero only
      for 0. */
  lemma ClearedTimestampIsZero(t: bv64)
    ensures Uint64Of([0, 0, 0, 0, 0, 0, 0, 0]) == 0
    ensures BytesOf64(t) == [0, 0, 0, 0, 0, 0, 0, 0] <==> t == 0
  {
    if BytesOf64(t) == [0, 0, 0, 0, 0, 0, 0, 0] {
      TimestampRoundTrip(t, BytesOf64(t));
    }
  }

  /** What `data_set_len` stores: the argument clamped into [0, DATA_MAXLEN]. */
  function ClampLen(len: int): (r: int)
    ensures 0 <= r <= DATA_MAXLEN
    ensures 0 <= len <= DATA_MAXLEN ==> r == len
    ensures len < 0 ==> r == 0
    ensures len > DATA_MAXLEN ==> r == DATA_MAXLEN
  {
    if len < 0 then 0 else if len > DATA_MAXLEN then DATA_MAXLEN else len
  }

  /** `data_t`. */
  class Data {
    var len: int
    var seqnum: array<byte>
    var timestamp: array<byte>
    var data: array<byte>

    ghost predicate Valid()
      reads this
    {
      seqnum.Length == 4 && timestamp.Length == 8 && data.Length == DATA_MAXLEN
      && seqnum != timestamp && seqnum != data && timestamp != data
      && 0 <= len <= DATA_MAXLEN
    }

    /** `new_data`: empty, with a zero first byte. */
    constructor ()
      ensures Valid() && fresh(seqnum) && fresh(timestamp) && fresh(data)
      ensures len == 0 && data[0] == 0
    {
      len := 0;
      seqnum := new byte[4];
      timestamp := new byte[8];
      data := new byte[DATA_MAXLEN];
      new;
      data[0] := 0;
    }

    /** `data_set_data`: copies at most DATA_MAXLEN bytes of `s` and sets
        the length to the number copied; a NULL source changes nothing. */
    method SetData(s: Option<seq<byte>>, n: int)
      requires Valid()
      requires s.Some? ==> 0 <= n && (if n > DATA_MAXLEN then DATA_MAXLEN else n) <= |s.value|
      modifies this, data
      ensures Valid() && unchanged(this`seqnum, this`timestamp, this`data)
      ensures s.None? ==> len == old(len) && data[..] == old(data[..])
      ensures s.Some? ==> len == (if n > DATA_MAXLEN then DATA_MAXLEN else n)
      ensures s.Some? ==> data[..len] == s.value[..len] && data[len..] == old(data[..])[len..]
    {
      if s.Some? {
        var k := n;
        if k > DATA_MAXLEN {
          k := DATA_MAXLEN;
        }
        forall i | 0 <= i < k {
          data[i] := s.value[i];
        }
        len := k;
        assert data[..len] == s.value[..len];
      }
    }

    /** `data_set_len`. */
    method SetLen(n: int)
      requires Valid()
      modifies this
      ensures Valid() && unchanged(this`seqnum, this`timestamp, this`data)
      ensures len == ClampLen(n)
    {
      var k := n;
      if k < 0 {
        k := 0;
      }
      if k > DATA_MAXLEN {
        k := DATA_MAXLEN;
      }
      len := k;
    }

    /** `data_append_zero`: a terminating zero after the payload; when the
        payload is full the last byte is overwritten instead. */
    method AppendZero()
      requires Valid()
      modifies this, data
      ensures Valid() && unchanged(this`seqnum, this`timestamp, this`data)
      ensures old(len) <= DATA_MAXLEN - 1 ==>
        len == old(len) + 1 && data[..] == old(data[..])[old(len) := 0]
      ensures old(len) > DATA_MAXLEN - 1 ==>
        len == old(len) && data[..] == old(data[..])[DATA_MAXLEN - 1 := 0]
    {
      if len <= DATA_MAXLEN - 1 {
        data[len] := 0;
        len := len + 1;
      } else {
        data[DATA_MAXLEN - 1] := 0;
      }
    }

    /** `data_timestamp`. */
    function Timestamp(): bv64
      requires Valid()
      reads this, timestamp
    {
      Uint64Of(timestamp[..])
    }

    /** `data_seqnum`. */
    function Seqnum(): bv32
      requires Valid()
      reads this, seqnum
    {
      Uint32Of(seqnum[..])
    }

    /** `data_clear_timestamp`. */
    method ClearTimestamp()
      requires Valid()
      modifies timestamp
      ensures Valid() && timestamp[..] == [0, 0, 0, 0, 0, 0, 0, 0] && Timestamp() == 0
    {
      timestamp[0], timestamp[1], timestamp[2], timestamp[3] := 0, 0, 0, 0;
      timestamp[4], timestamp[5], timestamp[6], timestamp[7] := 0, 0, 0, 0;
      ClearedTimestampIsZero(0);
    }

    /** `data_set_timestamp`; the clock reading is the parameter `t`. */
    method SetTimestamp(t: bv64)
      requires Valid()
      modifies timestamp
      ensures Valid() && timestamp[..] == BytesOf64(t) && Timestamp() == t
    {
      timestamp[0] := ((t & 0xff00000000000000) >> 56) as bv8;
      timestamp[1] := ((t & 0x00ff000000000000) >> 48) as bv8;
      timestamp[2] := ((t & 0x0000ff0000000000) >> 40) as bv8;
      timestamp[3] := ((t & 0x000000ff00000000) >> 32) as bv8;
      timestamp[4] := ((t & 0x00000000ff000000) >> 24) as bv8;
      timestamp[5] := ((t & 0x0000000000ff0000) >> 16) as bv8;
      timestamp[6] := ((t & 0x000000000000ff00) >> 8) as bv8;
      timestamp[7] := (t & 0x00000000000000ff) as bv8;
      TimestampRoundTrip(t, timestamp[..]);
    }

    /** `data_set_seqnum`. */
    method SetSeqnum(n: bv32)
      requires Valid()
      modifies seqnum
      ensures Valid() && seqnum[..] == BytesOf32(n) && Seqnum() == n
    {
      seqnum[0] := ((n & 0xff000000) >> 24) as bv8;
      seqnum[1] := ((n & 0x00ff0000) >> 16) as bv8;
      seqnum[2] := ((n & 0x0000ff00) >> 8) as bv8;
      seqnum[3] := (n & 0x000000ff) as bv8;
      SeqnumRoundTrip(n, seqnum[..]);
    }
  }

  /** `data_len`: 0 for a NULL container. */
  function DataLen(m: Data?): (n: int)
    requires m != null ==> m.Valid()
    reads m
    ensures 0 <= n <= DATA_MAXLEN
    ensures m == null ==> n == 0
    ensures m != null ==> n == m.len
  {
    if m == null then 0 else m.len
  }
}
