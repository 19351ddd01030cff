/** The ring buffer of librcom/src/circular.c. The state is a byte array
    with a read and a write position; `Ring` is that state as a value, and
    `CircularBuffer` is the object whose methods update it in place. */
module Circular {
  import opened Common

  /** A snapshot of `circular_buffer_t`: `|buf|` is its `length`. */
  datatype Ring = Ring(buf: seq<byte>, readpos: nat, writepos: nat)

  /** Both positions lie in [0, length]; `writepos == length` happens after
      a write that ends exactly at the end of the array. */
  predicate RingOk(s: Ring) {
    s.readpos <= |s.buf| && s.writepos <= |s.buf|
  }

  /** `circular_buffer_data_available`. */
  function Available(s: Ring): int {
    if s.writepos >= s.readpos then s.writepos - s.readpos
    else |s.buf| + s.writepos - s.readpos
  }

  /** `circular_buffer_space_available`. */
  function Space(s: Ring): int {
    if s.writepos >= s.readpos then |s.buf| + s.readpos - s.writepos
    else s.readpos - s.writepos
  }

  /** The bytes waiting to be read, oldest first. */
  function Contents(s: Ring): seq<byte>
    requires RingOk(s)
  {
    if s.writepos >= s.readpos then s.buf[s.readpos..s.writepos]
    else s.buf[s.readpos..] + s.buf[..s.writepos]
  }

  /** `buf` after a write of `src` at `at` that runs past its end: the
      head of `src` fills `buf` from `at` to the end, the rest goes at the
      front. */
  function OverwriteWrapped(buf: seq<byte>, at: nat, src: seq<byte>): (r: seq<byte>)
    requires at <= |buf| < at + |src| && |src| <= |buf|
    ensures |r| == |buf|
  {
    var len1 := |buf| - at;
    src[len1..] + buf[|src| - len1..at] + src[..len1]
  }

  /** `circular_buffer_write`: a write longer than the buffer is dropped;
      otherwise the bytes go at `writepos`, wrapping to the front of the
      array once, and `writepos` follows them. */
  function WriteRing(s: Ring, data: seq<byte>): (t: Ring)
    requires RingOk(s)
    ensures RingOk(t) && |t.buf| == |s.buf| && t.readpos == s.readpos
  {
    var L, w, d := |s.buf|, s.writepos, |data|;
    if d > L then s
    else if w + d <= L then Ring(Overwrite(s.buf, w, data), s.readpos, w + d)
    else Ring(OverwriteWrapped(s.buf, w, data), s.readpos, w + d - L)
  }

  /** What `circular_buffer_read` copies out, and the state it leaves. */
  datatype ReadResult = ReadResult(data: seq<byte>, ring: Ring)

  /** `circular_buffer_read`: the request is clamped to the buffer length;
      the bytes from `readpos` are copied out, wrapping to the front once.
      Nothing checks that they were written. */
  function ReadRing(s: Ring, len: nat): (r: ReadResult)
    requires RingOk(s)
    ensures RingOk(r.ring) && r.ring.buf == s.buf && r.ring.writepos == s.writepos
  {
    var L, rp := |s.buf|, s.readpos;
    var n := if len > L then L else len;
    if rp + n <= L then ReadResult(s.buf[rp..rp + n], Ring(s.buf, rp + n, s.writepos))
    else ReadResult(Wrapped(s.buf, rp, n), Ring(s.buf, rp + n - L, s.writepos))
  }

  /** The `n` bytes of `buf` from `from` on, continued at its front. */
  function Wrapped(buf: seq<byte>, from: nat, n: nat): (r: seq<byte>)
    requires from <= |buf| < from + n && n <= |buf|
    ensures |r| == n
  {
    buf[from..] + buf[..from + n - |buf|]
  }

  /** What is stored and what is free always add up to the length. */
  lemma AvailablePlusSpace(s: Ring)
    ensures Available(s) + Space(s) == |s.buf|
  {
  }

  /** A fresh buffer holds nothing and has all of its length free. */
  lemma FreshRing(size: nat, junk: seq<byte>)
    requires |junk| == size
    ensures var s := Ring(junk, 0, 0);
      RingOk(s) && Available(s) == 0 && Space(s) == size && Contents(s) == []
  {
  }

  /** A write longer than the buffer changes neither position nor the bytes. */
  lemma OversizedWriteIsDropped(s: Ring, data: seq<byte>)
    requires RingOk(s) && |data| > |s.buf|
    ensures WriteRing(s, data) == s
    ensures Available(WriteRing(s, data)) == Available(s)
  {
  }

  /** A read returns as many bytes as asked for, but never more than the
      buffer length. */
  lemma ReadIsClamped(s: Ring, len: nat)
    requires RingOk(s)
    ensures |ReadRing(s, len).data| == if len > |s.buf| then |s.buf| else len
  {
  }

  /** A write that fits strictly in the free space appends its bytes to
      the contents: the buffer behaves as a queue. */
  lemma WriteAppends(s: Ring, data: seq<byte>)
    requires RingOk(s) && |data| < Space(s)
    ensures Contents(WriteRing(s, data)) == Contents(s) + data
  {
    if s.writepos >= s.readpos && s.writepos + |data| > |s.buf| {
      WrappedWriteAppends(s, data);
    } else if s.writepos >= s.readpos {
      PlainWriteAppends(s, data);
    } else {
      BehindWriteAppends(s, data);
    }
  }

  /** The case of `WriteAppends` where the contents do not wrap. */
  lemma PlainWriteAppends(s: Ring, data: seq<byte>)
    requires RingOk(s) && |data| < Space(s)
    requires s.writepos >= s.readpos && s.writepos + |data| <= |s.buf|
    ensures Contents(WriteRing(s, data)) == Contents(s) + data
  {
    OverwriteMiddle(s.buf, s.writepos, data, s.readpos);
  }

  /** The case of `WriteAppends` where the write position is behind the
      read position. */
  lemma BehindWriteAppends(s: Ring, data: seq<byte>)
    requires RingOk(s) && |data| < Space(s)
    requires s.writepos < s.readpos
    ensures Contents(WriteRing(s, data)) == Contents(s) + data
  {
    OverwriteHead(s.buf, s.writepos, data);
    OverwriteTail(s.buf, s.writepos, data, s.readpos);
  }

  /** What an overwrite leaves between `r` and its end, for `r` before it. */
  lemma OverwriteMiddle(a: seq<byte>, w: nat, data: seq<byte>, r: nat)
    requires r <= w && w + |data| <= |a|
    ensures Overwrite(a, w, data)[r..w + |data|] == a[r..w] + data
  {
    var t := Overwrite(a, w, data);
    forall k | 0 <= k < w + |data| - r
      ensures t[r..w + |data|][k] == (a[r..w] + data)[k]
    {
      if k < w - r {
        assert t[r + k] == a[r + k];
      } else {
        assert t[r + k] == data[k - (w - r)];
      }
    }
  }

  /** What an overwrite leaves up to its end. */
  lemma OverwriteHead(a: seq<byte>, w: nat, data: seq<byte>)
    requires w + |data| <= |a|
    ensures Overwrite(a, w, data)[..w + |data|] == a[..w] + data
  {
    var t := Overwrite(a, w, data);
    assert t == (a[..w] + data) + a[w + |data|..];
  }

  /** An overwrite leaves the bytes from `r` on alone, for `r` behind it. */
  lemma OverwriteTail(a: seq<byte>, w: nat, data: seq<byte>, r: nat)
    requires w + |data| <= r <= |a|
    ensures Overwrite(a, w, data)[r..] == a[r..]
  {
    var t := Overwrite(a, w, data);
    forall k | 0 <= k < |a| - r
      ensures t[r..][k] == a[r..][k]
    {
      assert t[r + k] == a[w + |data|..][r + k - w - |data|];
    }
  }

  /** The case of `WriteAppends` where the bytes wrap to the front. */
  lemma WrappedWriteAppends(s: Ring, data: seq<byte>)
    requires RingOk(s) && |data| < Space(s)
    requires s.writepos >= s.readpos && s.writepos + |data| > |s.buf|
    ensures Contents(WriteRing(s, data)) == Contents(s) + data
  {
    var L, r, w, d := |s.buf|, s.readpos, s.writepos, |data|;
    var len1 := L - w;
    var len2 := d - len1;
    var x, y, z := data[len1..], s.buf[len2..w], data[..len1];
    var t := OverwriteWrapped(s.buf, w, data);
    assert t == x + y + z;
    assert len2 < r;
    assert t[..len2] == x;
    assert t[r..] == s.buf[r..w] + z by {
      assert |x| == len2;
      forall k | 0 <= k < |t| - r
        ensures t[r..][k] == (s.buf[r..w] + z)[k]
      {
        if k < w - r {
          assert t[r + k] == y[r + k - len2];
        } else {
          assert t[r + k] == z[k - (w - r)];
        }
      }
    }
    assert Contents(WriteRing(s, data)) == s.buf[r..w] + z + x;
    assert z + x == data;
  }

  /** A read of no more than what is stored returns the oldest bytes and
      removes exactly those. */
  lemma ReadPops(s: Ring, len: nat)
    requires RingOk(s) && len <= Available(s)
    ensures var r := ReadRing(s, len);
      r.data == Contents(s)[..len] && Contents(r.ring) == Contents(s)[len..]
  {
    if s.writepos >= s.readpos {
      ReadPopsPlain(s, len);
    } else if s.readpos + len <= |s.buf| {
      ReadPopsFront(s, len);
    } else {
      ReadPopsWrapped(s, len);
    }
  }

  /** The case of `ReadPops` where the contents do not wrap. */
  lemma ReadPopsPlain(s: Ring, len: nat)
    requires RingOk(s) && len <= Available(s)
    requires s.writepos >= s.readpos
    ensures var r := ReadRing(s, len);
      r.data == Contents(s)[..len] && Contents(r.ring) == Contents(s)[len..]
  {
    var r, w := s.readpos, s.writepos;
    assert ReadRing(s, len).data == s.buf[r..r + len];
    assert ReadRing(s, len).ring.readpos == r + len;
  }

  /** The case of `ReadPops` that stays before the end of the array. */
  lemma ReadPopsFront(s: Ring, len: nat)
    requires RingOk(s) && len <= Available(s)
    requires s.writepos < s.readpos && s.readpos + len <= |s.buf|
    ensures var r := ReadRing(s, len);
      r.data == Contents(s)[..len] && Contents(r.ring) == Contents(s)[len..]
  {
    var L, r, w := |s.buf|, s.readpos, s.writepos;
    var c := s.buf[r..] + s.buf[..w];
    assert Contents(s) == c;
    assert ReadRing(s, len) == ReadResult(s.buf[r..r + len], Ring(s.buf, r + len, w));
    assert c[..len] == s.buf[r..r + len];
    if r + len == L {
      assert c[len..] == s.buf[..w];
      assert Contents(Ring(s.buf, r + len, w)) == s.buf[r + len..] + s.buf[..w];
    } else {
      assert c[len..] == s.buf[r + len..] + s.buf[..w];
    }
  }

  /** The case of `ReadPops` that wraps to the front of the array. */
  lemma ReadPopsWrapped(s: Ring, len: nat)
    requires RingOk(s) && len <= Available(s)
    requires s.writepos < s.readpos && s.readpos + len > |s.buf|
    ensures var r := ReadRing(s, len);
      r.data == Contents(s)[..len] && Contents(r.ring) == Contents(s)[len..]
  {
    var L, r, w := |s.buf|, s.readpos, s.writepos;
    var len1 := L - r;
    var len2 := len - len1;
    var c := s.buf[r..] + s.buf[..w];
    assert Contents(s) == c;
    assert ReadRing(s, len).data == s.buf[r..] + s.buf[..len2];
    assert c[..len] == s.buf[r..] + s.buf[..len2];
    assert c[len..] == s.buf[len2..w];
  }

  class CircularBuffer {
    var buffer: array<byte>
    var readpos: nat
    var writepos: nat

    ghost predicate Valid()
      reads this
    {
      readpos <= buffer.Length && writepos <= buffer.Length
    }

    ghost function State(): Ring
      reads this, buffer
    {
      Ring(buffer[..], readpos, writepos)
    }

    /** `new_circular_buffer`: both positions at 0. The array's initial
        bytes are whatever the allocator returned. */
    constructor (size: nat)
      ensures Valid() && fresh(buffer)
      ensures buffer.Length == size && readpos == 0 && writepos == 0
    {
      buffer := new byte[size];
      readpos, writepos := 0, 0;
    }

    /** `circular_buffer_size`. */
    function Size(): int
      reads this
    {
      buffer.Length
    }

    /** `circular_buffer_data_available`. */
    function DataAvailable(): int
      reads this
    {
      if writepos >= readpos then writepos - readpos else buffer.Length + writepos - readpos
    }

    /** `circular_buffer_space_available`. */
    function SpaceAvailable(): int
      reads this
    {
      if writepos >= readpos then buffer.Length + readpos - writepos else readpos - writepos
    }

    /** The counters of the object are those of its snapshot. */
    lemma CountersOfState()
      ensures DataAvailable() == Available(State()) && SpaceAvailable() == Space(State())
      ensures Size() == |State().buf|
    {
    }

    /** `circular_buffer_write`. */
    method Write(data: seq<byte>)
      requires Valid()
      modifies this, buffer
      ensures Valid() && buffer == old(buffer)
      ensures State() == WriteRing(old(State()), data)
    {
      var len := |data|;
      if len > buffer.Length {
        return;
      }
      var len1, len2 := len, 0;
      if writepos + len > buffer.Length {
        len1 := buffer.Length - writepos;
        len2 := len - len1;
      }
      if len2 != 0 {
        CopyWrapped(buffer, writepos, data);
        writepos := len2;
      } else if len1 != 0 {
        CopyInto(buffer, writepos, data);
        writepos := writepos + len1;
      } else {
        assert Overwrite(buffer[..], writepos, data) == buffer[..];
      }
    }

    /** `circular_buffer_read`: returns what is copied into the caller's
        buffer. */
    method Read(len: nat) returns (out: seq<byte>)
      requires Valid()
      modifies this
      ensures Valid()
      ensures out == ReadRing(old(State()), len).data
      ensures State() == ReadRing(old(State()), len).ring
    {
      var n := if len > buffer.Length then buffer.Length else len;
      var len1, len2 := n, 0;
      assert buffer[..][readpos..readpos + 0] == [];
      if readpos + n > buffer.Length {
        len1 := buffer.Length - readpos;
        len2 := n - len1;
      }
      var rp := readpos;
      out := [];
      if len1 != 0 {
        out := buffer[rp..rp + len1];
        rp := rp + len1;
      }
      if len2 != 0 {
        out := out + buffer[..len2];
        rp := len2;
        assert out == Wrapped(buffer[..], readpos, n);
      }
      readpos := rp;
    }
  }

  /** The two copies of a write that runs past the end of the array: the
      head of `data` fills the array from `at` to its end, and the rest goes
      at the front. */
  method CopyWrapped(a: array<byte>, at: nat, data: seq<byte>)
    requires at <= a.Length < at + |data| && |data| <= a.Length
    modifies a
    ensures a[..] == OverwriteWrapped(old(a[..]), at, data)
  {
    var len1 := a.Length - at;
    var len2 := |data| - len1;
    OverwriteWrappedSteps(a[..], at, data);
    if len1 != 0 {
      CopyInto(a, at, data[..len1]);
    }
    CopyInto(a, 0, data[len1..]);
  }

  /** A wrapped write is the copy up to the end of the array (when there
      is room there) followed by the copy at the front. */
  lemma OverwriteWrappedSteps(b: seq<byte>, at: nat, data: seq<byte>)
    requires at <= |b| < at + |data| && |data| <= |b|
    ensures var len1 := |b| - at;
      var mid := if len1 != 0 then Overwrite(b, at, data[..len1]) else b;
      OverwriteWrapped(b, at, data) == Overwrite(mid, 0, data[len1..])
  {
    var len1 := |b| - at;
    var len2 := |data| - len1;
    var mid := if len1 != 0 then Overwrite(b, at, data[..len1]) else b;
    if len1 != 0 {
      OverwriteToEnd(b, at, data[..len1]);
    } else {
      assert b[..at] + data[..len1] == b;
    }
    assert mid == b[..at] + data[..len1];
    OverwriteFront(mid, data[len1..]);
    DropOfConcat(b[..at], data[..len1], len2);
    assert b[..at][len2..] == b[len2..at];
  }

  lemma OverwriteToEnd(a: seq<byte>, at: nat, src: seq<byte>)
    requires at + |src| == |a|
    ensures Overwrite(a, at, src) == a[..at] + src
  {
    assert a[at + |src|..] == [];
  }

  lemma OverwriteFront(a: seq<byte>, src: seq<byte>)
    requires |src| <= |a|
    ensures Overwrite(a, 0, src) == src + a[|src|..]
  {
    assert a[..0] == [];
  }

  lemma DropOfConcat(x: seq<byte>, y: seq<byte>, n: nat)
    requires n <= |x|
    ensures (x + y)[n..] == x[n..] + y
  {
  }
}
