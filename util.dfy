/** String codecs of src/util.c: JSON-style escaping, base64 (section 4 of
    RFC 4648), and percent-encoding of URLs. */
module Codecs {
  import opened Common
  import opened Membufs

  // --- escape_string ----------------------------------------------------

  /** The replacement `escape_string` writes for one character. */
  function EscapeChar(c: char): (r: string)
  {
    match c
    case '\t' => "\\t"
    case '\n' => "\\n"
    case '\r' => "\\r"
    case '"' => "\\\""
    case '\\' => "\\\\"
    case _ => [c]
  }

  /** The escaped form of a whole string, without the terminator. */
  function Escaped(s: string): string {
    if |s| == 0 then [] else EscapeChar(s[0]) + Escaped(s[1..])
  }

  /** Escaping leaves no tab, newline or carriage return in the text, and
      never makes it shorter. */
  lemma {:induction false} EscapedHasNoSpecials(s: string)
    ensures forall i :: 0 <= i < |Escaped(s)| ==> Escaped(s)[i] !in "\t\n\r"
    ensures |Escaped(s)| >= |s|
  {
    if |s| > 0 {
      EscapedHasNoSpecials(s[1..]);
      var e := Escaped(s);
      var h := EscapeChar(s[0]);
      assert e == h + Escaped(s[1..]);
      forall i | 0 <= i < |e|
        ensures e[i] !in "\t\n\r"
      {
        if i >= |h| {
          assert e[i] == Escaped(s[1..])[i - |h|];
        }
      }
    }
  }

  /** The `switch` of `escape_string`: the puts for one character. */
  method PutEscaped(t: Membuf, c: char)
    requires t.Valid()
    modifies t, t.buffer
    ensures t.Valid() && t.Contents() == old(t.Contents()) + EscapeChar(c)
    ensures t.buffer == old(t.buffer) || fresh(t.buffer)
  {
    match c {
      case '\t' => PutPair(t, '\\', 't');
      case '\n' => PutPair(t, '\\', 'n');
      case '\r' => PutPair(t, '\\', 'r');
      case '"' => PutPair(t, '\\', '"');
      case '\\' => PutPair(t, '\\', '\\');
      case _ => t.Put(c);
    }
  }

  /** Two `membuf_put` calls in a row. */
  method PutPair(t: Membuf, a: char, b: char)
    requires t.Valid()
    modifies t, t.buffer
    ensures t.Valid() && t.Contents() == old(t.Contents()) + [a, b]
    ensures t.buffer == old(t.buffer) || fresh(t.buffer)
  {
    t.Put(a);
    t.Put(b);
  }

  /** The character an escape `\\x` stands for, if `x` is one that
      `escape_string` writes. */
  function EscapedBy(x: char): Option<char> {
    match x
    case 't' => Some('\t')
    case 'n' => Some('\n')
    case 'r' => Some('\r')
    case '"' => Some('"')
    case '\\' => Some('\\')
    case _ => None
  }

  /** A reference reader for the output of `escape_string`. */
  function Unescape(t: string): Option<string> {
    if |t| == 0 then Some([])
    else if t[0] == '\\' then
      if |t| == 1 || EscapedBy(t[1]).None? then None
      else match Unescape(t[2..])
        case None => None
        case Some(r) => Some([EscapedBy(t[1]).value] + r)
    else match Unescape(t[1..])
      case None => None
      case Some(r) => Some([t[0]] + r)
  }

  /** Reading back the escaped form of one character, ahead of any text. */
  lemma UnescapeChar(c: char, rest: string)
    ensures Unescape(EscapeChar(c) + rest) ==
      match Unescape(rest)
      case None => None
      case Some(r) => Some([c] + r)
  {
    var t := EscapeChar(c) + rest;
    if |EscapeChar(c)| == 2 {
      assert t[2..] == rest;
    } else {
      assert t[1..] == rest;
    }
  }

  /** Escaping can be undone: `Unescape` reads back the original text. */
  lemma {:induction false} UnescapeEscaped(s: string)
    ensures Unescape(Escaped(s)) == Some(s)
  {
    if |s| > 0 {
      UnescapeEscaped(s[1..]);
      UnescapeChar(s[0], Escaped(s[1..]));
      assert s == [s[0]] + s[1..];
    }
  }

  /** One more character of `s` escaped after the output `done`. */
  lemma EscapedStep(s: string, i: nat, done: string)
    requires i < |s| && done + Escaped(s[i..]) == Escaped(s)
    ensures (done + EscapeChar(s[i])) + Escaped(s[i + 1..]) == Escaped(s)
  {
    EscapedFrom(s, i);
    AppendAssoc(done, EscapeChar(s[i]), Escaped(s[i + 1..]));
  }

  /** `Escaped` from position `i` on: the escape of `s[i]`, then the rest. */
  lemma EscapedFrom(s: string, i: nat)
    requires i < |s|
    ensures Escaped(s[i..]) == EscapeChar(s[i]) + Escaped(s[i + 1..])
  {
    assert s[i..][0] == s[i] && s[i..][1..] == s[i + 1..];
  }

  /** `escape_string`: the escaped characters followed by a NUL, built in a
      fresh membuf. */
  method EscapeString(s: string) returns (out: string)
    ensures out == Escaped(s) + ['\0']
  {
    var t := new Membuf();
    var i := 0;
    while i < |s|
      invariant 0 <= i <= |s|
      invariant t.Valid() && fresh(t) && fresh(t.buffer)
      invariant t.Contents() + Escaped(s[i..]) == Escaped(s)
    {
      EscapedStep(s, i, t.Contents());
      PutEscaped(t, s[i]);
      i := i + 1;
    }
    assert s[i..] == [];
    t.AppendZero();
    out := t.Contents();
  }

  // --- encode_base64 ----------------------------------------------------

  /** Entry `k` of the source's table: the alphabet of section 4 of
      RFC 4648. */
  function Alphabet(k: int): (c: char)
    requires 0 <= k < 64
  {
    if k < 26 then ('A' as int + k) as char
    else if k < 52 then ('a' as int + k - 26) as char
    else if k < 62 then ('0' as int + k - 52) as char
    else if k == 62 then '+'
    else '/'
  }

  /** `table[(p >> 6 * k) & 0x3F]`; `p` holds at most 24 bits, so the shift
      and the mask are a division and a remainder. */
  function Sextet(p: int, k: int): char
    requires 0 <= p && 0 <= k <= 3
  {
    Alphabet((if k == 3 then p / 262144 else if k == 2 then p / 4096 else if k == 1 then p / 64 else p) % 64)
  }

  /** The four characters of one group of `n` input bytes (1 to 3) with
      values `x`, `y`, `z`, with '=' padding; the missing bytes count as 0. */
  function Quad(x: int, y: int, z: int, n: nat): (r: string)
    requires 0 <= x < 256 && 0 <= y < 256 && 0 <= z < 256 && 1 <= n <= 3
    ensures |r| == 4
  {
    var p := x * 65536 + (if n >= 2 then y * 256 else 0) + (if n == 3 then z else 0);
    if n == 3 then [Sextet(p, 3), Sextet(p, 2), Sextet(p, 1), Sextet(p, 0)]
    else if n == 2 then [Sextet(p, 3), Sextet(p, 2), Sextet(p, 1), '=']
    else [Sextet(p, 3), Sextet(p, 2), '=', '=']
  }

  /** Base64 of a byte string, three bytes at a time. */
  function Base64(s: seq<byte>): string
  {
    if |s| == 0 then []
    else if |s| >= 3 then Quad(s[0] as int, s[1] as int, s[2] as int, 3) + Base64(s[3..])
    else if |s| == 2 then Quad(s[0] as int, s[1] as int, 0, 2)
    else Quad(s[0] as int, 0, 0, 1)
  }

  /** The output is exactly `4 * ((n + 2) / 3)` characters long, the
      length the source allocates. */
  lemma {:induction false} Base64Length(s: seq<byte>)
    ensures |Base64(s)| == 4 * ((|s| + 2) / 3)
  {
    if |s| >= 3 {
      Base64Length(s[3..]);
      assert |Base64(s)| == 4 + |Base64(s[3..])|;
      assert (|s| + 2) / 3 == 1 + (|s[3..]| + 2) / 3;
    } else if |s| > 0 {
      assert |Base64(s)| == 4;
    }
  }

  /** `encode_base64`: the bytes of the C string `s`, encoded. */
  method EncodeBase64(s: seq<byte>) returns (t: string)
    ensures t == Base64(s)
    ensures |t| == 4 * ((|s| + 2) / 3)
  {
    t := [];
    var i := 0;
    while i < |s|
      invariant 0 <= i <= |s|
      invariant t + Base64(s[i..]) == Base64(s)
    {
      var n := |s| - i;
      if n > 3 {
        n := 3;
      }
      if n == 3 {
        assert s[i..][3..] == s[i + 3..];
        t := t + Quad(s[i] as int, s[i + 1] as int, s[i + 2] as int, 3);
        i := i + 3;
      } else if n == 2 {
        t := t + Quad(s[i] as int, s[i + 1] as int, 0, 2);
        i := i + 2;
      } else {
        t := t + Quad(s[i] as int, 0, 0, 1);
        i := i + 1;
      }
    }
    assert s[i..] == [];
    Base64Length(s);
  }

  /** The position of a character in the alphabet. */
  function SextetValue(c: char): (r: Option<int>)
    ensures r.Some? ==> 0 <= r.value < 64 && Alphabet(r.value) == c
  {
    if 'A' <= c <= 'Z' then Some(c as int - 'A' as int)
    else if 'a' <= c <= 'z' then Some(c as int - 'a' as int + 26)
    else if '0' <= c <= '9' then Some(c as int - '0' as int + 52)
    else if c == '+' then Some(62)
    else if c == '/' then Some(63)
    else None
  }

  /** Every entry of the alphabet is told apart by `SextetValue`. */
  lemma SextetValueOfAlphabet(k: int)
    requires 0 <= k < 64
    ensures SextetValue(Alphabet(k)) == Some(k)
  {
  }

  /** The values of three bytes recovered from four sextets. */
  function Unquad(i0: int, i1: int, i2: int, i3: int): seq<int>
    requires 0 <= i0 < 64 && 0 <= i1 < 64 && 0 <= i2 < 64 && 0 <= i3 < 64
  {
    [i0 * 4 + i1 / 16, (i1 % 16) * 16 + i2 / 4, (i2 % 4) * 64 + i3]
  }

  /** A decoder for padded base64, kept as a reference for the encoder;
      the source has none. It yields the values of the bytes. */
  function DecodeBase64(t: string): Option<seq<int>>
    decreases |t|
  {
    if |t| < 4 then (if |t| == 0 then Some([]) else None)
    else
      var v0, v1, v2, v3 := SextetValue(t[0]), SextetValue(t[1]), SextetValue(t[2]), SextetValue(t[3]);
      if v0.None? || v1.None? then None
      else if |t| == 4 && t[2] == '=' && t[3] == '=' then
        Some(Unquad(v0.value, v1.value, 0, 0)[..1])
      else if |t| == 4 && v2.Some? && t[3] == '=' then
        Some(Unquad(v0.value, v1.value, v2.value, 0)[..2])
      else if v2.Some? && v3.Some? then
        match DecodeBase64(t[4..])
        case None => None
        case Some(rest) => Some(Unquad(v0.value, v1.value, v2.value, v3.value) + rest)
      else None
  }

  /** The values of a byte string. */
  function Octets(s: seq<byte>): (r: seq<int>)
    ensures |r| == |s|
  {
    seq(|s|, i requires 0 <= i < |s| => s[i] as int)
  }

  // Division by the constants of the encoder, one step at a time.
  lemma DivMod4(p: int, q: int, r: int)
    requires 0 <= r < 4 && p == q * 4 + r
    ensures p / 4 == q && p % 4 == r
  {
  }

  lemma DivMod16(p: int, q: int, r: int)
    requires 0 <= r < 16 && p == q * 16 + r
    ensures p / 16 == q && p % 16 == r
  {
  }

  lemma DivMod64(p: int, q: int, r: int)
    requires 0 <= r < 64 && p == q * 64 + r
    ensures p / 64 == q && p % 64 == r
  {
  }

  lemma DivMod4096(p: int, q: int, r: int)
    requires 0 <= r < 4096 && p == q * 4096 + r
    ensures p / 4096 == q
  {
  }

  lemma DivMod262144(p: int, q: int, r: int)
    requires 0 <= r < 262144 && p == q * 262144 + r
    ensures p / 262144 == q
  {
  }

  /** The four sextets of the 24-bit group `p` of `encode_base64`, read
      off its three bytes. */
  lemma {:induction false} SextetsOfGroup(x: int, y: int, z: int)
    requires 0 <= x < 256 && 0 <= y < 256 && 0 <= z < 256
    ensures var p := x * 65536 + y * 256 + z;
      p / 262144 % 64 == x / 4 && p / 4096 % 64 == (x % 4) * 16 + y / 16
      && p / 64 % 64 == (y % 16) * 4 + z / 64 && p % 64 == z % 64
  {
    var p := x * 65536 + y * 256 + z;
    var s3, s2, s1, s0 := x / 4, (x % 4) * 16 + y / 16, (y % 16) * 4 + z / 64, z % 64;
    assert p == s3 * 262144 + s2 * 4096 + s1 * 64 + s0;
    DivMod262144(p, s3, s2 * 4096 + s1 * 64 + s0);
    DivMod64(s3, 0, s3);
    DivMod4096(p, s3 * 64 + s2, s1 * 64 + s0);
    DivMod64(s3 * 64 + s2, s3, s2);
    DivMod64(p, s3 * 4096 + s2 * 64 + s1, s0);
    DivMod64(s3 * 4096 + s2 * 64 + s1, s3 * 64 + s2, s1);
  }

  /** The sextets of three bytes put back together give the bytes. */
  lemma UnquadOfBytes(x: int, y: int, z: int)
    requires 0 <= x < 256 && 0 <= y < 256 && 0 <= z < 256
    ensures Unquad(x / 4, (x % 4) * 16 + y / 16, (y % 16) * 4 + z / 64, z % 64) == [x, y, z]
  {
    var i1, i2 := (x % 4) * 16 + y / 16, (y % 16) * 4 + z / 64;
    DivMod16(i1, x % 4, y / 16);
    DivMod4(i2, y % 16, z / 64);
    DivMod64(z, z / 64, z % 64);
    DivMod4(x, x / 4, x % 4);
    DivMod16(y, y / 16, y % 16);
  }

  /** The characters of a full output group: the alphabet entries of the
      four sextets of its three bytes. */
  lemma Quad3Chars(x: int, y: int, z: int)
    requires 0 <= x < 256 && 0 <= y < 256 && 0 <= z < 256
    ensures Quad(x, y, z, 3) == [Alphabet(x / 4), Alphabet((x % 4) * 16 + y / 16),
                                 Alphabet((y % 16) * 4 + z / 64), Alphabet(z % 64)]
  {
    var p := x * 65536 + y * 256 + z;
    assert Quad(x, y, z, 3) == [Sextet(p, 3), Sextet(p, 2), Sextet(p, 1), Sextet(p, 0)];
    SextetsOfGroup(x, y, z);
  }

  /** The characters of a two-byte group: three sextets and a '='. */
  lemma Quad2Chars(x: int, y: int)
    requires 0 <= x < 256 && 0 <= y < 256
    ensures Quad(x, y, 0, 2) == [Alphabet(x / 4), Alphabet((x % 4) * 16 + y / 16),
                                 Alphabet((y % 16) * 4), '=']
  {
    var p := x * 65536 + y * 256;
    assert Quad(x, y, 0, 2) == [Sextet(p, 3), Sextet(p, 2), Sextet(p, 1), '='];
    SextetsOfGroup(x, y, 0);
  }

  /** The characters of a one-byte group: two sextets and two '='. */
  lemma Quad1Chars(x: int)
    requires 0 <= x < 256
    ensures Quad(x, 0, 0, 1) == [Alphabet(x / 4), Alphabet((x % 4) * 16), '=', '=']
  {
    var p := x * 65536;
    assert Quad(x, 0, 0, 1) == [Sextet(p, 3), Sextet(p, 2), '=', '='];
    SextetsOfGroup(x, 0, 0);
  }

  /** The characters of a full output group decode to the sextets of its
      three bytes. */
  lemma Quad3Sextets(x: int, y: int, z: int)
    requires 0 <= x < 256 && 0 <= y < 256 && 0 <= z < 256
    ensures var q := Quad(x, y, z, 3);
      SextetValue(q[0]) == Some(x / 4) && SextetValue(q[1]) == Some((x % 4) * 16 + y / 16)
      && SextetValue(q[2]) == Some((y % 16) * 4 + z / 64) && SextetValue(q[3]) == Some(z % 64)
  {
    Quad3Chars(x, y, z);
    SextetValueOfAlphabet(x / 4);
    SextetValueOfAlphabet((x % 4) * 16 + y / 16);
    SextetValueOfAlphabet((y % 16) * 4 + z / 64);
    SextetValueOfAlphabet(z % 64);
  }

  /** The characters of a two-byte group: three sextets and a '='. */
  lemma Quad2Sextets(x: int, y: int)
    requires 0 <= x < 256 && 0 <= y < 256
    ensures var q := Quad(x, y, 0, 2);
      SextetValue(q[0]) == Some(x / 4) && SextetValue(q[1]) == Some((x % 4) * 16 + y / 16)
      && SextetValue(q[2]) == Some((y % 16) * 4) && q[3] == '='
  {
    Quad2Chars(x, y);
    SextetValueOfAlphabet(x / 4);
    SextetValueOfAlphabet((x % 4) * 16 + y / 16);
    SextetValueOfAlphabet((y % 16) * 4);
  }

  /** The characters of a one-byte group: two sextets and two '='. */
  lemma Quad1Sextets(x: int)
    requires 0 <= x < 256
    ensures var q := Quad(x, 0, 0, 1);
      SextetValue(q[0]) == Some(x / 4) && SextetValue(q[1]) == Some((x % 4) * 16)
      && q[2] == '=' && q[3] == '='
  {
    Quad1Chars(x);
    SextetValueOfAlphabet(x / 4);
    SextetValueOfAlphabet((x % 4) * 16);
  }

  /** A full group decodes back to its three bytes, ahead of the rest. */
  lemma Quad3RoundTrip(x: int, y: int, z: int, rest: string)
    requires 0 <= x < 256 && 0 <= y < 256 && 0 <= z < 256
    ensures DecodeBase64(Quad(x, y, z, 3) + rest) ==
      match DecodeBase64(rest)
      case None => None
      case Some(r) => Some([x, y, z] + r)
  {
    var q := Quad(x, y, z, 3);
    var t := q + rest;
    Quad3Sextets(x, y, z);
    assert t[0] == q[0] && t[1] == q[1] && t[2] == q[2] && t[3] == q[3] && t[4..] == rest;
    DecodeFullGroup(t, x / 4, (x % 4) * 16 + y / 16, (y % 16) * 4 + z / 64, z % 64);
    UnquadOfBytes(x, y, z);
  }

  /** Four sextet characters decode to their three bytes, ahead of the
      rest. */
  lemma DecodeFullGroup(t: string, v0: int, v1: int, v2: int, v3: int)
    requires |t| >= 4
    requires SextetValue(t[0]) == Some(v0) && SextetValue(t[1]) == Some(v1)
    requires SextetValue(t[2]) == Some(v2) && SextetValue(t[3]) == Some(v3)
    ensures DecodeBase64(t) ==
      match DecodeBase64(t[4..])
      case None => None
      case Some(r) => Some(Unquad(v0, v1, v2, v3) + r)
  {
  }

  /** Three sextet characters and one '=' decode to two bytes. */
  lemma DecodePairGroup(t: string, v0: int, v1: int, v2: int)
    requires |t| == 4 && t[3] == '='
    requires SextetValue(t[0]) == Some(v0) && SextetValue(t[1]) == Some(v1)
    requires SextetValue(t[2]) == Some(v2)
    ensures DecodeBase64(t) == Some(Unquad(v0, v1, v2, 0)[..2])
  {
  }

  /** Two sextet characters and two '=' decode to one byte. */
  lemma DecodeSingleGroup(t: string, v0: int, v1: int)
    requires |t| == 4 && t[2] == '=' && t[3] == '='
    requires SextetValue(t[0]) == Some(v0) && SextetValue(t[1]) == Some(v1)
    ensures DecodeBase64(t) == Some(Unquad(v0, v1, 0, 0)[..1])
  {
  }

  /** A group of two bytes decodes back to them. */
  lemma Quad2RoundTrip(x: int, y: int)
    requires 0 <= x < 256 && 0 <= y < 256
    ensures DecodeBase64(Quad(x, y, 0, 2)) == Some([x, y])
  {
    Quad2Sextets(x, y);
    DecodePairGroup(Quad(x, y, 0, 2), x / 4, (x % 4) * 16 + y / 16, (y % 16) * 4);
    UnquadOfBytes(x, y, 0);
    assert Unquad(x / 4, (x % 4) * 16 + y / 16, (y % 16) * 4, 0)[..2] == [x, y];
  }

  /** A group of one byte decodes back to it. */
  lemma Quad1RoundTrip(x: int)
    requires 0 <= x < 256
    ensures DecodeBase64(Quad(x, 0, 0, 1)) == Some([x])
  {
    Quad1Sextets(x);
    DecodeSingleGroup(Quad(x, 0, 0, 1), x / 4, (x % 4) * 16);
    UnquadOfBytes(x, 0, 0);
    assert Unquad(x / 4, (x % 4) * 16, 0, 0)[..1] == [x];
  }

  /** The values of the first three bytes, ahead of the rest. */
  lemma OctetsStep(s: seq<byte>)
    requires |s| >= 3
    ensures Octets(s) == [s[0] as int, s[1] as int, s[2] as int] + Octets(s[3..])
  {
    var r := [s[0] as int, s[1] as int, s[2] as int] + Octets(s[3..]);
    forall k | 0 <= k < |s|
      ensures Octets(s)[k] == r[k]
    {
      if k >= 3 {
        assert r[k] == Octets(s[3..])[k - 3];
      }
    }
  }

  /** Decoding the encoder's output gives the values of its input back. */
  lemma {:induction false} Base64RoundTrip(s: seq<byte>)
    ensures DecodeBase64(Base64(s)) == Some(Octets(s))
  {
    if |s| >= 3 {
      Base64RoundTrip(s[3..]);
      OctetsStep(s);
      Quad3RoundTrip(s[0] as int, s[1] as int, s[2] as int, Base64(s[3..]));
    } else if |s| == 2 {
      Quad2RoundTrip(s[0] as int, s[1] as int);
      assert Octets(s) == [s[0] as int, s[1] as int];
    } else if |s| == 1 {
      Quad1RoundTrip(s[0] as int);
      assert Octets(s) == [s[0] as int];
    }
  }

  // --- urlencode / urldecode --------------------------------------------

  /** The characters `urlencode` copies unchanged. */
  predicate Unreserved(c: char) {
    IsDigit(c) || IsAlpha(c) || c == '-' || c == '_' || c == '.' || c == '~'
  }

  /** The characters `urlencode` can handle at all. */
  predicate Printable(c: char) { 32 <= c as int < 127 }

  predicate UrlEncodable(s: string) {
    forall i :: 0 <= i < |s| ==> Printable(s[i])
  }

  /** "%02X" of one hex digit value. */
  function HexUpper(d: int): (c: char)
    requires 0 <= d < 16
  {
    if d < 10 then ('0' as int + d) as char else ('A' as int + d - 10) as char
  }

  /** The encoding of one printable character. */
  function UrlEncodeChar(c: char): (r: string)
    requires Printable(c)
  {
    if Unreserved(c) then [c] else ['%', HexUpper(c as int / 16), HexUpper(c as int % 16)]
  }

  /** What `urlencode` has written when it stops: the encoding of every
      character before the first one it cannot handle. */
  function UrlEncode(s: string): string {
    if |s| == 0 || !Printable(s[0]) then [] else UrlEncodeChar(s[0]) + UrlEncode(s[1..])
  }

  /** `hex2c`. */
  function Hex2c(c: char): (r: int)
    ensures -1 <= r < 16
    ensures r == -1 <==> !(IsDigit(c) || 'a' <= c <= 'f' || 'A' <= c <= 'F')
  {
    if '0' <= c <= '9' then c as int - '0' as int
    else if 'a' <= c <= 'f' then 10 + c as int - 'a' as int
    else if 'A' <= c <= 'F' then 10 + c as int - 'A' as int
    else -1
  }

  /** `hex2c` reads back both cases of every hex digit. */
  lemma Hex2cDigits(d: int)
    requires 0 <= d < 16
    ensures Hex2c(HexUpper(d)) == d
    ensures d >= 10 ==> Hex2c(('a' as int + d - 10) as char) == d
  {
  }

  /** The outcome of `urldecode`: whether it succeeded, and what it had
      written to the buffer (the NUL comes only with success). */
  datatype Decoded = Decoded(ok: bool, out: string)

  function UrlDecode(s: string): (r: Decoded)
    ensures |r.out| <= |s|
  {
    if |s| == 0 then Decoded(true, [])
    else if s[0] == '%' then
      if |s| <= 2 then Decoded(false, [])
      else
        var a, b := Hex2c(s[1]), Hex2c(s[2]);
        if a == -1 || b == -1 then Decoded(false, [])
        else
          var r := UrlDecode(s[3..]);
          Decoded(r.ok, [(16 * a + b) as char] + r.out)
    else
      var r := UrlDecode(s[1..]);
      Decoded(r.ok, [s[0]] + r.out)
  }

  /** A '%' that is not followed by two hex digits makes decoding fail. */
  lemma UrlDecodeRejectsBadEscape(s: string)
    requires |s| > 0 && s[0] == '%'
    requires |s| <= 2 || Hex2c(s[1]) == -1 || Hex2c(s[2]) == -1
    ensures !UrlDecode(s).ok && UrlDecode(s).out == []
  {
  }

  /** Decoding undoes encoding on printable ASCII. */
  lemma {:induction false} UrlRoundTrip(s: string)
    requires UrlEncodable(s)
    ensures UrlDecode(UrlEncode(s)) == Decoded(true, s)
  {
    if |s| > 0 {
      var c := s[0];
      var e := UrlEncode(s);
      assert UrlEncodable(s[1..]) by {
        forall i | 0 <= i < |s[1..]| ensures Printable(s[1..][i]) {
          assert s[1..][i] == s[i + 1];
        }
      }
      UrlRoundTrip(s[1..]);
      assert e == UrlEncodeChar(c) + UrlEncode(s[1..]);
      UrlDecodeOfChar(c, UrlEncode(s[1..]));
      assert s == [c] + s[1..];
    }
  }

  /** The encoding of one character decodes back to it, ahead of the
      rest. */
  lemma UrlDecodeOfChar(c: char, rest: string)
    requires Printable(c)
    ensures UrlDecode(UrlEncodeChar(c) + rest)
      == Decoded(UrlDecode(rest).ok, [c] + UrlDecode(rest).out)
  {
    var e := UrlEncodeChar(c) + rest;
    if Unreserved(c) {
      assert e[0] == c && e[1..] == rest;
    } else {
      Hex2cDigits(c as int / 16);
      Hex2cDigits(c as int % 16);
      assert e[0] == '%' && e[3..] == rest;
    }
  }

  /** `UrlEncode` from position `i` on. */
  lemma UrlEncodeAt(s: string, i: nat)
    requires i < |s|
    ensures UrlEncode(s[i..]) ==
      if Printable(s[i]) then UrlEncodeChar(s[i]) + UrlEncode(s[i + 1..]) else []
  {
    assert s[i..][0] == s[i] && s[i..][1..] == s[i + 1..];
  }

  /** One character of `urlencode`: itself, or "%" and two upper-case hex
      digits. */
  method AppendEncoded(buf: Membuf, c: char)
    requires buf.Valid() && Printable(c)
    modifies buf, buf.buffer
    ensures buf.Valid() && buf.Contents() == old(buf.Contents()) + UrlEncodeChar(c)
    ensures buf.buffer == old(buf.buffer) || fresh(buf.buffer)
  {
    if Unreserved(c) {
      buf.Append([c]);
    } else {
      buf.Append(['%', HexUpper(c as int / 16), HexUpper(c as int % 16)]);
    }
  }

  /** One more character of `s` handled by `urlencode` after the output
      `done`: encoded, or the end of the encoding. */
  lemma UrlEncodeStep(s: string, i: nat, done: string)
    requires i < |s| && done + UrlEncode(s[i..]) == UrlEncode(s)
    ensures Printable(s[i]) ==> (done + UrlEncodeChar(s[i])) + UrlEncode(s[i + 1..]) == UrlEncode(s)
    ensures !Printable(s[i]) ==> done == UrlEncode(s)
  {
    UrlEncodeAt(s, i);
    if Printable(s[i]) {
      AppendAssoc(done, UrlEncodeChar(s[i]), UrlEncode(s[i + 1..]));
    }
  }

  /** `urlencode`: clears `buf`, writes the encoding and a NUL; a character
      below 32 or from 127 up stops it with -1 after what was encoded so far. */
  method Urlencode(s: string, buf: Membuf) returns (err: int)
    requires buf.Valid()
    modifies buf, buf.buffer
    ensures buf.Valid() && buf.Contents() == UrlEncode(s) + ['\0']
    ensures err == 0 <==> UrlEncodable(s)
    ensures err == 0 || err == -1
  {
    buf.Clear();
    var i := 0;
    while i < |s|
      invariant 0 <= i <= |s|
      invariant buf.Valid() && (buf.buffer == old(buf.buffer) || fresh(buf.buffer))
      invariant buf.Contents() + UrlEncode(s[i..]) == UrlEncode(s)
      invariant forall k :: 0 <= k < i ==> Printable(s[k])
    {
      var c := s[i];
      UrlEncodeStep(s, i, buf.Contents());
      if c as int < 32 || c as int >= 127 {
        assert !Printable(s[i]);
        buf.AppendZero();
        return -1;
      }
      AppendEncoded(buf, c);
      i := i + 1;
    }
    assert s[i..] == [];
    assert buf.Contents() == UrlEncode(s);
    buf.AppendZero();
    return 0;
  }

  /** `UrlDecode` from position `i` on. */
  lemma UrlDecodeAt(s: string, i: nat)
    requires i < |s|
    ensures s[i] != '%' ==> UrlDecode(s[i..]) == Decoded(UrlDecode(s[i + 1..]).ok, [s[i]] + UrlDecode(s[i + 1..]).out)
    ensures s[i] == '%' && (i + 2 >= |s| || Hex2c(s[i + 1]) == -1 || Hex2c(s[i + 2]) == -1) ==>
      UrlDecode(s[i..]) == Decoded(false, [])
    ensures s[i] == '%' && i + 2 < |s| && Hex2c(s[i + 1]) != -1 && Hex2c(s[i + 2]) != -1 ==>
      var d := UrlDecode(s[i + 3..]);
      UrlDecode(s[i..]) == Decoded(d.ok, [(16 * Hex2c(s[i + 1]) + Hex2c(s[i + 2])) as char] + d.out)
  {
    var t := s[i..];
    assert t[0] == s[i];
    if |t| > 1 {
      assert t[1] == s[i + 1] && t[1..] == s[i + 1..];
    }
    if |t| > 2 {
      assert t[2] == s[i + 2];
    }
    if |t| > 3 {
      assert t[3..] == s[i + 3..];
    } else if |t| == 3 {
      assert t[3..] == [] == s[i + 3..];
    }
  }

  /** One turn of the loop of `urldecode`: the character at `i`, or the
      one a "%XY" escape stands for, and where the next one starts; not ok
      on a truncated or non-hex escape. */
  method DecodeStep(s: string, i: nat) returns (ok: bool, c: char, next: nat)
    requires i < |s|
    ensures ok ==> i < next <= |s|
    ensures ok ==> UrlDecode(s[i..]) == Decoded(UrlDecode(s[next..]).ok, [c] + UrlDecode(s[next..]).out)
    ensures !ok ==> UrlDecode(s[i..]) == Decoded(false, [])
  {
    UrlDecodeAt(s, i);
    c := s[i];
    next := i + 1;
    ok := true;
    if c == '%' {
      if i + 2 >= |s| {
        return false, c, next;
      }
      var a := Hex2c(s[i + 1]);
      if a == -1 {
        return false, c, next;
      }
      var b := Hex2c(s[i + 2]);
      if b == -1 {
        return false, c, next;
      }
      c := (16 * a + b) as char;
      next := i + 3;
    }
  }

  /** The output `done` so far, followed by one more decoded character. */
  lemma DecodeAdvance(s: string, i: nat, next: nat, c: char, done: string)
    requires i < next <= |s|
    requires UrlDecode(s[i..]) == Decoded(UrlDecode(s[next..]).ok, [c] + UrlDecode(s[next..]).out)
    requires done + UrlDecode(s[i..]).out == UrlDecode(s).out && UrlDecode(s[i..]).ok == UrlDecode(s).ok
    ensures (done + [c]) + UrlDecode(s[next..]).out == UrlDecode(s).out
    ensures UrlDecode(s[next..]).ok == UrlDecode(s).ok
  {
    assert (done + [c]) + UrlDecode(s[next..]).out == done + ([c] + UrlDecode(s[next..]).out);
  }

  /** `urldecode`: clears `buf`, decodes the first `len` characters and
      adds a NUL; a truncated or non-hex escape stops it with -1 and leaves
      what was decoded before it, without a NUL. */
  method Urldecode(s: string, buf: Membuf) returns (err: int)
    requires buf.Valid()
    modifies buf, buf.buffer
    ensures buf.Valid()
    ensures err == 0 <==> UrlDecode(s).ok
    ensures err == 0 ==> buf.Contents() == UrlDecode(s).out + ['\0']
    ensures err != 0 ==> err == -1 && buf.Contents() == UrlDecode(s).out
  {
    buf.Clear();
    var i := 0;
    while i < |s|
      invariant 0 <= i <= |s|
      invariant buf.Valid() && (buf.buffer == old(buf.buffer) || fresh(buf.buffer))
      invariant UrlDecode(s).ok == UrlDecode(s[i..]).ok
      invariant buf.Contents() + UrlDecode(s[i..]).out == UrlDecode(s).out
      decreases |s| - i
    {
      var ok, c, next := DecodeStep(s, i);
      if !ok {
        return -1;
      }
      DecodeAdvance(s, i, next, c, buf.Contents());
      buf.Append([c]);
      i := next;
    }
    assert s[i..] == [];
    buf.AppendZero();
    return 0;
  }
}
