/** Shared vocabulary of the model: bytes, optional values, and the handful
    of C library routines (strtol, "%d" printing, strstr, strrchr) whose
    behaviour the library relies on. */
module Common {

  /** An unsigned 8-bit value, as held in a `uint8_t` or `unsigned char`. */
  type byte = bv8

  /** A C value that may be NULL. */
  datatype Option<+T> = None | Some(value: T)

  const LONG_MIN: int := -0x8000_0000_0000_0000
  const LONG_MAX: int := 0x7fff_ffff_ffff_ffff

  /** The value a 64-bit `long` takes when it is stored into a 32-bit `int`
      (two's complement truncation, as the GCC targets of the library do). */
  function ToInt32(v: int): (r: int)
    ensures -0x8000_0000 <= r < 0x8000_0000
  {
    var m := v % 0x1_0000_0000;
    if m >= 0x8000_0000 then m - 0x1_0000_0000 else m
  }

  predicate IsDigit(c: char) { '0' <= c <= '9' }
  predicate IsLower(c: char) { 'a' <= c <= 'z' }
  predicate IsUpper(c: char) { 'A' <= c <= 'Z' }
  predicate IsAlpha(c: char) { IsLower(c) || IsUpper(c) }

  /** `isspace` in the C locale. */
  predicate IsSpace(c: char) {
    c == ' ' || c == '\t' || c == '\n' || c == '\r' || c as int == 11 || c as int == 12
  }

  /** The value of a decimal digit character. */
  function DigitValue(c: char): int {
    c as int - '0' as int
  }

  function DigitChar(d: nat): (c: char)
    requires d < 10
    ensures IsDigit(c) && DigitValue(c) == d
  {
    ('0' as int + d) as char
  }

  predicate AllDigits(s: string) {
    forall i :: 0 <= i < |s| ==> IsDigit(s[i])
  }

  /** The value of a run of decimal digits, read left to right. */
  function DecValue(s: string): int {
    if |s| == 0 then 0 else DecValue(s[..|s| - 1]) * 10 + DigitValue(s[|s| - 1])
  }

  /** "%d" of a non-negative number. */
  function DecimalString(n: nat): (s: string)
    ensures |s| > 0 && AllDigits(s)
  {
    if n < 10 then [DigitChar(n)] else DecimalString(n / 10) + [DigitChar(n % 10)]
  }

  /** "%d" of any number: a '-' in front of a negative one. */
  function IntString(n: int): string {
    if n < 0 then "-" + DecimalString(-n) else DecimalString(n)
  }

  /** Reading back what "%d" printed gives the number again. */
  lemma {:induction false} DecValueOfDecimalString(n: nat)
    ensures DecValue(DecimalString(n)) == n
  {
    if n >= 10 {
      var s := DecimalString(n / 10) + [DigitChar(n % 10)];
      assert s[..|s| - 1] == DecimalString(n / 10);
      DecValueOfDecimalString(n / 10);
    }
  }

  /** The index of the first position at or after `i` that does not satisfy
      `isspace`. */
  function SkipSpaces(s: string, i: nat): (j: nat)
    requires i <= |s|
    ensures i <= j <= |s|
    ensures j == |s| || !IsSpace(s[j])
    decreases |s| - i
  {
    if i < |s| && IsSpace(s[i]) then SkipSpaces(s, i + 1) else i
  }

  /** The end of the run of decimal digits that starts at `i`. */
  function DigitsEnd(s: string, i: nat): (j: nat)
    requires i <= |s|
    ensures i <= j <= |s|
    ensures j == |s| || !IsDigit(s[j])
    decreases |s| - i
  {
    if i < |s| && IsDigit(s[i]) then DigitsEnd(s, i + 1) else i
  }

  /** `SkipSpaces` passes over white space only. */
  lemma {:induction false} SkipsOnlySpaces(s: string, i: nat)
    requires i <= |s|
    ensures forall k :: i <= k < SkipSpaces(s, i) ==> IsSpace(s[k])
    decreases |s| - i
  {
    if i < |s| && IsSpace(s[i]) {
      SkipsOnlySpaces(s, i + 1);
    }
  }

  /** `DigitsEnd` passes over digits only. */
  lemma {:induction false} DigitsEndOnlyDigits(s: string, i: nat)
    requires i <= |s|
    ensures AllDigits(s[i..DigitsEnd(s, i)])
    decreases |s| - i
  {
    if i < |s| && IsDigit(s[i]) {
      var j := DigitsEnd(s, i + 1);
      DigitsEndOnlyDigits(s, i + 1);
      assert s[i..j] == [s[i]] + s[i + 1..j];
    }
  }

  /** What `strtol(s, &end, 10)` computes: the value, and the offset of
      `end` from `s`. */
  datatype Strtol = Strtol(value: int, end: nat)

  function Clamp(v: int): int {
    if v > LONG_MAX then LONG_MAX else if v < LONG_MIN then LONG_MIN else v
  }

  /** `strtol` in base 10: leading white space, an optional sign, then the
      longest run of digits. Without a digit nothing is consumed and the
      value is 0; out-of-range values saturate at LONG_MIN/LONG_MAX. */
  function ParseLong(s: string): (r: Strtol)
    ensures r.end <= |s|
    ensures LONG_MIN <= r.value <= LONG_MAX
    ensures r.end == 0 ==> r.value == 0
  {
    var i := SkipSpaces(s, 0);
    var j := if i < |s| && (s[i] == '+' || s[i] == '-') then i + 1 else i;
    var k := DigitsEnd(s, j);
    if k == j then Strtol(0, 0)
    else
      var v: int := DecValue(s[j..k]);
      Strtol(Clamp(if j > i && s[i] == '-' then -v else v), k)
  }

  /** Parsing what "%d" printed consumes all of it and returns the number. */
  lemma ParseLongOfIntString(n: int)
    requires LONG_MIN <= n <= LONG_MAX
    ensures ParseLong(IntString(n)) == Strtol(n, |IntString(n)|)
  {
    var s := IntString(n);
    var m: nat := if n < 0 then -n else n;
    var d := DecimalString(m);
    var j := if n < 0 then 1 else 0;
    assert s[j..] == d;
    assert s[j..|s|] == d;
    assert SkipSpaces(s, 0) == 0 by {
      assert s[0] == '-' || IsDigit(s[0]);
    }
    assert j == (if 0 < |s| && (s[0] == '+' || s[0] == '-') then 1 else 0);
    DigitsAll(s, j);
    DecValueOfDecimalString(m);
  }

  lemma {:induction false} DigitsAll(s: string, j: nat)
    requires j <= |s| && AllDigits(s[j..])
    ensures DigitsEnd(s, j) == |s|
    decreases |s| - j
  {
    if j < |s| {
      assert s[j] == s[j..][0];
      assert s[j + 1..] == s[j..][1..];
      DigitsAll(s, j + 1);
    }
  }

  predicate IsPrefix(p: string, s: string) {
    |p| <= |s| && s[..|p|] == p
  }

  /** `strstr(s, t) != NULL`. */
  predicate Contains(s: string, t: string) {
    exists i :: 0 <= i <= |s| - |t| && OccursAt(s, t, i)
  }

  predicate OccursAt(s: string, t: string, i: nat) {
    i + |t| <= |s| && s[i..i + |t|] == t
  }

  /** `strchr(s, c)`: the index of the first occurrence of `c`. */
  function IndexOf(s: string, c: char): (r: Option<nat>)
    ensures r.Some? ==> r.value < |s| && s[r.value] == c && c !in s[..r.value]
    ensures r.None? ==> c !in s
  {
    if |s| == 0 then None
    else if s[0] == c then Some(0)
    else match IndexOf(s[1..], c)
      case None => None
      case Some(k) => assert s[..k + 1] == [s[0]] + s[1..][..k]; Some(k + 1)
  }

  /** `strrchr(s, c)`: the index of the last occurrence of `c`. */
  function LastIndexOf(s: string, c: char): (r: Option<nat>)
    ensures r.Some? ==> r.value < |s| && s[r.value] == c && c !in s[r.value + 1..]
    ensures r.None? ==> c !in s
  {
    if |s| == 0 then None
    else if s[|s| - 1] == c then Some(|s| - 1)
    else
      var r := LastIndexOf(s[..|s| - 1], c);
      assert s == s[..|s| - 1] + [s[|s| - 1]];
      r
  }

  lemma AppendAssoc<T>(a: seq<T>, b: seq<T>, c: seq<T>)
    ensures (a + b) + c == a + (b + c)
  {
  }

  /** A slice is its first element followed by the rest. */
  lemma SliceCons<T>(s: seq<T>, i: nat, j: nat)
    requires i < j <= |s|
    ensures s[i..j] == [s[i]] + s[i + 1..j]
  {
  }

  /** A slice of a slice is a slice. */
  lemma SliceOfSlice<T>(s: seq<T>, a: nat, b: nat, c: nat, d: nat)
    requires a <= b <= |s| && c <= d <= b - a
    ensures s[a..b][c..d] == s[a + c..a + d]
  {
    forall k | 0 <= k < d - c ensures s[a..b][c..d][k] == s[a + c..a + d][k] {
      assert s[a..b][c..d][k] == s[a..b][c + k];
    }
  }

  /** `buf` with `src` copied over it from position `at`. */
  function Overwrite(buf: seq<byte>, at: nat, src: seq<byte>): (r: seq<byte>)
    requires at + |src| <= |buf|
    ensures |r| == |buf|
  {
    buf[..at] + src + buf[at + |src|..]
  }

  /** `memcpy(a + at, src, |src|)`. */
  method CopyInto(a: array<byte>, at: nat, src: seq<byte>)
    requires at + |src| <= a.Length
    modifies a
    ensures a[..] == Overwrite(old(a[..]), at, src)
  {
    forall i | 0 <= i < |src| {
      a[at + i] := src[i];
    }
    assert a[..] == Overwrite(old(a[..]), at, src) by {
      forall k | 0 <= k < a.Length
        ensures a[k] == Overwrite(old(a[..]), at, src)[k]
      {
      }
    }
  }
}
