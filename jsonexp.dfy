/**
 * Paths into JSON values, src/json.c: `json_parse_exp` and
 * `json_print_exp`.
 *
 * A path such as `camera.lens[2].focal` is read into a list of
 * `sexp_t`: a member name, and the index that follows it in brackets or
 * -1. Names are runs of letters, '_' and '-' shorter than the 128-byte
 * name buffer; '.' and '/' separate the parts; an index is a run of
 * decimal digits in brackets, and only a separator or the end may follow
 * it. Anything else gives NULL.
 */
module JsonExp {
  import opened Common

  /** The size of the name buffer of `json_parse_exp`. */
  const BUFLEN: int := 128

  /** A `sexp_t`: a name and an index, -1 when there is none. */
  datatype Sexp = Sexp(name: string, index: int)

  /** `_ischar`. */
  predicate IsNameChar(c: char) {
    IsAlpha(c) || c == '_' || c == '-'
  }

  /** `_isdot`. */
  predicate IsDot(c: char) {
    c == '.' || c == '/'
  }

  /** What `json_parse_exp` expects next. */
  datatype ExpState = ExpChar | CharDotBracketOrEnd | ExpDigit | DigitOrBracket | DotOrEnd

  /** The character at `i`, and the terminator at the end. */
  function CharAt(s: string, i: nat): char
    requires i <= |s|
  {
    if i < |s| then s[i] else '\0'
  }

  /** The automaton of `json_parse_exp` from position `i`, in state `st`,
      with the name read so far, the index being read and the parts
      built so far. */
  function Run(s: string, i: nat, st: ExpState, name: string, index: int, acc: seq<Sexp>): Option<seq<Sexp>>
    requires i <= |s|
    decreases |s| - i
  {
    var c := CharAt(s, i);
    match st
    case ExpChar =>
      if !IsNameChar(c) then None
      else if |name| + 1 == BUFLEN then None
      else Run(s, i + 1, CharDotBracketOrEnd, name + [c], index, acc)
    case CharDotBracketOrEnd =>
      if IsNameChar(c) then
        if |name| + 1 == BUFLEN then None
        else Run(s, i + 1, CharDotBracketOrEnd, name + [c], index, acc)
      else if IsDot(c) then Run(s, i + 1, ExpChar, [], index, acc + [Sexp(name, -1)])
      else if c == '[' then Run(s, i + 1, ExpDigit, name, 0, acc)
      else if c == '\0' then Some(acc + [Sexp(name, -1)])
      else None
    case ExpDigit =>
      if IsDigit(c) then Run(s, i + 1, DigitOrBracket, name, 10 * index + DigitValue(c), acc)
      else None
    case DigitOrBracket =>
      if IsDigit(c) then Run(s, i + 1, DigitOrBracket, name, 10 * index + DigitValue(c), acc)
      else if c == ']' then Run(s, i + 1, DotOrEnd, [], index, acc + [Sexp(name, index)])
      else None
    case DotOrEnd =>
      if IsDot(c) then Run(s, i + 1, ExpChar, [], index, acc)
      else if c == '\0' then Some(acc)
      else None
  }

  /** The result of `json_parse_exp`: `None` for NULL. */
  function Parse(s: string): Option<seq<Sexp>> {
    Run(s, 0, ExpChar, [], 0, [])
  }

  /** What the name buffer holds in each state: the name being read, or,
      while an index is read, the name with its terminator. */
  ghost predicate Buffered(buf: seq<char>, bufindex: int, st: ExpState, name: string) {
    |buf| == BUFLEN && |name| < BUFLEN && (forall j :: 0 <= j < |name| ==> IsNameChar(name[j])) &&
    match st
    case ExpChar => bufindex == 0 && name == []
    case CharDotBracketOrEnd => bufindex == |name| && buf[..bufindex] == name
    case ExpDigit => bufindex == 0 && buf[..|name|] == name && buf[|name|] == '\0'
    case DigitOrBracket => bufindex == 0 && buf[..|name|] == name && buf[|name|] == '\0'
    case DotOrEnd => bufindex == 0 && name == []
  }

  /** The copy `new_sexp` takes of the buffer: the characters before the
      terminator. */
  method CopyName(buf: array<char>, ghost n: nat) returns (t: string)
    requires n < buf.Length && buf[n] == '\0'
    requires forall j :: 0 <= j < n ==> IsNameChar(buf[j])
    ensures t == buf[..n]
  {
    var k := 0;
    while buf[k] != '\0'
      invariant k <= n
      invariant forall j :: 0 <= j < k ==> buf[j] != '\0'
      decreases n - k
    {
      k := k + 1;
    }
    t := buf[..k];
  }

  /** `json_parse_exp`: one step per character, the terminator past the
      end included; every state either stops or goes on at the
      terminator, so the loop ends in a `return`. */
  method ParseExp(s: string) returns (r: Option<seq<Sexp>>)
    ensures r == Parse(s)
  {
    var state := ExpChar;
    var index := 0;
    var buffer := new char[BUFLEN];
    var bufindex := 0;
    var exp: seq<Sexp> := [];
    ghost var name: string := [];
    var i := 0;
    while true
      invariant i <= |s|
      invariant Buffered(buffer[..], bufindex, state, name)
      invariant Run(s, i, state, name, index, exp) == Parse(s)
      decreases |s| - i
    {
      var c := if i < |s| then s[i] else '\0';
      match state {
      case ExpChar =>
        if IsNameChar(c) {
          buffer[bufindex] := c;
          bufindex := bufindex + 1;
          if bufindex == BUFLEN {
            return None;
          }
          name := name + [c];
          assert buffer[..bufindex] == name;
          state := CharDotBracketOrEnd;
        } else {
          return None;
        }
      case CharDotBracketOrEnd =>
        if IsNameChar(c) {
          ghost var prev := buffer[..];
          buffer[bufindex] := c;
          assert buffer[..bufindex + 1] == prev[..bufindex] + [c];
          bufindex := bufindex + 1;
          if bufindex == BUFLEN {
            return None;
          }
          name := name + [c];
        } else if IsDot(c) {
          buffer[bufindex] := '\0';
          var e := CopyName(buffer, bufindex);
          exp := exp + [Sexp(e, -1)];
          bufindex := 0;
          name := [];
          state := ExpChar;
        } else if c == '[' {
          buffer[bufindex] := '\0';
          assert buffer[..|name|] == name;
          bufindex := 0;
          index := 0;
          state := ExpDigit;
        } else if c == '\0' {
          buffer[bufindex] := '\0';
          var e := CopyName(buffer, bufindex);
          return Some(exp + [Sexp(e, -1)]);
        } else {
          return None;
        }
      case ExpDigit =>
        if IsDigit(c) {
          index := 10 * index + DigitValue(c);
          state := DigitOrBracket;
        } else {
          return None;
        }
      case DigitOrBracket =>
        if IsDigit(c) {
          index := 10 * index + DigitValue(c);
        } else if c == ']' {
          var e := CopyName(buffer, |name|);
          exp := exp + [Sexp(e, index)];
          name := [];
          state := DotOrEnd;
        } else {
          return None;
        }
      case DotOrEnd =>
        if IsDot(c) {
          state := ExpChar;
        } else if c == '\0' {
          return Some(exp);
        } else {
          return None;
        }
      }
      i := i + 1;
    }
  }

  /** A part as `json_print_exp` writes it: the name, then the index in
      brackets when there is one. */
  function PartText(e: Sexp): string {
    if e.index >= 0 then e.name + "[" + DecimalString(e.index) + "]" else e.name
  }

  /** `json_print_exp` without its final newline: the parts joined by
      '.'. */
  function Print(es: seq<Sexp>): string
    requires |es| > 0
  {
    if |es| == 1 then PartText(es[0]) else PartText(es[0]) + "." + Print(es[1..])
  }

  /** A name `json_parse_exp` can read: 1 to 127 name characters. */
  predicate ValidName(n: string) {
    0 < |n| < BUFLEN && forall j :: 0 <= j < |n| ==> IsNameChar(n[j])
  }

  predicate ValidParts(es: seq<Sexp>) {
    forall k :: 0 <= k < |es| ==> ValidName(es[k].name) && es[k].index >= -1
  }

  /** A path: at least one part, each with a valid name and an index or
      -1. */
  predicate ValidPath(es: seq<Sexp>) {
    |es| > 0 && ValidParts(es)
  }

  /** Reading the name characters from `i` up to `j`. */
  lemma {:induction false} NameRun(s: string, i: nat, j: nat, name: string, index: int, acc: seq<Sexp>)
    requires i <= j <= |s| && |name| + (j - i) < BUFLEN
    requires forall k :: i <= k < j ==> IsNameChar(s[k])
    ensures Run(s, i, CharDotBracketOrEnd, name, index, acc)
         == Run(s, j, CharDotBracketOrEnd, name + s[i..j], index, acc)
    decreases j - i
  {
    if i < j {
      NameRun(s, i + 1, j, name + [s[i]], index, acc);
      SliceCons(s, i, j);
      AppendAssoc(name, [s[i]], s[i + 1..j]);
    } else {
      assert name + s[i..i] == name;
    }
  }

  /** Reading the digits from `k` on adds them to the index. */
  lemma {:induction false} DigitsFrom(s: string, j: nat, k: nat, e: nat, name: string, acc: seq<Sexp>)
    requires j <= k <= e <= |s| && AllDigits(s[j..e])
    ensures Run(s, k, DigitOrBracket, name, DecValue(s[j..k]), acc)
         == Run(s, e, DigitOrBracket, name, DecValue(s[j..e]), acc)
    decreases e - k
  {
    if k < e {
      assert s[k] == s[j..e][k - j];
      assert s[j..k + 1][..k - j] == s[j..k];
      DigitsFrom(s, j, k + 1, e, name, acc);
    }
  }

  /** Reading an index in brackets. */
  lemma DigitsRun(s: string, j: nat, e: nat, name: string, acc: seq<Sexp>)
    requires j < e <= |s| && AllDigits(s[j..e])
    ensures Run(s, j, ExpDigit, name, 0, acc) == Run(s, e, DigitOrBracket, name, DecValue(s[j..e]), acc)
  {
    assert s[j] == s[j..e][0];
    assert s[j..j + 1][..0] == [];
    DigitsFrom(s, j, j + 1, e, name, acc);
  }

  /** The first character of a name. */
  lemma FirstNameChar(s: string, i: nat, index: int, acc: seq<Sexp>)
    requires i < |s| && IsNameChar(s[i])
    ensures Run(s, i, ExpChar, [], index, acc) == Run(s, i + 1, CharDotBracketOrEnd, [s[i]], index, acc)
  {
    assert [] + [s[i]] == [s[i]];
  }

  /** Reading a name from the start of a part: the name is `s[i..j]`. */
  lemma NamePartRun(s: string, i: nat, j: nat, index: int, acc: seq<Sexp>)
    requires i < j <= |s| && j - i < BUFLEN
    requires forall k :: i <= k < j ==> IsNameChar(s[k])
    ensures Run(s, i, ExpChar, [], index, acc) == Run(s, j, CharDotBracketOrEnd, s[i..j], index, acc)
  {
    FirstNameChar(s, i, index, acc);
    NameRun(s, i + 1, j, [s[i]], index, acc);
    SliceCons(s, i, j);
  }

  /** The characters of a valid name in place. */
  lemma NameChars(s: string, i: nat, name: string)
    requires ValidName(name) && i + |name| <= |s| && s[i..i + |name|] == name
    ensures forall k :: i <= k < i + |name| ==> IsNameChar(s[k])
  {
    forall k | i <= k < i + |name| ensures IsNameChar(s[k]) {
      assert s[k] == s[i..i + |name|][k - i];
    }
  }

  /** Reading an index in brackets after a name: `s[q..p]` is the
      index text. */
  lemma IndexPartRun(s: string, q: nat, p: nat, name: string, v: nat, index: int, acc: seq<Sexp>)
    requires ValidName(name) && p == q + |DecimalString(v)| + 2 && p <= |s|
    requires s[q] == '[' && s[q + 1..p - 1] == DecimalString(v) && s[p - 1] == ']'
    ensures Run(s, q, CharDotBracketOrEnd, name, index, acc) == Run(s, p, DotOrEnd, [], v, acc + [Sexp(name, v)])
  {
    DigitsRun(s, q + 1, p - 1, name, acc);
    DecValueOfDecimalString(v);
  }

  /** The pieces of a part with an index, written from `i` to `p`. */
  lemma IndexedText(s: string, i: nat, p: nat, e: Sexp)
    requires e.index >= 0 && p == i + |PartText(e)| <= |s| && s[i..p] == PartText(e)
    ensures p == i + |e.name| + |DecimalString(e.index)| + 2
    ensures s[i..i + |e.name|] == e.name && s[i + |e.name|] == '['
    ensures s[i + |e.name| + 1..p - 1] == DecimalString(e.index) && s[p - 1] == ']'
  {
    var n := |e.name|;
    var d := DecimalString(e.index);
    var t := PartText(e);
    assert t == e.name + "[" + d + "]";
    SliceOfSlice(s, i, p, 0, n);
    assert t[0..n] == e.name;
    assert s[i + n] == s[i..p][n] == t[n];
    SliceOfSlice(s, i, p, n + 1, n + 1 + |d|);
    assert t[n + 1..n + 1 + |d|] == d;
    assert s[p - 1] == s[i..p][n + 1 + |d|] == t[n + 1 + |d|];
  }

  /** Reading a part with an index, written by `json_print_exp`, from
      `i` to `p`. */
  lemma IndexedPartRun(s: string, i: nat, p: nat, e: Sexp, index: int, acc: seq<Sexp>)
    requires ValidName(e.name) && e.index >= 0
    requires p == i + |PartText(e)| <= |s| && s[i..p] == PartText(e)
    ensures Run(s, i, ExpChar, [], index, acc) == Run(s, p, DotOrEnd, [], e.index, acc + [e])
  {
    var q := i + |e.name|;
    IndexedText(s, i, p, e);
    NameChars(s, i, e.name);
    NamePartRun(s, i, q, index, acc);
    IndexPartRun(s, q, p, e.name, e.index, index, acc);
  }

  /** A part followed by the end of the text ends the path. */
  lemma PartEnd(s: string, i: nat, p: nat, e: Sexp, index: int, acc: seq<Sexp>)
    requires ValidName(e.name) && e.index >= -1
    requires p == i + |PartText(e)| == |s| && s[i..p] == PartText(e)
    ensures Run(s, i, ExpChar, [], index, acc) == Some(acc + [e])
  {
    if e.index >= 0 {
      IndexedPartRun(s, i, p, e, index, acc);
    } else {
      NameChars(s, i, e.name);
      NamePartRun(s, i, i + |e.name|, index, acc);
      assert e == Sexp(e.name, -1);
    }
  }

  /** A part followed by a separator: the run goes on after it with the
      part added. */
  lemma PartDot(s: string, i: nat, p: nat, e: Sexp, index: int, acc: seq<Sexp>)
    requires ValidName(e.name) && e.index >= -1
    requires p == i + |PartText(e)| < |s| && s[i..p] == PartText(e) && s[p] == '.'
    ensures Run(s, i, ExpChar, [], index, acc)
         == Run(s, p + 1, ExpChar, [], NextIndex(e, index), acc + [e])
  {
    if e.index >= 0 {
      IndexedPartRun(s, i, p, e, index, acc);
    } else {
      NameChars(s, i, e.name);
      NamePartRun(s, i, i + |e.name|, index, acc);
      assert e == Sexp(e.name, -1);
    }
  }

  /** Where the first part of a printed path ends. */
  lemma PrintedFirst(s: string, i: nat, es: seq<Sexp>)
    requires |es| > 0 && i <= |s| && s[i..] == Print(es)
    ensures i + |PartText(es[0])| <= |s| && s[i..i + |PartText(es[0])|] == PartText(es[0])
    ensures |es| == 1 ==> i + |PartText(es[0])| == |s|
  {
    var t := PartText(es[0]);
    assert s[i..][..|t|] == Print(es)[..|t|];
  }

  /** What follows the first part of a printed path of several parts. */
  lemma PrintedRest(s: string, i: nat, es: seq<Sexp>)
    requires |es| > 1 && i <= |s| && s[i..] == Print(es)
    ensures i + |PartText(es[0])| < |s| && s[i + |PartText(es[0])|] == '.'
    ensures s[i + |PartText(es[0])| + 1..] == Print(es[1..])
  {
    var t := PartText(es[0]);
    var p := i + |t|;
    assert Print(es) == t + "." + Print(es[1..]);
    assert s[p] == s[i..][|t|];
    assert s[p + 1..] == s[i..][|t| + 1..];
  }

  lemma ValidPathRest(es: seq<Sexp>)
    requires |es| > 1 && ValidPath(es)
    ensures ValidPath(es[1..]) && ValidName(es[0].name) && es[0].index >= -1
  {
    assert forall k :: 0 <= k < |es| - 1 ==> es[1..][k] == es[k + 1];
  }

  /** The index the run carries on with after a part. */
  function NextIndex(e: Sexp, index: int): int {
    if e.index >= 0 then e.index else index
  }

  /** Reading the first part of a printed path of one part. */
  lemma PathLast(s: string, i: nat, es: seq<Sexp>, index: int, acc: seq<Sexp>)
    requires |es| == 1 && ValidPath(es) && i <= |s| && s[i..] == Print(es)
    ensures Run(s, i, ExpChar, [], index, acc) == Some(acc + es)
  {
    PrintedFirst(s, i, es);
    PartEnd(s, i, i + |PartText(es[0])|, es[0], index, acc);
    assert es == [es[0]];
  }

  /** Reading the first part of a printed path of several parts and the
      separator after it. */
  lemma PathStep(s: string, i: nat, es: seq<Sexp>, index: int, acc: seq<Sexp>) returns (q: nat)
    requires |es| > 1 && ValidPath(es) && i <= |s| && s[i..] == Print(es)
    ensures q <= |s| && s[q..] == Print(es[1..]) && ValidPath(es[1..])
    ensures Run(s, i, ExpChar, [], index, acc) == Run(s, q, ExpChar, [], NextIndex(es[0], index), acc + [es[0]])
  {
    var p := i + |PartText(es[0])|;
    PrintedFirst(s, i, es);
    PrintedRest(s, i, es);
    ValidPathRest(es);
    PartDot(s, i, p, es[0], index, acc);
    q := p + 1;
  }

  /** Reading a whole path written by `json_print_exp` gives its parts. */
  lemma {:induction false} PathRun(s: string, i: nat, es: seq<Sexp>, index: int, acc: seq<Sexp>)
    requires ValidPath(es) && i <= |s| && s[i..] == Print(es)
    ensures Run(s, i, ExpChar, [], index, acc) == Some(acc + es)
    decreases |es|
  {
    if |es| == 1 {
      PathLast(s, i, es, index, acc);
    } else {
      var q := PathStep(s, i, es, index, acc);
      PathRun(s, q, es[1..], NextIndex(es[0], index), acc + [es[0]]);
      assert (acc + [es[0]]) + es[1..] == acc + es by {
        assert es == [es[0]] + es[1..];
      }
    }
  }

  /** What `json_print_exp` writes of a path, `json_parse_exp` reads back
      as the same path. */
  lemma ParsePrint(es: seq<Sexp>)
    requires ValidPath(es)
    ensures Parse(Print(es)) == Some(es)
  {
    var s := Print(es);
    assert s[0..] == s;
    PathRun(s, 0, es, 0, []);
    assert [] + es == es;
  }

  /** The facts the run keeps about its parts and the name it reads. */
  predicate RunInv(st: ExpState, name: string, index: int, acc: seq<Sexp>) {
    ValidParts(acc) && |name| < BUFLEN && (forall j :: 0 <= j < |name| ==> IsNameChar(name[j])) &&
    (st == CharDotBracketOrEnd || st == ExpDigit || st == DigitOrBracket ==> |name| > 0) &&
    (st == ExpDigit || st == DigitOrBracket ==> index >= 0) &&
    (st == DotOrEnd ==> |acc| > 0)
  }

  lemma {:induction false} RunValid(s: string, i: nat, st: ExpState, name: string, index: int, acc: seq<Sexp>)
    requires i <= |s| && RunInv(st, name, index, acc)
    ensures Run(s, i, st, name, index, acc).Some? ==> ValidPath(Run(s, i, st, name, index, acc).value)
    decreases |s| - i
  {
    var c := CharAt(s, i);
    match st
    case ExpChar =>
      if IsNameChar(c) && |name| + 1 != BUFLEN {
        RunValid(s, i + 1, CharDotBracketOrEnd, name + [c], index, acc);
      }
    case CharDotBracketOrEnd =>
      if IsNameChar(c) {
        if |name| + 1 != BUFLEN {
          RunValid(s, i + 1, CharDotBracketOrEnd, name + [c], index, acc);
        }
      } else if IsDot(c) {
        RunValid(s, i + 1, ExpChar, [], index, acc + [Sexp(name, -1)]);
      } else if c == '[' {
        RunValid(s, i + 1, ExpDigit, name, 0, acc);
      }
    case ExpDigit =>
      if IsDigit(c) {
        RunValid(s, i + 1, DigitOrBracket, name, 10 * index + DigitValue(c), acc);
      }
    case DigitOrBracket =>
      if IsDigit(c) {
        RunValid(s, i + 1, DigitOrBracket, name, 10 * index + DigitValue(c), acc);
      } else if c == ']' {
        RunValid(s, i + 1, DotOrEnd, [], index, acc + [Sexp(name, index)]);
      }
    case DotOrEnd =>
      if IsDot(c) {
        RunValid(s, i + 1, ExpChar, [], index, acc);
      }
  }

  /** Whatever `json_parse_exp` returns is a path: at least one part, each
      with a name of 1 to 127 name characters and an index or -1. */
  lemma ParsedIsPath(s: string)
    ensures Parse(s).Some? ==> ValidPath(Parse(s).value)
  {
    RunValid(s, 0, ExpChar, [], 0, []);
  }

  /** A name of 128 characters or more does not fit the buffer: NULL. */
  lemma LongNameRefused(s: string)
    requires |s| >= BUFLEN && forall j :: 0 <= j < BUFLEN ==> IsNameChar(s[j])
    ensures Parse(s) == None
  {
    assert [] + [s[0]] == [s[0]];
    NameRun(s, 1, BUFLEN - 1, [s[0]], 0, []);
  }
}
