/**
 * The number automaton of the JSON lexer, src/json.c: the states and
 * inputs of `_numtrans`, the accepting states of `_endstate` and
 * `json_numinput`.
 *
 * The automaton is compared with the grammar of numbers in section 6
 * of RFC 8259:
 *
 *   number = [ "-" ] int [ frac ] [ exp ]
 *   int    = "0" / ( digit1-9 *DIGIT )
 *   frac   = "." 1*DIGIT
 *   exp    = ( "e" / "E" ) [ "-" / "+" ] 1*DIGIT
 */
module JsonNumber {
  import opened Common

  /** The states of `_numtrans`; the C names list the positions of the
      diagram each stands for. */
  datatype NumState =
    | Error        // _error
    | Start        // _0_1: nothing read yet
    | AfterMinus   // _1: the sign
    | AfterZero    // _2_6_10: a leading 0
    | IntDigits    // _2_3_6_10: an integer part starting with 1-9
    | AfterE       // _7_8: the exponent marker
    | ExpSign      // _7: the sign of the exponent
    | ExpDigits    // _9_10: exponent digits
    | AfterDot     // _4: the decimal point
    | FracDigits   // _5_6_10: fraction digits

  /** The input classes of `json_numinput`. */
  datatype NumInput = Other | Minus | Plus | Zero | Digit19 | Dot | Exp

  /** `json_numinput`. */
  function InputOf(c: char): NumInput {
    if '1' <= c <= '9' then Digit19
    else if c == '0' then Zero
    else if c == '.' then Dot
    else if c == '-' then Minus
    else if c == '+' then Plus
    else if c == 'e' || c == 'E' then Exp
    else Other
  }

  /** `_numtrans[st][inp]`. */
  function Trans(st: NumState, inp: NumInput): NumState {
    match st
    case Error => Error
    case Start =>
      if inp == Minus then AfterMinus else if inp == Zero then AfterZero
      else if inp == Digit19 then IntDigits else Error
    case AfterMinus =>
      if inp == Zero then AfterZero else if inp == Digit19 then IntDigits else Error
    case AfterZero =>
      if inp == Dot then AfterDot else if inp == Exp then AfterE else Error
    case IntDigits =>
      if inp == Zero || inp == Digit19 then IntDigits
      else if inp == Dot then AfterDot else if inp == Exp then AfterE else Error
    case AfterE =>
      if inp == Minus || inp == Plus then ExpSign
      else if inp == Zero || inp == Digit19 then ExpDigits else Error
    case ExpSign =>
      if inp == Zero || inp == Digit19 then ExpDigits else Error
    case ExpDigits =>
      if inp == Zero || inp == Digit19 then ExpDigits else Error
    case AfterDot =>
      if inp == Zero || inp == Digit19 then FracDigits else Error
    case FracDigits =>
      if inp == Zero || inp == Digit19 then FracDigits
      else if inp == Exp then AfterE else Error
  }

  /** `_endstate`: the states in which what was read is a number. */
  predicate IsEnd(st: NumState) {
    st == AfterZero || st == IntDigits || st == ExpDigits || st == FracDigits
  }

  /** The state reached from `st` by reading `s` from position `i`. */
  function RunFrom(st: NumState, s: string, i: nat): NumState
    requires i <= |s|
    decreases |s| - i
  {
    if i == |s| then st else RunFrom(Trans(st, InputOf(s[i])), s, i + 1)
  }

  /** The automaton, started in `_0_1`, ends in an accepting state on `s`. */
  predicate Accepts(s: string) {
    IsEnd(RunFrom(Start, s, 0))
  }

  /** The end of `int` when it starts at `i`, or `None`. */
  function IntEnd(s: string, i: nat): (r: Option<nat>)
    requires i <= |s|
    ensures r.Some? ==> i < r.value <= |s|
  {
    if i < |s| && s[i] == '0' then Some(i + 1)
    else if i < |s| && '1' <= s[i] <= '9' then Some(DigitsEnd(s, i + 1))
    else None
  }

  /** The end of an optional `frac` at `j`, or `None` for a point without
      digits. */
  function FracEnd(s: string, j: nat): (r: Option<nat>)
    requires j <= |s|
    ensures r.Some? ==> j <= r.value <= |s|
  {
    if j < |s| && s[j] == '.' then
      var l := DigitsEnd(s, j + 1);
      if l > j + 1 then Some(l) else None
    else Some(j)
  }

  /** The end of an optional `exp` at `k`, or `None` for an exponent
      marker without digits. */
  function ExpEnd(s: string, k: nat): (r: Option<nat>)
    requires k <= |s|
    ensures r.Some? ==> k <= r.value <= |s|
  {
    if k < |s| && (s[k] == 'e' || s[k] == 'E') then
      var m := if k + 1 < |s| && (s[k + 1] == '+' || s[k + 1] == '-') then k + 2 else k + 1;
      var l := DigitsEnd(s, m);
      if l > m then Some(l) else None
    else Some(k)
  }

  /** `[ frac ] [ exp ]` from `j` fills the rest of `s`. */
  predicate FracExpRest(s: string, j: nat)
    requires j <= |s|
  {
    match FracEnd(s, j)
    case None => false
    case Some(k) => ExpEnd(s, k) == Some(|s|)
  }

  /** `int [ frac ] [ exp ]` from `i` fills the rest of `s`. */
  predicate IntRest(s: string, i: nat)
    requires i <= |s|
  {
    match IntEnd(s, i)
    case None => false
    case Some(j) => FracExpRest(s, j)
  }

  /** `s` is a `number` of section 6 of RFC 8259. */
  predicate IsJsonNumber(s: string) {
    IntRest(s, if 0 < |s| && s[0] == '-' then 1 else 0)
  }

  /** Nothing leads out of `_error`. */
  lemma {:induction false} ErrorStays(s: string, i: nat)
    requires i <= |s|
    ensures RunFrom(Error, s, i) == Error
    decreases |s| - i
  {
    if i < |s| {
      ErrorStays(s, i + 1);
    }
  }

  /** An input the state has no transition for rejects the rest. */
  lemma StopAt(st: NumState, s: string, j: nat)
    requires j < |s| && Trans(st, InputOf(s[j])) == Error
    ensures RunFrom(st, s, j) == Error
  {
    ErrorStays(s, j + 1);
  }

  /** The states that loop on digits pass over a run of them. */
  lemma {:induction false} DigitLoop(st: NumState, s: string, i: nat)
    requires st == IntDigits || st == ExpDigits || st == FracDigits
    requires i <= |s|
    ensures RunFrom(st, s, i) == RunFrom(st, s, DigitsEnd(s, i))
    decreases |s| - i
  {
    if i < |s| && IsDigit(s[i]) {
      assert Trans(st, InputOf(s[i])) == st;
      DigitLoop(st, s, i + 1);
    }
  }

  /** Exponent digits from `m`: accepted iff digits fill the rest. */
  lemma ExpDigitsTail(s: string, m: nat)
    requires m <= |s|
    ensures IsEnd(RunFrom(ExpDigits, s, m)) <==> DigitsEnd(s, m) == |s|
  {
    DigitLoop(ExpDigits, s, m);
    var l := DigitsEnd(s, m);
    if l < |s| {
      StopAt(ExpDigits, s, l);
    }
  }

  /** After the sign of the exponent at `j`. */
  lemma ExpSignTail(s: string, j: nat)
    requires j < |s| && (s[j] == '+' || s[j] == '-')
    ensures IsEnd(RunFrom(ExpSign, s, j + 1)) <==> DigitsEnd(s, j + 1) > j + 1 && DigitsEnd(s, j + 1) == |s|
  {
    if j + 1 < |s| {
      if IsDigit(s[j + 1]) {
        ExpDigitsTail(s, j + 2);
      } else {
        StopAt(ExpSign, s, j + 1);
      }
    }
  }

  /** After the exponent marker at `k`. */
  lemma AfterETail(s: string, k: nat)
    requires k < |s| && (s[k] == 'e' || s[k] == 'E')
    ensures IsEnd(RunFrom(AfterE, s, k + 1)) <==> ExpEnd(s, k) == Some(|s|)
  {
    var j := k + 1;
    if j < |s| {
      if s[j] == '+' || s[j] == '-' {
        ExpSignTail(s, j);
      } else if IsDigit(s[j]) {
        ExpDigitsTail(s, j + 1);
      } else {
        StopAt(AfterE, s, j);
      }
    }
  }

  /** After the fraction digits, at `l`. */
  lemma FracTail(s: string, l: nat)
    requires l <= |s| && (l == |s| || !IsDigit(s[l]))
    ensures IsEnd(RunFrom(FracDigits, s, l)) <==> ExpEnd(s, l) == Some(|s|)
  {
    if l < |s| {
      if s[l] == 'e' || s[l] == 'E' {
        AfterETail(s, l);
      } else {
        StopAt(FracDigits, s, l);
      }
    }
  }

  /** After the decimal point at `j`. */
  lemma AfterDotTail(s: string, j: nat)
    requires j < |s| && s[j] == '.'
    ensures IsEnd(RunFrom(AfterDot, s, j + 1)) <==> FracExpRest(s, j)
  {
    if j + 1 < |s| {
      if IsDigit(s[j + 1]) {
        DigitLoop(FracDigits, s, j + 2);
        FracTail(s, DigitsEnd(s, j + 2));
      } else {
        StopAt(AfterDot, s, j + 1);
      }
    }
  }

  /** After the integer part, at `j`. */
  lemma IntTail(s: string, j: nat, st: NumState)
    requires st == AfterZero || st == IntDigits
    requires j <= |s| && (st == IntDigits ==> j == |s| || !IsDigit(s[j]))
    ensures IsEnd(RunFrom(st, s, j)) <==> FracExpRest(s, j)
  {
    if j < |s| {
      if s[j] == '.' {
        AfterDotTail(s, j);
      } else if s[j] == 'e' || s[j] == 'E' {
        AfterETail(s, j);
      } else {
        StopAt(st, s, j);
      }
    }
  }

  /** From the start of the integer part, at `i`. */
  lemma IntHead(s: string, i: nat, st: NumState)
    requires st == Start || st == AfterMinus
    requires i <= |s| && (st == Start && i < |s| ==> s[i] != '-')
    ensures IsEnd(RunFrom(st, s, i)) <==> IntRest(s, i)
  {
    if i < |s| {
      if s[i] == '0' {
        IntTail(s, i + 1, AfterZero);
      } else if '1' <= s[i] <= '9' {
        DigitLoop(IntDigits, s, i + 1);
        IntTail(s, DigitsEnd(s, i + 1), IntDigits);
      } else {
        StopAt(st, s, i);
      }
    }
  }

  /** The automaton accepts exactly the numbers of RFC 8259: both
      directions. */
  lemma AcceptsJsonNumbers(s: string)
    ensures Accepts(s) <==> IsJsonNumber(s)
  {
    if 0 < |s| && s[0] == '-' {
      IntHead(s, 1, AfterMinus);
    } else {
      IntHead(s, 0, Start);
    }
  }
}
