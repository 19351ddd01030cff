/**
 * Whole tokens of the JSON lexer of src/json.c: the step functions of
 * `JsonLexer` run over a text, one character at a time, up to the point
 * where `json_parser_feed_one` hands a token to the parser or a feeding
 * function fails. The lemmas give the outcome for strings with their
 * escapes, for the keywords and for numbers, and compare each with a
 * reference reading of the text.
 */
module JsonTokens {
  import opened Common
  import opened JsonNumber
  import opened JsonLexer

  /** Where the lexer stops: its state, the last result and the position
      after the last character it read. */
  datatype Lexed = Lexed(lex: Lex, r: int, at: nat)

  /** `s[i..]` fed to the lexer until a token is produced or a result is
      not `k_continue`; the token handler that `json_parser_feed_one`
      would call then is not run. */
  function LexFrom(l: Lex, s: seq<Octet>, i: nat): (f: Lexed)
    requires Consistent(l) && i <= |s|
    decreases |s| - i
  {
    if i == |s| then Lexed(l, K_CONTINUE, i)
    else
      OneStepConsistent(l, s[i]);
      var f := OneStep(l, s[i]);
      if f.r != K_CONTINUE || f.lex.token != NoToken then Lexed(f.lex, f.r, i + 1)
      else LexFrom(f.lex, s, i + 1)
  }

  /** A step that produces nothing goes on with the next character. */
  lemma LexOn(l: Lex, s: seq<Octet>, i: nat)
    requires Consistent(l) && i < |s|
    requires OneStep(l, s[i]).r == K_CONTINUE && OneStep(l, s[i]).lex.token == NoToken
    ensures Consistent(OneStep(l, s[i]).lex)
    ensures LexFrom(l, s, i) == LexFrom(OneStep(l, s[i]).lex, s, i + 1)
  {
    OneStepConsistent(l, s[i]);
  }

  // ---- Strings ----

  /** The code unit of four hex digits. */
  function Hex4(s: seq<Octet>, i: nat): (u: int)
    requires i + 4 <= |s|
    ensures 0 <= u <= 0xffff
  {
    ((HexValue(s[i]) * 16 + HexValue(s[i + 1])) * 16 + HexValue(s[i + 2])) * 16 + HexValue(s[i + 3])
  }

  /** The bytes a string body stands for and the position after its
      closing quote. */
  datatype Decoded = Decoded(text: seq<Octet>, end: nat)

  function Prepend(t: seq<Octet>, r: Option<Decoded>): Option<Decoded> {
    match r
    case None => None
    case Some(d) => Some(Decoded(t + d.text, d.end))
  }

  /** Reference reading of a string body from `i` up to the quote `q`:
      `\uXXXX` is the UTF-8 encoding of the code unit, a backslash before
      any other character is `Escaped` of it, and every other character
      stands for itself. `None` when the text ends first. */
  function Unescape(s: seq<Octet>, i: nat, q: Octet): (r: Option<Decoded>)
    requires i <= |s|
    ensures r.Some? ==> i < r.value.end <= |s|
    decreases |s| - i
  {
    if i == |s| then None
    else if s[i] == '\\' then
      if i + 1 == |s| then None
      else if s[i + 1] == 'u' then
        if i + 6 > |s| then None else Prepend(Utf8(Hex4(s, i + 2)), Unescape(s, i + 6, q))
      else Prepend([Escaped(s[i + 1])], Unescape(s, i + 2, q))
    else if s[i] == q then Some(Decoded([], i + 1))
    else Prepend([s[i]], Unescape(s, i + 1, q))
  }

  /** Inside a string, outside an escape. */
  predicate InBody(l: Lex) {
    Consistent(l) && l.sw == InString && l.unicode == 0 && !l.backslash && l.token == NoToken
  }

  /** A character other than a backslash or the quote is copied. */
  lemma PlainChar(l: Lex, s: seq<Octet>, i: nat)
    requires InBody(l) && i < |s| && s[i] != '\\' && s[i] != l.quote
    ensures InBody(Appended(l, s[i]))
    ensures LexFrom(l, s, i) == LexFrom(Appended(l, s[i]), s, i + 1)
  {
    assert l.(token := NoToken) == l;
    LexOn(l, s, i);
  }

  /** The quote ends the string: the buffer is terminated and the
      string token produced. */
  lemma CloseQuote(l: Lex, s: seq<Octet>, i: nat)
    requires InBody(l) && i < |s| && s[i] != '\\' && s[i] == l.quote
    ensures LexFrom(l, s, i) == Lexed(Appended(l, '\0').(sw := InJson, token := StringToken), K_CONTINUE, i + 1)
  {
    assert l.(token := NoToken) == l;
    OneStepConsistent(l, s[i]);
  }

  /** A backslash followed by another character than `u`. */
  lemma EscapedChar(l: Lex, s: seq<Octet>, i: nat)
    requires InBody(l) && i + 1 < |s| && s[i] == '\\' && s[i + 1] != 'u'
    ensures InBody(Appended(l, Escaped(s[i + 1])))
    ensures LexFrom(l, s, i) == LexFrom(Appended(l, Escaped(s[i + 1])), s, i + 2)
  {
    assert l.(token := NoToken) == l;
    LexOn(l, s, i);
    var l1 := l.(backslash := true);
    assert l1.(token := NoToken) == l1;
    assert l1.(backslash := false) == l;
    LexOn(l1, s, i + 1);
  }

  /** One of the first three hex digits of an escape. */
  lemma HexDigit(l: Lex, s: seq<Octet>, i: nat, l1: Lex)
    requires Consistent(l) && l.sw == InString && l.token == NoToken && 1 <= l.unicode <= 3 && i < |s|
    requires l1 == l.(unicode := l.unicode + 1, unihex := if l.unicode == 1 then HexValue(s[i]) else l.unihex * 16 + HexValue(s[i]))
    ensures Consistent(l1) && LexFrom(l, s, i) == LexFrom(l1, s, i + 1)
  {
    assert l.(token := NoToken) == l;
    LexOn(l, s, i);
  }

  /** Appending does not touch the escape counter. */
  lemma {:induction false} AppendAllUnicode(l: Lex, t: seq<Octet>, k: int)
    ensures AppendAll(l, t).(unicode := k) == AppendAll(l.(unicode := k), t)
    decreases |t|
  {
    if |t| > 0 {
      assert Appended(l, t[0]).(unicode := k) == Appended(l.(unicode := k), t[0]);
      AppendAllUnicode(Appended(l, t[0]), t[1..], k);
    }
  }

  /** The step on the last hex digit of an escape. */
  lemma LastHexStep(l: Lex, c: Octet, u: int)
    requires Consistent(l) && l.sw == InString && l.token == NoToken && l.unicode == 4
    requires u == l.unihex * 16 + HexValue(c)
    ensures 0 <= u <= 0xffff
    ensures OneStep(l, c) == Fed(AppendAll(l.(unicode := 0, unihex := u), Utf8(u)), K_CONTINUE)
  {
    assert l.(token := NoToken) == l;
    AppendAllUnicode(l.(unihex := u), Utf8(u), 0);
    assert l.(unihex := u).(unicode := 0) == l.(unicode := 0, unihex := u);
  }

  /** The last hex digit of an escape writes the code unit. */
  lemma LastHexDigit(l: Lex, s: seq<Octet>, i: nat, u: int)
    requires Consistent(l) && l.sw == InString && l.token == NoToken && !l.backslash && l.unicode == 4 && i < |s|
    requires u == l.unihex * 16 + HexValue(s[i])
    ensures 0 <= u <= 0xffff
    ensures InBody(AppendAll(l.(unicode := 0, unihex := u), Utf8(u)))
    ensures LexFrom(l, s, i) == LexFrom(AppendAll(l.(unicode := 0, unihex := u), Utf8(u)), s, i + 1)
  {
    LastHexStep(l, s[i], u);
    AppendAllFields(l.(unicode := 0, unihex := u), Utf8(u));
    LexOn(l, s, i);
  }

  /** A backslash and `u` open an escape. */
  lemma OpenUnicode(l: Lex, s: seq<Octet>, i: nat)
    requires InBody(l) && i + 1 < |s| && s[i] == '\\' && s[i + 1] == 'u'
    ensures Consistent(l.(unicode := 1))
    ensures LexFrom(l, s, i) == LexFrom(l.(unicode := 1), s, i + 2)
  {
    assert l.(token := NoToken) == l;
    LexOn(l, s, i);
    var l1 := l.(backslash := true);
    assert l1.(token := NoToken) == l1;
    LexOn(l1, s, i + 1);
    assert OneStep(l1, s[i + 1]).lex == l.(unicode := 1);
  }

  /** The first three hex digits. */
  lemma ThreeHexDigits(l: Lex, s: seq<Octet>, i: nat)
    requires InBody(l.(unicode := 0)) && l.unicode == 1 && i + 3 <= |s|
    ensures Consistent(l.(unicode := 4, unihex := (HexValue(s[i]) * 16 + HexValue(s[i + 1])) * 16 + HexValue(s[i + 2])))
    ensures LexFrom(l, s, i) == LexFrom(l.(unicode := 4, unihex := (HexValue(s[i]) * 16 + HexValue(s[i + 1])) * 16 + HexValue(s[i + 2])), s, i + 3)
  {
    var h0 := HexValue(s[i]);
    var l2 := l.(unicode := 2, unihex := h0);
    HexDigit(l, s, i, l2);
    var h1 := h0 * 16 + HexValue(s[i + 1]);
    var l3 := l.(unicode := 3, unihex := h1);
    HexDigit(l2, s, i + 1, l3);
    var h2 := h1 * 16 + HexValue(s[i + 2]);
    var l4 := l.(unicode := 4, unihex := h2);
    HexDigit(l3, s, i + 2, l4);
  }

  /** `\uXXXX` appends the UTF-8 bytes of the code unit. */
  lemma EscapedUnicode(l: Lex, s: seq<Octet>, i: nat)
    requires InBody(l) && i + 6 <= |s| && s[i] == '\\' && s[i + 1] == 'u'
    ensures InBody(AppendAll(l.(unihex := Hex4(s, i + 2)), Utf8(Hex4(s, i + 2))))
    ensures LexFrom(l, s, i) == LexFrom(AppendAll(l.(unihex := Hex4(s, i + 2)), Utf8(Hex4(s, i + 2))), s, i + 6)
  {
    OpenUnicode(l, s, i);
    var l2 := l.(unicode := 1);
    assert l2.(unicode := 0) == l;
    ThreeHexDigits(l2, s, i + 2);
    var h2 := (HexValue(s[i + 2]) * 16 + HexValue(s[i + 3])) * 16 + HexValue(s[i + 4]);
    var l5 := l.(unicode := 4, unihex := h2);
    assert l2.(unicode := 4, unihex := h2) == l5;
    LastHexDigit(l5, s, i + 5, Hex4(s, i + 2));
    assert l5.(unicode := 0, unihex := Hex4(s, i + 2)) == l.(unihex := Hex4(s, i + 2));
  }

  /** The string token was produced at `end`: the buffer has `t` added
      and terminated, the lexer is back between tokens, and nothing else
      changed but the allocation size and `unihex`. */
  predicate Finished(l: Lex, f: Lexed, t: seq<Octet>, end: nat) {
    f.r == K_CONTINUE && f.at == end &&
    f.lex.buf == l.buf + t + ['\0'] && f.lex.sw == InJson && f.lex.token == StringToken &&
    f.lex.unicode == 0 && !f.lex.backslash && f.lex.quote == l.quote && f.lex.numstate == l.numstate &&
    f.lex.errorCode == l.errorCode && f.lex.unwind == l.unwind
  }

  /** The text ended inside the string: no token and no error. */
  predicate Unfinished(f: Lexed, s: seq<Octet>) {
    f.r == K_CONTINUE && f.at == |s| && f.lex.token == NoToken && f.lex.sw == InString
  }

  lemma FinishedShift(l: Lex, x: int, t0: seq<Octet>, t: seq<Octet>, end: nat, f: Lexed)
    requires Finished(AppendAll(l.(unihex := x), t0), f, t, end)
    ensures Finished(l, f, t0 + t, end)
  {
    AppendAllFields(l.(unihex := x), t0);
    assert l.buf + t0 + t + ['\0'] == l.buf + (t0 + t) + ['\0'];
  }

  /** The text ends inside a `\\u` escape. */
  lemma {:induction false} PartialEscape(l: Lex, s: seq<Octet>, i: nat)
    requires Consistent(l) && l.sw == InString && l.token == NoToken && 1 <= l.unicode <= 4
    requires i <= |s| && i + 5 - l.unicode > |s|
    ensures Unfinished(LexFrom(l, s, i), s)
    decreases |s| - i
  {
    if i < |s| {
      var l1 := l.(unicode := l.unicode + 1, unihex := if l.unicode == 1 then HexValue(s[i]) else l.unihex * 16 + HexValue(s[i]));
      HexDigit(l, s, i, l1);
      PartialEscape(l1, s, i + 1);
    }
  }

  /** Fed the body of a string, the lexer produces the string token
      exactly when `Unescape` finds the closing quote, at the position
      after it, with the decoded bytes and a terminating 0 added to the
      buffer; otherwise the text ends with neither a token nor an
      error. */
  lemma {:induction false} StringFrom(l: Lex, s: seq<Octet>, i: nat)
    requires InBody(l) && i <= |s|
    ensures Unescape(s, i, l.quote).Some? ==>
      Finished(l, LexFrom(l, s, i), Unescape(s, i, l.quote).value.text, Unescape(s, i, l.quote).value.end)
    ensures Unescape(s, i, l.quote).None? ==> Unfinished(LexFrom(l, s, i), s)
    decreases |s| - i
  {
    if i == |s| {
    } else if s[i] == '\\' {
      if i + 1 == |s| {
        assert l.(token := NoToken) == l;
        LexOn(l, s, i);
      } else if s[i + 1] == 'u' {
        if i + 6 > |s| {
          OpenUnicode(l, s, i);
          PartialEscape(l.(unicode := 1), s, i + 2);
        } else {
          var u := Hex4(s, i + 2);
          EscapedUnicode(l, s, i);
          StringFrom(AppendAll(l.(unihex := u), Utf8(u)), s, i + 6);
          AppendAllFields(l.(unihex := u), Utf8(u));
          if Unescape(s, i + 6, l.quote).Some? {
            var d := Unescape(s, i + 6, l.quote).value;
            FinishedShift(l, u, Utf8(u), d.text, d.end, LexFrom(l, s, i));
          }
        }
      } else {
        var e := Escaped(s[i + 1]);
        EscapedChar(l, s, i);
        StringFrom(Appended(l, e), s, i + 2);
        if Unescape(s, i + 2, l.quote).Some? {
          var d := Unescape(s, i + 2, l.quote).value;
          AppendOne(l.(unihex := l.unihex), e);
          FinishedShift(l, l.unihex, [e], d.text, d.end, LexFrom(l, s, i));
        }
      }
    } else if s[i] == l.quote {
      CloseQuote(l, s, i);
    } else {
      PlainChar(l, s, i);
      StringFrom(Appended(l, s[i]), s, i + 1);
      if Unescape(s, i + 1, l.quote).Some? {
        var d := Unescape(s, i + 1, l.quote).value;
        AppendOne(l.(unihex := l.unihex), s[i]);
        FinishedShift(l, l.unihex, [s[i]], d.text, d.end, LexFrom(l, s, i));
      }
    }
  }

  /** Between tokens, outside any escape. */
  predicate Between(l: Lex) {
    Consistent(l) && l.sw == InJson && l.unicode == 0 && !l.backslash
  }

  /** A character that starts no token. */
  predicate StartsNothing(c: Octet) {
    !IsWhite(c) && PunctToken(c).None? && c != '"' && c != '\'' &&
    c != 't' && c != 'f' && c != 'n' && !IsNumberStart(c) && c != '\0'
  }

  /** Between tokens, white space is skipped. */
  lemma LexWhite(l: Lex, s: seq<Octet>, i: nat)
    requires Between(l) && i < |s| && IsWhite(s[i])
    ensures Between(l.(token := NoToken)) && LexFrom(l, s, i) == LexFrom(l.(token := NoToken), s, i + 1)
  {
    assert JsonStep(l.(token := NoToken), s[i]) == Fed(l.(token := NoToken), K_CONTINUE);
    LexOn(l, s, i);
  }

  /** Between tokens, a brace, bracket, comma or colon is a token of its
      own. */
  lemma LexPunct(l: Lex, s: seq<Octet>, i: nat)
    requires Between(l) && i < |s| && PunctToken(s[i]).Some?
    ensures LexFrom(l, s, i) == Lexed(l.(token := PunctToken(s[i]).value), K_CONTINUE, i + 1)
  {
    assert JsonStep(l.(token := NoToken), s[i]) == Fed(l.(token := PunctToken(s[i]).value), K_CONTINUE);
    OneStepConsistent(l, s[i]);
  }

  /** Between tokens, a 0 byte ends the text, and a character that
      starts no token is the token error. */
  lemma LexStop(l: Lex, s: seq<Octet>, i: nat)
    requires Between(l) && i < |s|
    ensures s[i] == '\0' ==> LexFrom(l, s, i).r == K_END_OF_STRING && LexFrom(l, s, i).at == i + 1
    ensures StartsNothing(s[i]) ==> LexFrom(l, s, i).r == K_TOKEN_ERROR && LexFrom(l, s, i).at == i + 1
  {
    OneStepConsistent(l, s[i]);
  }

  /** A quote opens a string whose body follows: the string token is
      produced iff `Unescape` finds the same quote again. */
  lemma LexString(l: Lex, s: seq<Octet>, i: nat)
    requires Between(l) && i < |s| && (s[i] == '"' || s[i] == '\'')
    ensures Unescape(s, i + 1, s[i]).Some? ==>
      Finished(l.(quote := s[i]), LexFrom(l, s, i), Unescape(s, i + 1, s[i]).value.text, Unescape(s, i + 1, s[i]).value.end)
    ensures Unescape(s, i + 1, s[i]).None? ==> Unfinished(LexFrom(l, s, i), s)
  {
    var l1 := l.(quote := s[i], sw := InString, token := NoToken);
    assert OneStep(l, s[i]) == Fed(l1, K_CONTINUE);
    LexOn(l, s, i);
    StringFrom(l1, s, i + 1);
  }

  // ---- Keywords ----

  predicate InKeyword(sw: Switch) {
    sw == InTrue || sw == InFalse || sw == InNull
  }

  /** The keyword being read in each keyword state. */
  function Keyword(sw: Switch): seq<Octet> {
    match sw
    case InTrue => "true"
    case InFalse => "false"
    case InNull => "null"
    case _ => []
  }

  function KeywordToken(sw: Switch): Token {
    match sw
    case InTrue => TrueToken
    case InFalse => FalseToken
    case InNull => NullToken
    case _ => NoToken
  }

  /** The keyword state a first letter leads to. */
  function KeywordSwitch(c: Octet): Switch {
    if c == 't' then InTrue else if c == 'f' then InFalse else InNull
  }

  /** How many characters of `s` from `i` agree with `w` from `k`. */
  function Agreement(s: seq<Octet>, i: nat, w: seq<Octet>, k: nat): (m: nat)
    requires i <= |s| && k <= |w|
    ensures i + m <= |s| && k + m <= |w|
    decreases |s| - i
  {
    if i < |s| && k < |w| && s[i] == w[k] then 1 + Agreement(s, i + 1, w, k + 1) else 0
  }

  /** The fields a keyword leaves alone. */
  predicate Untouched(a: Lex, b: Lex) {
    a.backslash == b.backslash && a.unicode == b.unicode && a.unihex == b.unihex &&
    a.numstate == b.numstate && a.quote == b.quote && a.unwind == b.unwind
  }

  lemma PrefixStep(w: seq<Octet>, k: nat, c: Octet)
    requires k < |w|
    ensures (w[..k] + [c] == w[..k + 1]) <==> c == w[k]
  {
    if c == w[k] {
      assert w[..k + 1] == w[..k] + [w[k]];
    } else {
      assert (w[..k] + [c])[k] != w[..k + 1][k];
    }
  }

  /** One letter of a keyword: the step of the keyword state. */
  lemma KeywordLetter(l: Lex, c: Octet)
    requires Consistent(l) && InKeyword(l.sw) && |l.buf| < |Keyword(l.sw)| && l.buf == Keyword(l.sw)[..|l.buf|]
    ensures var f := OneStep(l, c); var w := Keyword(l.sw); var k := |l.buf|;
      Untouched(f.lex, l) && f.lex.errorCode == (if c == w[k] then l.errorCode else K_TOKEN_ERROR) &&
      (c == w[k] && k + 1 < |w| ==> f == Fed(Appended(l.(token := NoToken), c), K_CONTINUE)) &&
      (c == w[k] && k + 1 == |w| ==> f.r == K_CONTINUE && f.lex.buf == [] && f.lex.sw == InJson && f.lex.token == KeywordToken(l.sw)) &&
      (c != w[k] ==> f.r == K_TOKEN_ERROR)
  {
    var w := Keyword(l.sw);
    var k := |l.buf|;
    PrefixStep(w, k, c);
    assert w[..k + 1] == w ==> k + 1 == |w|;
    assert k + 1 == |w| ==> w[..k + 1] == w;
  }

  /** The state inside a keyword whose first `|l.buf|` letters were
      read. */
  predicate InWord(l: Lex) {
    Consistent(l) && InKeyword(l.sw) && l.token == NoToken &&
    |l.buf| < |Keyword(l.sw)| && l.buf == Keyword(l.sw)[..|l.buf|]
  }

  /** A letter that continues the keyword without completing it. */
  lemma NextLetter(l: Lex, s: seq<Octet>, i: nat)
    requires InWord(l) && i < |s| && s[i] == Keyword(l.sw)[|l.buf|] && |l.buf| + 1 < |Keyword(l.sw)|
    ensures InWord(Appended(l, s[i])) && Untouched(Appended(l, s[i]), l)
    ensures Appended(l, s[i]).sw == l.sw && Appended(l, s[i]).errorCode == l.errorCode
    ensures Agreement(s, i, Keyword(l.sw), |l.buf|) == 1 + Agreement(s, i + 1, Keyword(l.sw), |l.buf| + 1)
    ensures LexFrom(l, s, i) == LexFrom(Appended(l, s[i]), s, i + 1)
  {
    KeywordLetter(l, s[i]);
    assert l.(token := NoToken) == l;
    PrefixStep(Keyword(l.sw), |l.buf|, s[i]);
    LexOn(l, s, i);
  }

  /** Inside a keyword, the token is produced, at the position after
      the word, iff the text agrees with the rest of the word; the buffer
      is then emptied. */
  lemma {:induction false} KeywordAccepted(l: Lex, s: seq<Octet>, i: nat)
    requires InWord(l) && i <= |s|
    requires |l.buf| + Agreement(s, i, Keyword(l.sw), |l.buf|) == |Keyword(l.sw)|
    ensures var f := LexFrom(l, s, i);
      f.r == K_CONTINUE && f.at == i + Agreement(s, i, Keyword(l.sw), |l.buf|) && f.lex.buf == [] && f.lex.sw == InJson &&
      f.lex.token == KeywordToken(l.sw) && f.lex.errorCode == l.errorCode && Untouched(f.lex, l)
    decreases |s| - i
  {
    var w := Keyword(l.sw);
    if |l.buf| + 1 < |w| {
      NextLetter(l, s, i);
      KeywordAccepted(Appended(l, s[i]), s, i + 1);
    } else {
      KeywordLetter(l, s[i]);
    }
  }

  /** The first letter that disagrees with the keyword is a token
      error. */
  lemma {:induction false} KeywordRefused(l: Lex, s: seq<Octet>, i: nat)
    requires InWord(l) && i <= |s|
    requires |l.buf| + Agreement(s, i, Keyword(l.sw), |l.buf|) < |Keyword(l.sw)|
    requires i + Agreement(s, i, Keyword(l.sw), |l.buf|) < |s|
    ensures LexFrom(l, s, i).r == K_TOKEN_ERROR && LexFrom(l, s, i).lex.token == NoToken
    ensures LexFrom(l, s, i).at == i + Agreement(s, i, Keyword(l.sw), |l.buf|) + 1
    decreases |s| - i
  {
    var w := Keyword(l.sw);
    if s[i] == w[|l.buf|] {
      NextLetter(l, s, i);
      KeywordRefused(Appended(l, s[i]), s, i + 1);
    } else {
      KeywordLetter(l, s[i]);
    }
  }

  /** A text that ends inside the keyword leaves the letters read in the
      buffer, with no token and no error. */
  lemma {:induction false} KeywordCut(l: Lex, s: seq<Octet>, i: nat)
    requires InWord(l) && i <= |s|
    requires |l.buf| + Agreement(s, i, Keyword(l.sw), |l.buf|) < |Keyword(l.sw)|
    requires i + Agreement(s, i, Keyword(l.sw), |l.buf|) == |s|
    ensures var f := LexFrom(l, s, i);
      f.r == K_CONTINUE && f.at == |s| && f.lex.token == NoToken && f.lex.sw == l.sw &&
      f.lex.buf == Keyword(l.sw)[..|l.buf| + |s| - i]
    decreases |s| - i
  {
    if i < |s| {
      NextLetter(l, s, i);
      KeywordCut(Appended(l, s[i]), s, i + 1);
    }
  }

  /** `Agreement` is the length of the longest common prefix, so the
      whole rest of the word agrees iff the text holds it. */
  lemma {:induction false} AgreementAll(s: seq<Octet>, i: nat, w: seq<Octet>, k: nat)
    requires i <= |s| && k <= |w|
    ensures k + Agreement(s, i, w, k) == |w| <==> i + (|w| - k) <= |s| && s[i..i + (|w| - k)] == w[k..]
    decreases |s| - i
  {
    if i < |s| && k < |w| && s[i] == w[k] {
      AgreementAll(s, i + 1, w, k + 1);
      assert w[k..] == [w[k]] + w[k + 1..];
      if i + (|w| - k) <= |s| {
        SliceCons(s, i, i + (|w| - k));
      }
    } else if k < |w| && i + (|w| - k) <= |s| {
      assert s[i..i + (|w| - k)][0] != w[k..][0];
    }
  }

  /** Between tokens, a keyword's first letter goes to the keyword's
      feeding function. */
  lemma KeywordDispatch(l: Lex, c: Octet)
    requires Consistent(l) && l.sw == InJson && (c == 't' || c == 'f' || c == 'n')
    ensures OneStep(l, c) ==
      KeywordStep(l.(token := NoToken, sw := KeywordSwitch(c)), c, Keyword(KeywordSwitch(c)), KeywordToken(KeywordSwitch(c)))
  {
    assert OneStep(l, c) == JsonStep(l.(token := NoToken), c);
    assert OneStep(l, c) == KeywordStart(l.(token := NoToken), c);
  }

  lemma FirstKeywordStep(l: Lex, c: Octet, w: seq<Octet>, tok: Token)
    requires l.buf == [] && |w| > 1 && w[0] == c
    ensures KeywordStep(l, c, w, tok) == Fed(Appended(l, c), K_CONTINUE)
  {
    assert Appended(l, c).buf == [c] == w[..1];
  }

  /** The first letter of a keyword, between tokens and with an empty
      buffer, enters the keyword state. */
  lemma FirstLetter(l: Lex, s: seq<Octet>, i: nat)
    requires Between(l) && l.buf == [] && i < |s| && (s[i] == 't' || s[i] == 'f' || s[i] == 'n')
    ensures var l1 := Appended(l.(token := NoToken, sw := KeywordSwitch(s[i])), s[i]);
      InWord(l1) && Untouched(l1, l) && l1.errorCode == l.errorCode &&
      Agreement(s, i, Keyword(l1.sw), 0) == 1 + Agreement(s, i + 1, Keyword(l1.sw), 1) &&
      LexFrom(l, s, i) == LexFrom(l1, s, i + 1)
  {
    var c := s[i];
    var sw := KeywordSwitch(c);
    var l1 := Appended(l.(token := NoToken, sw := sw), c);
    KeywordDispatch(l, c);
    FirstKeywordStep(l.(token := NoToken, sw := sw), c, Keyword(sw), KeywordToken(sw));
    LexOn(l, s, i);
  }

  /** The outcome of reading the keyword `w` whose first letter is at
      `i`, with the lexer at `f` afterwards. */
  predicate KeywordOutcome(f: Lexed, s: seq<Octet>, i: nat, w: seq<Octet>, tok: Token)
    requires i <= |s|
  {
    var m := Agreement(s, i, w, 0);
    (f.lex.token != NoToken <==> i + |w| <= |s| && s[i..i + |w|] == w) &&
    (f.lex.token != NoToken ==>
       f.lex.token == tok && f.r == K_CONTINUE && f.at == i + |w| && f.lex.buf == [] && f.lex.sw == InJson) &&
    (m < |w| && i + m < |s| ==> f.r == K_TOKEN_ERROR) &&
    (m < |w| && i + m == |s| ==> f.r == K_CONTINUE)
  }

  /** The rest of a keyword after its first letter at `i`. */
  lemma KeywordRest(l1: Lex, s: seq<Octet>, i: nat)
    requires InWord(l1) && |l1.buf| == 1 && i < |s| && s[i] == Keyword(l1.sw)[0]
    ensures KeywordOutcome(LexFrom(l1, s, i + 1), s, i, Keyword(l1.sw), KeywordToken(l1.sw))
  {
    var w := Keyword(l1.sw);
    var m := Agreement(s, i + 1, w, 1);
    assert Agreement(s, i, w, 0) == 1 + m;
    AgreementAll(s, i, w, 0);
    assert w[0..] == w;
    assert (i + |w| <= |s| && s[i..i + |w|] == w) <==> 1 + m == |w|;
    assert KeywordToken(l1.sw) != NoToken;
    if 1 + m == |w| {
      KeywordAccepted(l1, s, i + 1);
    } else if i + 1 + m < |s| {
      KeywordRefused(l1, s, i + 1);
    } else {
      KeywordCut(l1, s, i + 1);
    }
  }

  /** Between tokens, a keyword's first letter reads the keyword: its
      token is produced, with the buffer emptied and at the position
      after the word, iff the text holds the whole word there; a letter
      that disagrees with it first is a token error; a text that ends
      inside the word produces nothing. */
  lemma LexKeyword(l: Lex, s: seq<Octet>, i: nat)
    requires Between(l) && l.buf == [] && i < |s| && (s[i] == 't' || s[i] == 'f' || s[i] == 'n')
    ensures KeywordOutcome(LexFrom(l, s, i), s, i, Keyword(KeywordSwitch(s[i])), KeywordToken(KeywordSwitch(s[i])))
  {
    FirstLetter(l, s, i);
    KeywordRest(Appended(l.(token := NoToken, sw := KeywordSwitch(s[i])), s[i]), s, i);
  }

  // ---- Numbers ----

  /** Where the automaton stops on `s` from `i`: the state it is in and
      the position of the first character it refuses, or the end. */
  datatype Stop = Stop(state: NumState, at: nat)

  function NumberStop(st: NumState, s: seq<Octet>, i: nat): (p: Stop)
    requires i <= |s|
    ensures i <= p.at <= |s|
    ensures p.at < |s| ==> Trans(p.state, InputOf(s[p.at])) == Error
    decreases |s| - i
  {
    if i == |s| then Stop(st, i)
    else if Trans(st, InputOf(s[i])) == Error then Stop(st, i)
    else NumberStop(Trans(st, InputOf(s[i])), s, i + 1)
  }

  /** The state where the automaton stops is the one it reaches on the
      text read, as `RunFrom` reads it. */
  lemma {:induction false} StopRun(st: NumState, s: seq<Octet>, i0: nat, i: nat, k: nat)
    requires i0 <= i <= k <= |s| && NumberStop(st, s, i).at == k
    ensures RunFrom(st, s[i0..k], i - i0) == NumberStop(st, s, i).state
    decreases k - i
  {
    if i < k {
      assert s[i0..k][i - i0] == s[i];
      StopRun(Trans(st, InputOf(s[i])), s, i0, i + 1, k);
    }
  }

  /** Inside a number, before its first refused character. */
  predicate InNumberState(l: Lex) {
    Consistent(l) && l.sw == InNumber && l.token == NoToken
  }

  /** The number token was produced: the text read is in the buffer,
      terminated, and the refused character waits in `unwind_char`. */
  predicate NumberRead(l: Lex, f: Lexed, t: seq<Octet>, at: nat, c: Octet) {
    f.r == K_CONTINUE && f.at == at + 1 &&
    f.lex.buf == l.buf + t + ['\0'] && f.lex.sw == InJson && f.lex.token == NumberToken &&
    f.lex.unwind == Some(c) && f.lex.errorCode == l.errorCode && f.lex.quote == l.quote
  }

  /** A character the automaton takes is appended. */
  lemma NumberChar(l: Lex, s: seq<Octet>, i: nat)
    requires InNumberState(l) && i < |s| && Trans(l.numstate, InputOf(s[i])) != Error
    ensures InNumberState(Appended(l.(numstate := Trans(l.numstate, InputOf(s[i]))), s[i]))
    ensures NumberStop(l.numstate, s, i) == NumberStop(Trans(l.numstate, InputOf(s[i])), s, i + 1)
    ensures LexFrom(l, s, i) == LexFrom(Appended(l.(numstate := Trans(l.numstate, InputOf(s[i]))), s[i]), s, i + 1)
  {
    assert l.(token := NoToken) == l;
    LexOn(l, s, i);
  }

  /** The character the automaton refuses. */
  lemma RefusedChar(l: Lex, s: seq<Octet>, i: nat)
    requires InNumberState(l) && i < |s| && Trans(l.numstate, InputOf(s[i])) == Error
    ensures IsEnd(l.numstate) ==> NumberRead(l, LexFrom(l, s, i), [], i, s[i])
    ensures !IsEnd(l.numstate) ==> LexFrom(l, s, i).r == K_TOKEN_ERROR && LexFrom(l, s, i).lex.token == NoToken && LexFrom(l, s, i).at == i + 1
  {
    assert l.(token := NoToken) == l;
  }

  lemma ReadShift(l: Lex, st: NumState, c: Octet, t: seq<Octet>, at: nat, d: Octet, f: Lexed)
    requires NumberRead(Appended(l.(numstate := st), c), f, t, at, d)
    ensures NumberRead(l, f, [c] + t, at, d)
  {
    assert l.buf + [c] + t + ['\0'] == l.buf + ([c] + t) + ['\0'];
  }

  /** Inside a number, at the first character the automaton refuses: the
      number token is produced when the automaton was in an accepting
      state, with the text read in the buffer. */
  lemma {:induction false} NumberAccepted(l: Lex, s: seq<Octet>, i: nat)
    requires InNumberState(l) && i <= |s|
    requires NumberStop(l.numstate, s, i).at < |s| && IsEnd(NumberStop(l.numstate, s, i).state)
    ensures var k := NumberStop(l.numstate, s, i).at; NumberRead(l, LexFrom(l, s, i), s[i..k], k, s[k])
    decreases |s| - i
  {
    var nx := Trans(l.numstate, InputOf(s[i]));
    if nx != Error {
      var l1 := Appended(l.(numstate := nx), s[i]);
      NumberChar(l, s, i);
      NumberAccepted(l1, s, i + 1);
      var k := NumberStop(l.numstate, s, i).at;
      SliceCons(s, i, k);
      ReadShift(l, nx, s[i], s[i + 1..k], k, s[k], LexFrom(l, s, i));
    } else {
      RefusedChar(l, s, i);
    }
  }

  /** ... and the token error when it was not. */
  lemma {:induction false} NumberRefused(l: Lex, s: seq<Octet>, i: nat)
    requires InNumberState(l) && i <= |s|
    requires NumberStop(l.numstate, s, i).at < |s| && !IsEnd(NumberStop(l.numstate, s, i).state)
    ensures LexFrom(l, s, i).r == K_TOKEN_ERROR && LexFrom(l, s, i).lex.token == NoToken
    ensures LexFrom(l, s, i).at == NumberStop(l.numstate, s, i).at + 1
    decreases |s| - i
  {
    var nx := Trans(l.numstate, InputOf(s[i]));
    if nx != Error {
      NumberChar(l, s, i);
      NumberRefused(Appended(l.(numstate := nx), s[i]), s, i + 1);
    } else {
      RefusedChar(l, s, i);
    }
  }

  /** A text the automaton takes to its end leaves it in the buffer. */
  lemma {:induction false} NumberCut(l: Lex, s: seq<Octet>, i: nat)
    requires InNumberState(l) && i <= |s| && NumberStop(l.numstate, s, i).at == |s|
    ensures LexFrom(l, s, i).r == K_CONTINUE && LexFrom(l, s, i).lex.token == NoToken
    ensures LexFrom(l, s, i).at == |s| && LexFrom(l, s, i).lex.buf == l.buf + s[i..]
    decreases |s| - i
  {
    if i < |s| {
      var nx := Trans(l.numstate, InputOf(s[i]));
      var l1 := Appended(l.(numstate := nx), s[i]);
      NumberChar(l, s, i);
      NumberCut(l1, s, i + 1);
      assert s[i..] == [s[i]] + s[i + 1..];
      assert l.buf + s[i..] == l1.buf + s[i + 1..];
    }
  }

  /** Between tokens, the first character of a number goes to
      `json_parser_feed_number` with the automaton in its start state. */
  lemma NumberDispatch(l: Lex, s: seq<Octet>, i: nat)
    requires Between(l) && i < |s| && IsNumberStart(s[i])
    ensures InNumberState(l.(token := NoToken, sw := InNumber, numstate := Start))
    ensures LexFrom(l, s, i) == LexFrom(l.(token := NoToken, sw := InNumber, numstate := Start), s, i)
  {
    var l0 := l.(token := NoToken, sw := InNumber, numstate := Start);
    assert OneStep(l, s[i]) == NumberStep(l0, s[i]);
    assert l0.(token := NoToken) == l0;
    assert OneStep(l0, s[i]) == NumberStep(l0, s[i]);
    OneStepConsistent(l, s[i]);
    OneStepConsistent(l0, s[i]);
  }

  /** Between tokens, a number is read up to the first character the
      automaton refuses. The number token is produced there iff the text
      read is a number of section 6 of RFC 8259; it is then in the buffer,
      terminated, and the refused character waits in `unwind_char`.
      Otherwise the result is the token error. A text that ends before
      such a character produces nothing. */
  lemma LexNumber(l: Lex, s: seq<Octet>, i: nat)
    requires Between(l) && i < |s| && IsNumberStart(s[i])
    ensures var p := NumberStop(Start, s, i); var f := LexFrom(l, s, i);
      p.at < |s| ==>
        (f.lex.token == NumberToken <==> IsJsonNumber(s[i..p.at])) &&
        (IsJsonNumber(s[i..p.at]) ==> f.r == K_CONTINUE && f.at == p.at + 1 && f.lex.buf == l.buf + s[i..p.at] + ['\0'] &&
                                      f.lex.unwind == Some(s[p.at]) && f.lex.sw == InJson) &&
        (!IsJsonNumber(s[i..p.at]) ==> f.r == K_TOKEN_ERROR)
    ensures NumberStop(Start, s, i).at == |s| ==> LexFrom(l, s, i).r == K_CONTINUE && LexFrom(l, s, i).lex.token == NoToken
  {
    var l0 := l.(token := NoToken, sw := InNumber, numstate := Start);
    NumberDispatch(l, s, i);
    var p := NumberStop(Start, s, i);
    StopRun(Start, s, i, i, p.at);
    AcceptsJsonNumbers(s[i..p.at]);
    if p.at < |s| {
      if IsEnd(p.state) {
        NumberAccepted(l0, s, i);
      } else {
        NumberRefused(l0, s, i);
      }
    } else {
      NumberCut(l0, s, i);
    }
  }
}
