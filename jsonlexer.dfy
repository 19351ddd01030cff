/**
 * The character level of the JSON parser, src/json.c: the token
 * buffer (`json_parser_append`), `\uXXXX` escapes (`json_parser_unicode`),
 * strings, numbers and the keywords `true`, `false` and `null`
 * (`json_parser_feed_*`), and the dispatch on the first character of a
 * token (`json_parser_feed_json`, `json_parser_feed_one`).
 *
 * Each C function is a method of `Lexer`, whose fields are those of
 * `json_parser_t` that these functions use; each method is specified by
 * a step function on the value `Lex` of those fields. The lemmas then
 * run the step functions over whole tokens.
 */
module JsonLexer {
  import opened Common
  import opened JsonNumber

  /** A C `char` as the lexer sees it: one byte. On such a value the
      `c & 0xff` of `json_parser_append` changes nothing. */
  type Octet = c: char | c as int < 256 witness '\0'

  /** `json_error_t` values the lexer returns. */
  const K_END_OF_STRING: int := -5
  const K_TOKEN_ERROR: int := -2
  const K_CONTINUE: int := 0

  /** `json_parser_switch_t`: what the lexer is in the middle of. */
  datatype Switch = InJson | InString | InNumber | InTrue | InFalse | InNull

  /** The `json_token_t` values the lexer produces. */
  datatype Token =
    | NoToken | ObjectStart | ObjectEnd | ArrayStart | ArrayEnd
    | StringToken | NumberToken | TrueToken | FalseToken | NullToken | Colon | Comma

  /** The fields of `json_parser_t` the lexer reads and writes. `buf` is
      `buffer[0..bufindex]`; `unwind` is `unwind_char`, `None` for -1. */
  datatype Lex = Lex(
    buf: seq<Octet>, buflen: int, backslash: bool, unicode: int, unihex: int,
    numstate: NumState, sw: Switch, token: Token, errorCode: int, quote: Octet,
    unwind: Option<Octet>)

  /** What a feeding function returns: the new state and the error code
      (`k_continue` or a negative `json_error_t`). */
  datatype Fed = Fed(lex: Lex, r: int)

  /** The buffer fits its allocation, and the bounds
      `json_parser_unicode` relies on hold: `unicode` counts the
      characters of an escape, and `unihex` holds the hex digits read so
      far. */
  predicate Consistent(l: Lex) {
    |l.buf| <= l.buflen &&
    0 <= l.unicode <= 4 && 0 <= l.unihex <= 0xffff &&
    (l.unicode == 2 ==> l.unihex < 0x10) &&
    (l.unicode == 3 ==> l.unihex < 0x100) &&
    (l.unicode == 4 ==> l.unihex < 0x1000)
  }

  /** The buffer length after `json_parser_append`: doubled when full,
      128 the first time. */
  function Grow(bufindex: int, buflen: int): (n: int)
    ensures buflen >= 0 ==> n >= buflen
    ensures 0 <= bufindex <= buflen ==> bufindex < n
  {
    if bufindex >= buflen then (if 2 * buflen == 0 then 128 else 2 * buflen) else buflen
  }

  /** `json_parser_append` (allocation failure is not modelled): the
      character is added to the buffer, which grows when full. */
  function Appended(l: Lex, c: Octet): Lex {
    l.(buf := l.buf + [c], buflen := Grow(|l.buf|, l.buflen))
  }

  /** Appending several characters in turn. */
  function AppendAll(l: Lex, s: seq<Octet>): Lex
    decreases |s|
  {
    if |s| == 0 then l else AppendAll(Appended(l, s[0]), s[1..])
  }

  lemma AppendOne(l: Lex, a: Octet)
    ensures AppendAll(l, [a]) == Appended(l, a)
  {
    assert [a][1..] == [];
  }

  lemma AppendTwo(l: Lex, a: Octet, b: Octet)
    ensures AppendAll(l, [a, b]) == Appended(Appended(l, a), b)
  {
    assert [a, b][1..] == [b];
    AppendOne(Appended(l, a), b);
  }

  lemma AppendThree(l: Lex, a: Octet, b: Octet, c: Octet)
    ensures AppendAll(l, [a, b, c]) == Appended(Appended(Appended(l, a), b), c)
  {
    assert [a, b, c][1..] == [b, c];
    AppendTwo(Appended(l, a), b, c);
  }

  /** The value of a hex digit; any other character counts as 0. */
  function HexValue(c: char): (v: int)
    ensures 0 <= v < 16
  {
    if '0' <= c <= '9' then c as int - '0' as int
    else if 'a' <= c <= 'f' then 10 + c as int - 'a' as int
    else if 'A' <= c <= 'F' then 10 + c as int - 'A' as int
    else 0
  }

  /** The bytes `json_parser_unicode` writes for the code unit `u`. The
      masks and shifts of the C code are written as division and
      remainder: for `u <= 0x7ff`, `(u & 0x07c0) >> 6` is `u / 64`; for
      `u <= 0xffff`, `(u & 0xf000) >> 12` is `u / 4096` and
      `(u & 0x0fc0) >> 6` is `u / 64 % 64`; `u & 0x3f` is `u % 64`; and
      or-ing a lead byte with a smaller value adds them. */
  function Utf8(u: int): seq<Octet>
    requires 0 <= u <= 0xffff
  {
    if u <= 0x7f then [u as char]
    else if u <= 0x7ff then [(0xc0 + u / 64) as char, (0x80 + u % 64) as char]
    else [(0xe0 + u / 4096) as char, (0x80 + u / 64 % 64) as char, (0x80 + u % 64) as char]
  }

  /** The code unit a UTF-8 sequence of one to three bytes stands for. */
  function Utf8Value(b: seq<Octet>): int
    requires 1 <= |b| <= 3
  {
    if |b| == 1 then b[0] as int
    else if |b| == 2 then (b[0] as int - 0xc0) * 64 + (b[1] as int - 0x80)
    else (b[0] as int - 0xe0) * 4096 + (b[1] as int - 0x80) * 64 + (b[2] as int - 0x80)
  }

  /** A continuation byte of UTF-8: 10xxxxxx. */
  predicate IsTrail(c: Octet) {
    0x80 <= c as int <= 0xbf
  }

  lemma Utf8Two(u: int)
    requires 0x80 <= u <= 0x7ff
    ensures |Utf8(u)| == 2 && Utf8Value(Utf8(u)) == u
    ensures 0xc2 <= Utf8(u)[0] as int <= 0xdf && IsTrail(Utf8(u)[1])
  {
    assert u == (u / 64) * 64 + u % 64;
  }

  lemma Utf8Three(u: int)
    requires 0x800 <= u <= 0xffff
    ensures |Utf8(u)| == 3 && Utf8Value(Utf8(u)) == u
    ensures 0xe0 <= Utf8(u)[0] as int <= 0xef && IsTrail(Utf8(u)[1]) && IsTrail(Utf8(u)[2])
  {
    assert u / 64 == (u / 4096) * 64 + u / 64 % 64;
    assert u == (u / 64) * 64 + u % 64;
  }

  /** `Utf8(u)` is the encoding of section 3 of RFC 3629: one byte below
      0x80, two from 0x80 to 0x7ff, three above, with lead and
      continuation bytes in their ranges, and it decodes to `u`. */
  lemma Utf8Encodes(u: int)
    requires 0 <= u <= 0xffff
    ensures 1 <= |Utf8(u)| <= 3 && Utf8Value(Utf8(u)) == u
    ensures |Utf8(u)| == 1 <==> u <= 0x7f
    ensures |Utf8(u)| == 2 <==> 0x80 <= u <= 0x7ff
    ensures |Utf8(u)| == 3 <==> 0x800 <= u
    ensures |Utf8(u)| == 2 ==> 0xc2 <= Utf8(u)[0] as int <= 0xdf && IsTrail(Utf8(u)[1])
    ensures |Utf8(u)| == 3 ==> 0xe0 <= Utf8(u)[0] as int <= 0xef && IsTrail(Utf8(u)[1]) && IsTrail(Utf8(u)[2])
  {
    if 0x80 <= u <= 0x7ff {
      Utf8Two(u);
    } else if 0x800 <= u {
      Utf8Three(u);
    }
  }

  /** `json_parser_unicode`: the `unicode`-th character of an escape,
      counting the `u` as 0. The fourth hex digit completes the code unit
      and writes its bytes. */
  function UnicodeStep(l: Lex, c: Octet): (f: Fed)
    requires Consistent(l)
  {
    var v := HexValue(c);
    if l.unicode == 1 then Fed(l.(unihex := v), K_CONTINUE)
    else if l.unicode == 2 || l.unicode == 3 then Fed(l.(unihex := l.unihex * 16 + v), K_CONTINUE)
    else if l.unicode == 4 then
      var u := l.unihex * 16 + v;
      Fed(AppendAll(l.(unihex := u), Utf8(u)), K_CONTINUE)
    else Fed(l, K_CONTINUE)
  }

  /** The character a backslash followed by `c` stands for, other than
      `\u`: `\n`, `\r`, `\t`, `\b` and `\f` are control characters,
      anything else stands for itself. */
  function Escaped(c: Octet): Octet {
    if c == 'n' then '\n' else if c == 'r' then '\r' else if c == 't' then '\t'
    else if c == 'b' then 8 as char else if c == 'f' then 12 as char else c
  }

  /** `json_parser_feed_string`. */
  function StringStep(l: Lex, c: Octet): (f: Fed)
    requires Consistent(l)
  {
    if l.unicode > 0 then
      var u := UnicodeStep(l, c).lex;
      Fed(u.(unicode := if l.unicode == 4 then 0 else l.unicode + 1), K_CONTINUE)
    else if l.backslash then
      var l0 := l.(backslash := false);
      if c == 'u' then Fed(l0.(unicode := 1), K_CONTINUE)
      else Fed(Appended(l0, Escaped(c)), K_CONTINUE)
    else if c == '\\' then Fed(l.(backslash := true), K_CONTINUE)
    else if c == l.quote then Fed(Appended(l, '\0').(sw := InJson, token := StringToken), K_CONTINUE)
    else Fed(Appended(l, c), K_CONTINUE)
  }

  /** `json_parser_feed_number`: a character the automaton takes is
      appended; one it refuses ends the number when the automaton was in
      an accepting state (the buffer is terminated and the character is
      kept to be read again), and is an error otherwise. */
  function NumberStep(l: Lex, c: Octet): (f: Fed) {
    var prev := l.numstate;
    var l1 := l.(numstate := Trans(prev, InputOf(c)));
    if l1.numstate != Error then Fed(Appended(l1, c), K_CONTINUE)
    else if IsEnd(prev) then
      Fed(Appended(l1, '\0').(unwind := Some(c), sw := InJson, token := NumberToken), K_CONTINUE)
    else Fed(l1.(errorCode := K_TOKEN_ERROR), K_TOKEN_ERROR)
  }

  /** `json_parser_feed_true`, `_false` and `_null`, for the keyword
      `word` and its token: the buffer must stay a prefix of the word,
      and the token is produced when it is the whole word. */
  function KeywordStep(l: Lex, c: Octet, word: seq<Octet>, tok: Token): (f: Fed) {
    var l1 := Appended(l, c);
    var n := |l1.buf|;
    if n < |word| then
      if l1.buf != word[..n] then Fed(l1.(errorCode := K_TOKEN_ERROR), K_TOKEN_ERROR)
      else Fed(l1, K_CONTINUE)
    else if n == |word| then
      if l1.buf == word then Fed(l1.(sw := InJson, token := tok, buf := []), K_CONTINUE)
      else Fed(l1.(errorCode := K_TOKEN_ERROR), K_TOKEN_ERROR)
    else Fed(l1, K_CONTINUE)
  }

  /** The white space `json_parser_feed_json` skips. */
  predicate IsWhite(c: char) {
    c == ' ' || c == '\r' || c == '\n' || c == '\t'
  }

  /** The characters `json_parser_feed_json` starts a number with. The
      letter 'O' is among them; the automaton refuses it. */
  predicate IsNumberStart(c: char) {
    c == '-' || c == 'O' || IsDigit(c)
  }

  /** The tokens of one character. */
  function PunctToken(c: char): Option<Token> {
    if c == '{' then Some(ObjectStart) else if c == '}' then Some(ObjectEnd)
    else if c == '[' then Some(ArrayStart) else if c == ']' then Some(ArrayEnd)
    else if c == ',' then Some(Comma) else if c == ':' then Some(Colon)
    else None
  }

  /** The first letter of a keyword: the switch is set, and the letter is
      fed as the keyword's first character. */
  function KeywordStart(l: Lex, c: Octet): (f: Fed)
    requires c == 't' || c == 'f' || c == 'n'
  {
    if c == 't' then KeywordStep(l.(sw := InTrue), c, "true", TrueToken)
    else if c == 'f' then KeywordStep(l.(sw := InFalse), c, "false", FalseToken)
    else KeywordStep(l.(sw := InNull), c, "null", NullToken)
  }

  /** `json_parser_feed_json`: between tokens. */
  function JsonStep(l: Lex, c: Octet): (f: Fed) {
    if IsWhite(c) then Fed(l, K_CONTINUE)
    else if PunctToken(c).Some? then Fed(l.(sw := InJson, token := PunctToken(c).value), K_CONTINUE)
    else if c == '"' || c == '\'' then Fed(l.(quote := c, sw := InString), K_CONTINUE)
    else if c == 't' || c == 'f' || c == 'n' then KeywordStart(l, c)
    else if IsNumberStart(c) then NumberStep(l.(sw := InNumber, numstate := Start), c)
    else if c == '\0' then Fed(l, K_END_OF_STRING)
    else Fed(l.(errorCode := K_TOKEN_ERROR), K_TOKEN_ERROR)
  }

  /** `json_parser_feed_one` up to the call of the token handler: the
      token is cleared, then the character goes to the function for what
      the lexer is in the middle of. */
  function OneStep(l: Lex, c: Octet): (f: Fed)
    requires Consistent(l)
  {
    var l0 := l.(token := NoToken);
    match l0.sw
    case InJson => JsonStep(l0, c)
    case InString => StringStep(l0, c)
    case InNumber => NumberStep(l0, c)
    case InFalse => KeywordStep(l0, c, "false", FalseToken)
    case InTrue => KeywordStep(l0, c, "true", TrueToken)
    case InNull => KeywordStep(l0, c, "null", NullToken)
  }

  /** Appending adds to the buffer, keeps it within its allocation and
      changes nothing else. */
  lemma {:induction false} AppendAllFields(l: Lex, s: seq<Octet>)
    ensures AppendAll(l, s) == l.(buf := l.buf + s, buflen := AppendAll(l, s).buflen)
    ensures |l.buf| <= l.buflen ==> |AppendAll(l, s).buf| <= AppendAll(l, s).buflen
    decreases |s|
  {
    if |s| > 0 {
      AppendAllFields(Appended(l, s[0]), s[1..]);
      assert (l.buf + [s[0]]) + s[1..] == l.buf + s;
    }
  }

  lemma AppendedConsistent(l: Lex, c: Octet)
    requires Consistent(l)
    ensures Consistent(Appended(l, c))
  {
  }

  lemma StringStepConsistent(l: Lex, c: Octet)
    requires Consistent(l)
    ensures Consistent(StringStep(l, c).lex)
  {
    if l.unicode == 4 {
      var u := l.unihex * 16 + HexValue(c);
      AppendAllFields(l.(unihex := u), Utf8(u));
    } else if l.unicode == 0 && l.backslash && c != 'u' {
      AppendedConsistent(l.(backslash := false), Escaped(c));
    } else if l.unicode == 0 && !l.backslash && c != '\\' {
      AppendedConsistent(l, if c == l.quote then '\0' else c);
    }
  }

  lemma KeywordStepConsistent(l: Lex, c: Octet, word: seq<Octet>, tok: Token)
    requires Consistent(l)
    ensures Consistent(KeywordStep(l, c, word, tok).lex)
  {
    AppendedConsistent(l, c);
  }

  lemma NumberStepConsistent(l: Lex, c: Octet)
    requires Consistent(l)
    ensures Consistent(NumberStep(l, c).lex)
  {
    var l1 := l.(numstate := Trans(l.numstate, InputOf(c)));
    AppendedConsistent(l1, c);
    AppendedConsistent(l1, '\0');
  }

  lemma JsonStepConsistent(l: Lex, c: Octet)
    requires Consistent(l)
    ensures Consistent(JsonStep(l, c).lex)
  {
    if c == 't' {
      KeywordStepConsistent(l.(sw := InTrue), c, "true", TrueToken);
    } else if c == 'f' {
      KeywordStepConsistent(l.(sw := InFalse), c, "false", FalseToken);
    } else if c == 'n' {
      KeywordStepConsistent(l.(sw := InNull), c, "null", NullToken);
    } else if IsNumberStart(c) {
      NumberStepConsistent(l.(sw := InNumber, numstate := Start), c);
    }
  }

  /** Every step keeps the state consistent. */
  lemma OneStepConsistent(l: Lex, c: Octet)
    requires Consistent(l)
    ensures Consistent(OneStep(l, c).lex)
  {
    var l0 := l.(token := NoToken);
    match l0.sw
    case InJson => JsonStepConsistent(l0, c);
    case InString => StringStepConsistent(l0, c);
    case InNumber => NumberStepConsistent(l0, c);
    case InFalse => KeywordStepConsistent(l0, c, "false", FalseToken);
    case InTrue => KeywordStepConsistent(l0, c, "true", TrueToken);
    case InNull => KeywordStepConsistent(l0, c, "null", NullToken);
  }

  /** The lexer fields of `json_parser_t`. The token buffer is kept as
      the sequence of its `bufindex` bytes in use, next to the size
      `buflen` of its allocation. */
  class Lexer {
    var buf: seq<Octet>
    var buflen: int
    var backslash: bool
    var unicode: int
    var unihex: int
    var numstate: NumState
    var sw: Switch
    var token: Token
    var errorCode: int
    var quote: Octet
    var unwind: Option<Octet>

    /** The fields as a value. */
    function State(): Lex
      reads this
    {
      Lex(buf, buflen, backslash, unicode, unihex, numstate, sw, token, errorCode, quote, unwind)
    }

    /** The bytes in use fit the allocation. */
    ghost predicate Allocated()
      reads this
    {
      |buf| <= buflen
    }

    /** `Consistent` of the fields. */
    ghost predicate Valid()
      reads this
    {
      |buf| <= buflen && 0 <= unicode <= 4 && 0 <= unihex <= 0xffff &&
      (unicode == 2 ==> unihex < 0x10) && (unicode == 3 ==> unihex < 0x100) && (unicode == 4 ==> unihex < 0x1000)
    }

    /** `json_parser_init`: the structure zeroed, then
        `json_parser_reset`. */
    constructor ()
      ensures Valid()
      ensures State() == Lex([], 0, false, 0, 0, Error, InJson, NoToken, 0, '\0', None)
    {
      buf := [];
      buflen := 0;
      backslash := false;
      unicode := 0;
      unihex := 0;
      numstate := Error;
      sw := InJson;
      token := NoToken;
      errorCode := 0;
      quote := '\0';
      unwind := None;
    }

    /** The lexer part of `json_parser_reset`: between tokens, with an
        empty buffer and no error. */
    method Reset()
      requires Valid()
      modifies this
      ensures Valid()
      ensures State() == old(State()).(sw := InJson, token := NoToken, unwind := None, buf := [],
                                        unicode := 0, unihex := 0, backslash := false, errorCode := 0)
    {
      sw := InJson;
      token := NoToken;
      unwind := None;
      buf := [];
      unicode := 0;
      unihex := 0;
      backslash := false;
      errorCode := 0;
    }

    /** `json_parser_reset_buffer`. */
    method ResetBuffer()
      requires Valid()
      modifies this
      ensures Valid() && State() == old(State()).(buf := [])
    {
      buf := [];
    }

    /** `json_parser_append`: the allocation doubles, from 128, when
        the buffer is full. */
    method Append(c: Octet) returns (r: int)
      requires Allocated()
      modifies this
      ensures Allocated() && State() == Appended(old(State()), c) && r == K_CONTINUE
    {
      if |buf| >= buflen {
        var newlen := 2 * buflen;
        if newlen == 0 {
          newlen := 128;
        }
        buflen := newlen;
      }
      buf := buf + [c];
      r := K_CONTINUE;
    }

    /** The bytes of the code unit `u`, appended one by one as
        `json_parser_unicode` writes them. */
    method WriteUtf8(u: int) returns (r: int)
      requires Allocated() && 0 <= u <= 0xffff
      modifies this
      ensures Allocated() && State() == AppendAll(old(State()), Utf8(u)) && r == K_CONTINUE
    {
      ghost var l := State();
      if u <= 0x7f {
        r := Append(u as char);
        AppendOne(l, u as char);
      } else if u <= 0x7ff {
        var b1 := 0xc0 + u / 64;
        var b2 := 0x80 + u % 64;
        r := Append(b1 as char);
        r := Append(b2 as char);
        AppendTwo(l, b1 as char, b2 as char);
      } else {
        var b1 := 0xe0 + u / 4096;
        var b2 := 0x80 + u / 64 % 64;
        var b3 := 0x80 + u % 64;
        r := Append(b1 as char);
        r := Append(b2 as char);
        r := Append(b3 as char);
        AppendThree(l, b1 as char, b2 as char, b3 as char);
      }
    }

    /** `json_parser_unicode`. Allocation failure is not modelled, so
        the checks of the append results between bytes are left out. */
    method Unicode(c: Octet) returns (r: int)
      requires Valid()
      modifies this
      ensures Allocated() && 0 <= unihex <= 0xffff
      ensures State() == UnicodeStep(old(State()), c).lex && r == UnicodeStep(old(State()), c).r
    {
      var v := HexValue(c);
      r := K_CONTINUE;
      if unicode == 1 {
        unihex := v;
      } else if unicode == 2 || unicode == 3 {
        unihex := unihex * 16 + v;
      } else if unicode == 4 {
        unihex := unihex * 16 + v;
        ghost var l := State();
        r := WriteUtf8(unihex);
        AppendAllFields(l, Utf8(l.unihex));
      }
    }

    /** `json_parser_feed_string`. */
    method FeedString(c: Octet) returns (r: int)
      requires Valid()
      modifies this
      ensures Valid() && State() == StringStep(old(State()), c).lex && r == StringStep(old(State()), c).r
    {
      ghost var l := State();
      r := K_CONTINUE;
      if unicode > 0 {
        var was := unicode;
        r := Unicode(c);
        unicode := if was == 4 then 0 else was + 1;
      } else if backslash {
        backslash := false;
        if c == 'u' {
          unicode := 1;
        } else {
          r := Append(Escaped(c));
        }
      } else if c == '\\' {
        backslash := true;
      } else if c == quote {
        r := Append('\0');
        sw := InJson;
        token := StringToken;
      } else {
        r := Append(c);
      }
    }

    /** The character that ends a number: the buffer is terminated and
        the character is kept in `unwind_char` to be read again. */
    method EndNumber(c: Octet) returns (r: int)
      requires Valid()
      modifies this
      ensures Valid() && State() == Appended(old(State()), '\0').(unwind := Some(c), sw := InJson, token := NumberToken)
      ensures r == K_CONTINUE
    {
      r := Append('\0');
      unwind := Some(c);
      sw := InJson;
      token := NumberToken;
    }

    /** `json_parser_feed_number`. */
    method FeedNumber(c: Octet) returns (r: int)
      requires Valid()
      modifies this
      ensures Valid() && State() == NumberStep(old(State()), c).lex && r == NumberStep(old(State()), c).r
    {
      var prev := numstate;
      var next := Trans(prev, InputOf(c));
      numstate := next;
      if next != Error {
        r := Append(c);
      } else if IsEnd(prev) {
        r := EndNumber(c);
      } else {
        errorCode := K_TOKEN_ERROR;
        r := K_TOKEN_ERROR;
      }
    }

    /** The last letter of a keyword: the token is produced and the
        buffer emptied. */
    method EndKeyword(tok: Token) returns (r: int)
      requires Valid()
      modifies this
      ensures Valid() && State() == old(State()).(sw := InJson, token := tok, buf := []) && r == K_CONTINUE
    {
      sw := InJson;
      token := tok;
      buf := [];
      r := K_CONTINUE;
    }

    /** The body shared by `json_parser_feed_true`, `_false` and `_null`;
        `memcmp` over the bytes in use is a comparison of prefixes. */
    method FeedKeyword(c: Octet, word: seq<Octet>, tok: Token) returns (r: int)
      requires Valid()
      modifies this
      ensures Valid() && State() == KeywordStep(old(State()), c, word, tok).lex
      ensures r == KeywordStep(old(State()), c, word, tok).r
    {
      ghost var l := State();
      r := Append(c);
      if |buf| < |word| {
        if buf != word[..|buf|] {
          errorCode := K_TOKEN_ERROR;
          r := K_TOKEN_ERROR;
        }
      } else if |buf| == |word| {
        if buf == word {
          r := EndKeyword(tok);
        } else {
          errorCode := K_TOKEN_ERROR;
          r := K_TOKEN_ERROR;
        }
      }
    }

    /** `json_parser_feed_true`. */
    method FeedTrue(c: Octet) returns (r: int)
      requires Valid()
      modifies this
      ensures Valid() && State() == KeywordStep(old(State()), c, "true", TrueToken).lex
      ensures r == KeywordStep(old(State()), c, "true", TrueToken).r
    {
      r := FeedKeyword(c, "true", TrueToken);
    }

    /** `json_parser_feed_false`. */
    method FeedFalse(c: Octet) returns (r: int)
      requires Valid()
      modifies this
      ensures Valid() && State() == KeywordStep(old(State()), c, "false", FalseToken).lex
      ensures r == KeywordStep(old(State()), c, "false", FalseToken).r
    {
      r := FeedKeyword(c, "false", FalseToken);
    }

    /** `json_parser_feed_null`. */
    method FeedNull(c: Octet) returns (r: int)
      requires Valid()
      modifies this
      ensures Valid() && State() == KeywordStep(old(State()), c, "null", NullToken).lex
      ensures r == KeywordStep(old(State()), c, "null", NullToken).r
    {
      r := FeedKeyword(c, "null", NullToken);
    }

    /** The keyword branches of `json_parser_feed_json`. */
    method StartKeyword(c: Octet) returns (r: int)
      requires Valid() && (c == 't' || c == 'f' || c == 'n')
      modifies this
      ensures Valid() && State() == KeywordStart(old(State()), c).lex && r == KeywordStart(old(State()), c).r
    {
      if c == 't' {
        sw := InTrue;
        r := FeedTrue(c);
      } else if c == 'f' {
        sw := InFalse;
        r := FeedFalse(c);
      } else {
        sw := InNull;
        r := FeedNull(c);
      }
    }

    /** `json_parser_feed_json`. */
    method FeedJson(c: Octet) returns (r: int)
      requires Valid()
      modifies this
      ensures Valid() && State() == JsonStep(old(State()), c).lex && r == JsonStep(old(State()), c).r
    {
      if IsWhite(c) {
        return K_CONTINUE;
      }
      r := K_CONTINUE;
      if PunctToken(c).Some? {
        sw := InJson;
        token := PunctToken(c).value;
      } else if c == '"' || c == '\'' {
        quote := c;
        sw := InString;
      } else if c == 't' || c == 'f' || c == 'n' {
        r := StartKeyword(c);
      } else if IsNumberStart(c) {
        sw := InNumber;
        numstate := Start;
        r := FeedNumber(c);
      } else if c == '\0' {
        r := K_END_OF_STRING;
      } else {
        errorCode := K_TOKEN_ERROR;
        r := K_TOKEN_ERROR;
      }
    }

    /** `json_parser_feed_one`, without the call of the token handler
        that follows when a token was produced: the token is left in
        `token` for the caller. */
    method FeedOne(c: Octet) returns (r: int)
      requires Valid()
      modifies this
      ensures Valid() && State() == OneStep(old(State()), c).lex && r == OneStep(old(State()), c).r
    {
      token := NoToken;
      match sw {
        case InJson => r := FeedJson(c);
        case InString => r := FeedString(c);
        case InNumber => r := FeedNumber(c);
        case InFalse => r := FeedFalse(c);
        case InTrue => r := FeedTrue(c);
        case InNull => r := FeedNull(c);
      }
    }
  }
}
