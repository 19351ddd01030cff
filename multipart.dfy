/**
 * The parser of a multipart (MJPEG) HTTP stream, librcom/src/multipart_parser.c:
 * a state machine that collects the header of each part up to the blank
 * line, reads the header lines it knows, then collects a body of the
 * declared length and hands it to a callback.
 *
 * The stream is a sequence of C `char`s. The static `_eoh` window of
 * `append_header` is a field of the parser; the `_eol` window of
 * `parse_header` is a local of its loop.
 */
module Multipart {
  import opened Common

  const SEPARATOR: string := "--nextimage"
  const CONTENT_TYPE: string := "Content-Type: "
  const CONTENT_LENGTH: string := "Content-Length: "
  const TIMESTAMP: string := "X-LT-Timestamp: "
  const MIMETYPE_BUFFER: int := 128
  const EOH: string := "\r\n\r\n"
  /** The window's initial contents (static storage is zeroed). */
  const ZEROS: string := "\0\0\0\0"
  const UINT32_LIMIT: int := 0x1_0000_0000

  datatype Status = ReadHeader | HeaderComplete | ReadBody | BodyComplete | Error

  /** What the header lines set: the mimetype, the declared length and the
      text of the timestamp (its `strtod` value; empty for the initial 0). */
  datatype Fields = Fields(mimetype: string, length: int, timestamp: string)

  /** The parser's state: the fields of `multipart_parser_t` and the window. */
  datatype Parser = Parser(status: Status, header: string, body: string, fields: Fields,
                           filepos: int, eoh: string)

  /** The parts of parsing outside the model: the two callbacks (absent
      when NULL) with the value they return, and whether `strtod` reads
      the given text as 0. */
  datatype Hooks = Hooks(onheaders: Option<Event -> int>, onpart: Option<Event -> int>,
                         timestampIsZero: string -> bool)

  /** A callback invocation. */
  datatype Event =
    | Headers(length: int, mimetype: string, timestamp: string, filepos: int)
    | Part(body: string, mimetype: string, timestamp: string)

  // --- the header lines ----------------------------------------------------

  /** The branch of `parse_header` a line takes: `rstreq` with the
      separator, then `strncmp` with each known prefix in turn. */
  datatype LineKind = SeparatorLine | TypeLine | LengthLine | TimestampLine | OtherLine

  function KindOf(line: string): LineKind {
    if line == SEPARATOR then SeparatorLine
    else if IsPrefix(CONTENT_TYPE, line) then TypeLine
    else if IsPrefix(CONTENT_LENGTH, line) then LengthLine
    else if IsPrefix(TIMESTAMP, line) then TimestampLine
    else OtherLine
  }

  datatype HeaderResult = HeaderOk(fields: Fields) | BadSeparator | BadValue(fields: Fields)

  /** The declared length that `parse_header` accepts as written: anything
      but 0. */
  predicate LengthOkAsWritten(l: int) { l != 0 }

  /** The declared length it evidently means to accept: a positive one. */
  predicate LengthOk(l: int) { l > 0 }

  /** The value of a "Content-Length: " line: what `strtol` reads after
      the prefix, stored into the `int` field. */
  function LengthValue(line: string): (l: int)
    requires |CONTENT_LENGTH| <= |line|
    ensures -0x8000_0000 <= l < 0x8000_0000
  {
    ToInt32(ParseLong(line[|CONTENT_LENGTH|..]).value)
  }

  /** A "Content-Type: " line: the mimetype is copied when the count of
      the line after the prefix and its '\r' fits the 128-byte buffer. */
  function TypeApplied(f: Fields, line: string): HeaderResult
    requires |CONTENT_TYPE| <= |line|
  {
    if |line| + 1 - |CONTENT_TYPE| < MIMETYPE_BUFFER then HeaderOk(f.(mimetype := line[|CONTENT_TYPE|..]))
    else BadValue(f)
  }

  /** A "Content-Length: " line: the length is stored, then checked. */
  function LengthApplied(f: Fields, line: string): HeaderResult
    requires |CONTENT_LENGTH| <= |line|
  {
    var l := LengthValue(line);
    if LengthOk(l) then HeaderOk(f.(length := l)) else BadValue(f.(length := l))
  }

  /** The same line with the check as written. */
  function LengthAppliedAsWritten(f: Fields, line: string): HeaderResult
    requires |CONTENT_LENGTH| <= |line|
  {
    var l := LengthValue(line);
    if LengthOkAsWritten(l) then HeaderOk(f.(length := l)) else BadValue(f.(length := l))
  }

  /** An "X-LT-Timestamp: " line: the timestamp is stored, then checked. */
  function TimestampApplied(f: Fields, line: string, zero: string -> bool): HeaderResult
    requires |TIMESTAMP| <= |line|
  {
    var t := line[|TIMESTAMP|..];
    if zero(t) then BadValue(f.(timestamp := t)) else HeaderOk(f.(timestamp := t))
  }

  /** One header line: the separator line and unknown lines change
      nothing. */
  function ApplyLine(f: Fields, line: string, zero: string -> bool): HeaderResult {
    match KindOf(line)
    case SeparatorLine => HeaderOk(f)
    case TypeLine => TypeApplied(f, line)
    case LengthLine => LengthApplied(f, line)
    case TimestampLine => TimestampApplied(f, line, zero)
    case OtherLine => HeaderOk(f)
  }

  /** The lines in order, up to the first that fails. */
  function ApplyLines(f: Fields, lines: seq<string>, zero: string -> bool): HeaderResult
    decreases |lines|
  {
    if |lines| == 0 then HeaderOk(f)
    else
      var r := ApplyLine(f, lines[0], zero);
      if r.HeaderOk? then ApplyLines(r.fields, lines[1..], zero) else r
  }

  /** A "\r\n" ends at `k`. */
  predicate EolAt(s: string, k: int) {
    1 <= k < |s| && s[k - 1] == '\r' && s[k] == '\n'
  }

  /** The first `k >= from` where `s[k-1..k+1]` is "\r\n". */
  function NextEol(s: string, from: nat): (r: Option<nat>)
    ensures r.Some? ==> from <= r.value < |s| && EolAt(s, r.value)
    decreases |s| - from
  {
    if from >= |s| then None
    else if EolAt(s, from) then Some(from)
    else NextEol(s, from + 1)
  }

  /** The lines the scan of `parse_header` finds from `start`, where the
      first position it tests for a line end is `from`. After a line end
      the scan skips one character, so the next test is two places after
      the next line's start. */
  function LinesFrom(s: string, start: nat, from: nat): seq<string>
    requires start < from
    decreases |s| - from
  {
    match NextEol(s, from)
    case None => []
    case Some(k) => [s[start..k - 1]] + LinesFrom(s, k + 1, k + 3)
  }

  function Lines(s: string): seq<string> {
    LinesFrom(s, 0, 1)
  }

  /** `multipart_parser_parse_header` on a complete header: it must start
      with the separator; then each line is read in turn. */
  function HeaderOf(s: string, f: Fields, zero: string -> bool): HeaderResult {
    if !IsPrefix(SEPARATOR, s) then BadSeparator else ApplyLines(f, Lines(s), zero)
  }

  /** Each line of a header is its text up to a "\r\n" of the header. */
  lemma {:induction false} LinesEndAtEol(s: string, start: nat, from: nat)
    requires start < from
    ensures forall l :: l in LinesFrom(s, start, from) ==> Contains(s, l + "\r\n")
    decreases |s| - from
  {
    match NextEol(s, from)
    case None =>
    case Some(k) =>
      LinesEndAtEol(s, k + 1, k + 3);
      var l := s[start..k - 1];
      assert s[start..k + 1] == l + "\r\n";
      assert OccursAt(s, l + "\r\n", start);
  }

  /** A header line "Content-Length: 0" is refused, and so is a mimetype
      of 127 characters or more. */
  lemma BadValuesRefused(f: Fields, zero: string -> bool, mime: string)
    ensures ApplyLine(f, CONTENT_LENGTH + "0", zero).BadValue?
    ensures |mime| >= MIMETYPE_BUFFER - 1 ==> ApplyLine(f, CONTENT_TYPE + mime, zero).BadValue?
  {
    ZeroLengthRefused(f, zero, CONTENT_LENGTH + "0", "0");
    LongTypeRefused(f, zero, CONTENT_TYPE + mime, mime);
  }

  lemma ZeroLengthRefused(f: Fields, zero: string -> bool, line: string, digits: string)
    requires digits == "0" && line == CONTENT_LENGTH + digits
    ensures ApplyLine(f, line, zero).BadValue?
  {
    assert line[..|CONTENT_LENGTH|] == CONTENT_LENGTH && line[|CONTENT_LENGTH|..] == digits;
    assert line != SEPARATOR by {
      assert line[0] != SEPARATOR[0];
    }
    assert !IsPrefix(CONTENT_TYPE, line) by {
      assert line[8] == 'L' && CONTENT_TYPE[8] == 'T';
      assert line[..|CONTENT_TYPE|][8] != CONTENT_TYPE[8];
    }
    assert KindOf(line) == LengthLine;
    assert ParseLong(digits) == Strtol(0, 1) by {
      assert SkipSpaces(digits, 0) == 0;
      assert DigitsEnd(digits, 1) == 1;
      assert DigitsEnd(digits, 0) == 1;
      assert digits[0..1] == digits && digits[..0] == [];
      assert DecValue(digits) == 0;
    }
  }

  lemma LongTypeRefused(f: Fields, zero: string -> bool, line: string, mime: string)
    requires line == CONTENT_TYPE + mime
    ensures |mime| >= MIMETYPE_BUFFER - 1 ==> ApplyLine(f, line, zero).BadValue?
  {
    assert line[..|CONTENT_TYPE|] == CONTENT_TYPE;
    assert line != SEPARATOR by {
      assert line[0] != SEPARATOR[0];
    }
    assert KindOf(line) == TypeLine;
  }

  /** Every length a line leaves in the fields is one that was accepted
      or the one it found. */
  lemma ApplyLineLength(f: Fields, line: string, zero: string -> bool)
    requires f.length >= 0
    ensures ApplyLine(f, line, zero).HeaderOk? ==> ApplyLine(f, line, zero).fields.length >= 0
    ensures !ApplyLine(f, line, zero).BadSeparator?
  {
  }

  /** Accepted lengths are positive once a length line was read. */
  lemma {:induction false} ApplyLinesLength(f: Fields, lines: seq<string>, zero: string -> bool)
    requires f.length >= 0
    ensures ApplyLines(f, lines, zero).HeaderOk? ==> ApplyLines(f, lines, zero).fields.length >= 0
    decreases |lines|
  {
    if |lines| > 0 {
      ApplyLineLength(f, lines[0], zero);
      if ApplyLine(f, lines[0], zero).HeaderOk? {
        ApplyLinesLength(ApplyLine(f, lines[0], zero).fields, lines[1..], zero);
      }
    }
  }

  // --- the window over the last four characters ---------------------------

  /** The last four characters seen, counting the initial zeros. */
  function Window(h: string): (w: string)
    ensures |w| == 4
  {
    var z := ZEROS + h;
    z[|z| - 4..]
  }

  predicate EohAt(h: string, i: int) {
    0 <= i && i + 4 <= |h| && h[i] == '\r' && h[i + 1] == '\n' && h[i + 2] == '\r' && h[i + 3] == '\n'
  }

  /** "\r\n\r\n" occurs nowhere in `h`. */
  predicate NoEoh(h: string) {
    forall i :: 0 <= i && i + 4 <= |h| ==> !EohAt(h, i)
  }

  /** `h` ends with "\r\n\r\n" and holds it nowhere before. */
  predicate EndsAtFirstBlankLine(h: string) {
    EohAt(h, |h| - 4) && NoEoh(h[..|h| - 1])
  }

  lemma WindowSnoc(h: string, c: char)
    ensures Window(h + [c]) == Window(h)[1..] + [c]
  {
    assert ZEROS + (h + [c]) == (ZEROS + h) + [c];
  }

  lemma WindowEmpty()
    ensures Window([]) == ZEROS
  {
    assert ZEROS + [] == ZEROS;
  }

  /** The window reads "\r\n\r\n" exactly when the text ends with it. */
  lemma WindowIsEoh(h: string)
    ensures Window(h) == EOH <==> EohAt(h, |h| - 4)
  {
    if |h| >= 4 {
      assert Window(h) == h[|h| - 4..];
    } else {
      assert Window(h)[0] == (ZEROS + h)[|h|] == '\0';
    }
  }

  /** Appending a character creates at most the occurrence at the end. */
  lemma NoEohSnoc(h: string, c: char)
    requires NoEoh(h) && !EohAt(h + [c], |h| - 3)
    ensures NoEoh(h + [c])
  {
    var g := h + [c];
    forall i | 0 <= i && i + 4 <= |g|
      ensures !EohAt(g, i)
    {
      if i + 4 <= |h| {
        assert g[i] == h[i] && g[i + 1] == h[i + 1] && g[i + 2] == h[i + 2] && g[i + 3] == h[i + 3];
        assert !EohAt(h, i);
      }
    }
  }

  // --- the parser -----------------------------------------------------------

  /** The parser's invariant: in every state but the error state the
      window shows the end of the header collected so far, which holds no
      blank line yet, the declared length is not negative, and the body
      is empty until the header is read and never longer than declared. */
  ghost predicate Inv(p: Parser) {
    |p.eoh| == 4 && 0 <= p.filepos < UINT32_LIMIT && (p.status != Error ==> Good(p))
  }

  ghost predicate Good(p: Parser) {
    p.eoh == Window(p.header) && NoEoh(p.header) && p.fields.length >= 0
    && (p.status != ReadHeader ==> p.header == [])
    && (p.status == ReadHeader || p.status == HeaderComplete ==> p.body == [])
    && (p.status == ReadBody ==> |p.body| <= p.fields.length)
    && (p.status == BodyComplete ==> |p.body| == p.fields.length)
  }

  function Initial(): (p: Parser)
    ensures Inv(p) && p.status == ReadHeader && p.header == [] && p.body == []
  {
    WindowEmpty();
    Parser(ReadHeader, [], [], Fields("", 0, ""), 0, ZEROS)
  }

  /** The state after `parse_header`: the fields the lines set, and the
      error state when a value was refused. */
  function Parsed(p: Parser, zero: string -> bool): Parser {
    match HeaderOf(p.header, p.fields, zero)
    case HeaderOk(f) => p.(fields := f)
    case BadSeparator => p
    case BadValue(f) => p.(fields := f, status := Error)
  }

  /** The end of a header: the result of `parse_header` decides between
      the error state and the complete header (window and buffer cleared). */
  /** What a parser that read a header's last character holds. */
  predicate Completable(p: Parser) {
    |p.eoh| == 4 && 0 <= p.filepos < UINT32_LIMIT && p.fields.length >= 0 && p.body == []
  }

  function CompleteHeader(p: Parser, zero: string -> bool): (r: Parser)
    requires Completable(p)
    ensures Inv(r) && r.body == p.body
    ensures r.status == HeaderComplete || r.status == Error
  {
    WindowEmpty();
    ApplyLinesLength(p.fields, Lines(p.header), zero);
    var q := Parsed(p, zero);
    if HeaderOf(p.header, p.fields, zero).HeaderOk? then
      q.(status := HeaderComplete, eoh := ZEROS, header := [])
    else q.(status := Error)
  }

  /** One character into the header buffer and the window. */
  function Push(p: Parser, c: char): (q: Parser)
    requires Inv(p) && p.status == ReadHeader
    ensures q.header == p.header + [c] && q.body == p.body && q.status == ReadHeader
    ensures q.fields == p.fields && |q.eoh| == 4 && 0 <= q.filepos < UINT32_LIMIT && Completable(q)
    ensures q.eoh == EOH <==> EohAt(q.header, |q.header| - 4)
    ensures q.eoh != EOH ==> Inv(q)
  {
    var q := p.(filepos := (p.filepos + 1) % UINT32_LIMIT, header := p.header + [c],
                eoh := p.eoh[1..] + [c]);
    WindowSnoc(p.header, c);
    WindowIsEoh(q.header);
    if q.eoh != EOH then NoEohSnoc(p.header, c); q else q
  }

  /** The test of `append_header` on its window. */
  predicate IsEoh(w: string) {
    |w| == 4 && w[0] == '\r' && w[1] == '\n' && w[2] == '\r' && w[3] == '\n'
  }

  lemma IsEohMeans(w: string)
    ensures IsEoh(w) <==> w == EOH
  {
  }

  /** A parser reading a header never has "\r\n\r\n" in its window. */
  lemma ReadingNotAtEnd(p: Parser)
    requires Inv(p) && p.status == ReadHeader
    ensures p.eoh != EOH
  {
    WindowIsEoh(p.header);
  }

  /** The characters the loop of `multipart_parser_append_header` moves
      into the header: one by one, up to the one that makes the window read
      "\r\n\r\n" or to the end of the input. */
  function Collected(p: Parser, buf: string, offset: nat): (r: (Parser, nat))
    requires Inv(p) && p.status == ReadHeader && offset <= |buf|
    ensures r.0.status == ReadHeader && r.0.body == p.body && r.0.fields == p.fields && Completable(r.0)
    ensures r.0.eoh != EOH ==> Inv(r.0) && r.1 == |buf|
    ensures offset < |buf| ==> offset < r.1 <= |buf|
    ensures offset == |buf| ==> r.0 == p && r.1 == offset
    decreases |buf| - offset
  {
    if offset == |buf| then (p, offset)
    else
      var q := Push(p, buf[offset]);
      if q.eoh == EOH then (q, offset + 1) else Collected(q, buf, offset + 1)
  }

  /** `Collected` after one more character. */
  lemma CollectedStep(p: Parser, buf: string, offset: nat)
    requires Inv(p) && p.status == ReadHeader && offset < |buf|
    ensures var q := Push(p, buf[offset]);
      Collected(p, buf, offset) == if q.eoh == EOH then (q, offset + 1) else Collected(q, buf, offset + 1)
  {
  }

  /** What is collected is the stream's own text, and when the window
      reads "\r\n\r\n" the header ends at its first blank line. */
  ghost predicate CollectsText(p: Parser, buf: string, offset: nat)
    requires Inv(p) && p.status == ReadHeader && offset <= |buf|
  {
    var r := Collected(p, buf, offset);
    r.0.header == p.header + buf[offset..r.1] && (r.0.eoh == EOH ==> EndsAtFirstBlankLine(r.0.header))
  }

  lemma {:induction false} CollectedText(p: Parser, buf: string, offset: nat)
    requires Inv(p) && p.status == ReadHeader && offset <= |buf|
    ensures CollectsText(p, buf, offset)
    decreases |buf| - offset
  {
    if offset == |buf| {
      CollectedNothing(p, buf, offset);
    } else if Push(p, buf[offset]).eoh == EOH {
      CollectedLast(p, buf, offset);
    } else {
      CollectedText(Push(p, buf[offset]), buf, offset + 1);
      CollectedMore(p, buf, offset);
    }
  }

  lemma CollectedNothing(p: Parser, buf: string, offset: nat)
    requires Inv(p) && p.status == ReadHeader && offset == |buf|
    ensures CollectsText(p, buf, offset)
  {
    ReadingNotAtEnd(p);
    assert buf[offset..offset] == [];
    assert p.header + [] == p.header;
  }

  lemma CollectedLast(p: Parser, buf: string, offset: nat)
    requires Inv(p) && p.status == ReadHeader && offset < |buf| && Push(p, buf[offset]).eoh == EOH
    ensures CollectsText(p, buf, offset)
  {
    var c := buf[offset];
    var q := Push(p, c);
    CollectedStep(p, buf, offset);
    assert buf[offset..offset + 1] == [c];
    assert q.header[..|q.header| - 1] == p.header;
  }

  lemma CollectedMore(p: Parser, buf: string, offset: nat)
    requires Inv(p) && p.status == ReadHeader && offset < |buf| && Push(p, buf[offset]).eoh != EOH
    requires CollectsText(Push(p, buf[offset]), buf, offset + 1)
    ensures CollectsText(p, buf, offset)
  {
    var c := buf[offset];
    var q := Push(p, c);
    CollectedStep(p, buf, offset);
    var r := Collected(q, buf, offset + 1);
    SliceCons(buf, offset, r.1);
    AppendAssoc(p.header, [c], buf[offset + 1..r.1]);
  }

  /** `multipart_parser_append_header`: the collected header is parsed
      once the window reads "\r\n\r\n"; returns the state and the
      offset after the last character used. */
  function HeaderAppended(p: Parser, buf: string, offset: nat, zero: string -> bool): (r: (Parser, nat))
    requires Inv(p) && p.status == ReadHeader && offset <= |buf|
    ensures Inv(r.0) && r.0.body == p.body
    ensures offset < |buf| ==> offset < r.1 <= |buf|
    ensures offset == |buf| ==> r.1 == offset
    ensures r.0.status == ReadHeader || r.0.status == HeaderComplete || r.0.status == Error
    ensures r.0.status == ReadHeader ==> r.1 == |buf|
  {
    var (q, next) := Collected(p, buf, offset);
    (if q.eoh == EOH then CompleteHeader(q, zero) else q, next)
  }

  /** How many characters a body read takes: all that are provided, or
      the ones still needed. */
  function Consumed(length: int, read: int, provided: int): int {
    var needed := length - read;
    if needed > provided then provided else needed
  }

  /** With a length that was not refused the read never takes more than
      is provided or needed, and never goes backwards. */
  lemma ConsumedBounds(length: int, read: int, provided: int)
    requires 0 <= read <= length && 0 <= provided
    ensures 0 <= Consumed(length, read, provided) <= provided
    ensures Consumed(length, read, provided) <= length - read
    ensures Consumed(length, read, provided) == provided || read + Consumed(length, read, provided) == length
  {
  }

  /** `multipart_parser_append_part`: takes what is still needed of the
      body, or all that is provided when that is less. The body is the
      stream's own text and reaches exactly the declared length when the
      part is complete. */
  function PartAppended(p: Parser, buf: string, offset: nat): (r: (Parser, nat))
    requires Inv(p) && p.status == ReadBody && offset <= |buf|
    ensures Inv(r.0) && offset <= r.1 <= |buf|
    ensures r.1 == offset + Consumed(p.fields.length, |p.body|, |buf| - offset)
    ensures r.0.body == p.body + buf[offset..r.1] && |r.0.body| <= p.fields.length
    ensures r.0.status == BodyComplete <==> |r.0.body| == p.fields.length
    ensures r.0.status == ReadBody ==> r.1 == |buf|
    ensures r.0.status == ReadBody || r.0.status == BodyComplete
    ensures r.0.fields == p.fields && r.0.header == p.header
  {
    var needed := p.fields.length - |p.body|;
    var provided := |buf| - offset;
    if needed > provided then
      (p.(body := p.body + buf[offset..], filepos := (p.filepos + provided) % UINT32_LIMIT), |buf|)
    else
      (p.(body := p.body + buf[offset..offset + needed], status := BodyComplete,
          filepos := (p.filepos + needed) % UINT32_LIMIT), offset + needed)
  }

  /** "Content-Length: -1" passes the check as written; the body read
      then takes -1 characters and moves the offset backwards. The
      intended check refuses it. */
  lemma NegativeLengthAccepted(f: Fields)
    ensures LengthAppliedAsWritten(f, CONTENT_LENGTH + "-1") == HeaderOk(f.(length := -1))
    ensures Consumed(-1, 0, 5) == -1
    ensures LengthApplied(f, CONTENT_LENGTH + "-1").BadValue?
  {
    NegativeLengthValue(CONTENT_LENGTH + "-1", "-1");
  }

  lemma NegativeLengthValue(line: string, digits: string)
    requires digits == "-1" && line == CONTENT_LENGTH + digits
    ensures |CONTENT_LENGTH| <= |line| && LengthValue(line) == -1
  {
    assert line[|CONTENT_LENGTH|..] == digits;
    assert ParseLong(digits) == Strtol(-1, 2) by {
      assert SkipSpaces(digits, 0) == 0;
      assert DigitsEnd(digits, 1) == 2;
      assert digits[1..2] == "1";
      assert "1"[..0] == [];
    }
  }

  /** The order of the states, for termination: a state that passes on
      without consuming input moves to a lower rank. */
  function Rank(s: Status): nat {
    match s
    case ReadHeader => 0
    case HeaderComplete => 3
    case ReadBody => 2
    case BodyComplete => 1
    case Error => 0
  }

  function Call(cb: Option<Event -> int>, e: Event, err: int): int {
    if cb.Some? then cb.value(e) else err
  }

  function Called(cb: Option<Event -> int>, e: Event): seq<Event> {
    if cb.Some? then [e] else []
  }

  datatype Outcome = Outcome(parser: Parser, err: int, events: seq<Event>)

  /** The callbacks `events` made before the rest of a run. */
  function Joined(events: seq<Event>, rest: Outcome): Outcome {
    Outcome(rest.parser, rest.err, events + rest.events)
  }

  /** One turn of the loop of `multipart_parser_process` outside the
      error state: a turn that consumes nothing moves to a lower rank. */
  function Step(p: Parser, buf: string, offset: nat, err: int, hooks: Hooks): (r: (Outcome, nat))
    requires Inv(p) && p.status != Error && offset < |buf|
    ensures Inv(r.0.parser) && offset <= r.1 <= |buf|
    ensures r.1 == offset ==> Rank(r.0.parser.status) < Rank(p.status)
  {
    if p.status == ReadHeader then
      var (q, o) := HeaderAppended(p, buf, offset, hooks.timestampIsZero);
      (Outcome(q, err, []), o)
    else if p.status == HeaderComplete then
      var e := Headers(p.fields.length, p.fields.mimetype, p.fields.timestamp, p.filepos);
      (Outcome(p.(status := ReadBody, header := []), Call(hooks.onheaders, e, err),
               Called(hooks.onheaders, e)), offset)
    else if p.status == ReadBody then
      var (q, o) := PartAppended(p, buf, offset);
      (Outcome(q, err, []), o)
    else
      var e := Part(p.body, p.fields.mimetype, p.fields.timestamp);
      (Outcome(p.(status := ReadHeader, body := []), Call(hooks.onpart, e, err),
               Called(hooks.onpart, e)), offset)
  }

  /** `multipart_parser_process`: runs the loop over the whole buffer and
      returns the last error code with the callbacks made; the error state
      ends the run with -1. */
  function Processed(p: Parser, buf: string, offset: nat, err: int, hooks: Hooks): (r: Outcome)
    requires Inv(p) && offset <= |buf|
    ensures Inv(r.parser)
    decreases |buf| - offset, Rank(p.status)
  {
    if offset == |buf| then Outcome(p, err, [])
    else if p.status == Error then Outcome(p, -1, [])
    else
      var (o, next) := Step(p, buf, offset, err, hooks);
      Joined(o.events, Processed(o.parser, buf, next, o.err, hooks))
  }

  /** `Processed` after one turn. */
  lemma ProcessedStep(p: Parser, buf: string, offset: nat, err: int, hooks: Hooks)
    requires Inv(p) && p.status != Error && offset < |buf|
    ensures var (o, next) := Step(p, buf, offset, err, hooks);
      Processed(p, buf, offset, err, hooks) == Joined(o.events, Processed(o.parser, buf, next, o.err, hooks))
  {
  }

  lemma JoinedTwice(a: seq<Event>, b: seq<Event>, r: Outcome)
    ensures Joined(a, Joined(b, r)) == Joined(a + b, r)
  {
    AppendAssoc(a, b, r.events);
  }

  // --- what the state machine promises ---------------------------------------

  /** The state a parser moves to when a state is done. */
  function Next(s: Status): Status {
    match s
    case ReadHeader => HeaderComplete
    case HeaderComplete => ReadBody
    case ReadBody => BodyComplete
    case BodyComplete => ReadHeader
    case Error => Error
  }

  /** Each turn either stays in a reading state or moves one state on
      around the cycle; only a header can lead to the error state. */
  lemma StepCycle(p: Parser, buf: string, offset: nat, err: int, hooks: Hooks)
    requires Inv(p) && p.status != Error && offset < |buf|
    ensures var s := Step(p, buf, offset, err, hooks).0.parser.status;
      s == Next(p.status) || (s == p.status && (s == ReadHeader || s == ReadBody))
      || (s == Error && p.status == ReadHeader)
  {
  }

  /** In the error state the rest of the input is not read: the parser
      stays as it is and reports -1. */
  lemma ErrorIsTerminal(p: Parser, buf: string, offset: nat, err: int, hooks: Hooks)
    requires Inv(p) && p.status == Error && offset < |buf|
    ensures Processed(p, buf, offset, err, hooks) == Outcome(p, -1, [])
  {
  }

  /** A header ends at the first "\r\n\r\n" of what was collected: when
      `append_header` leaves the read-header state, the collected text
      ends with it, holds it nowhere before, and the result of parsing
      exactly that text decides between the complete header and the
      error state. */
  lemma HeaderEndsAtFirstBlankLine(p: Parser, buf: string, offset: nat, zero: string -> bool)
    requires Inv(p) && p.status == ReadHeader && offset <= |buf|
    ensures var r := HeaderAppended(p, buf, offset, zero);
      var h := p.header + buf[offset..r.1];
      r.0.status != ReadHeader ==>
        EndsAtFirstBlankLine(h) && (r.0.status == HeaderComplete <==> HeaderOf(h, p.fields, zero).HeaderOk?)
  {
    CollectedText(p, buf, offset);
  }

  /** The body handed to the part callback has exactly the declared
      length, and what the header callback gets is a length that was
      accepted. */
  lemma CallbacksSeeDeclaredLength(p: Parser, buf: string, offset: nat, err: int, hooks: Hooks)
    requires Inv(p) && p.status != Error && offset < |buf|
    ensures forall e :: e in Step(p, buf, offset, err, hooks).0.events && e.Part? ==>
      |e.body| == p.fields.length
    ensures forall e :: e in Step(p, buf, offset, err, hooks).0.events && e.Headers? ==>
      e.length == p.fields.length >= 0
  {
  }

  class MultipartParser {
    var status: Status
    var header: string
    var body: string
    var mimetype: string
    var length: int
    var timestamp: string
    var filepos: int
    var eoh: string

    function HeaderFields(): Fields
      reads this
    {
      Fields(mimetype, length, timestamp)
    }

    function State(): Parser
      reads this
    {
      Parser(status, header, body, HeaderFields(), filepos, eoh)
    }

    /** `new_multipart_parser`: empty buffers, zeroed fields, reading a
        header. */
    constructor ()
      ensures State() == Initial()
    {
      status := ReadHeader;
      header := [];
      body := [];
      mimetype := "";
      length := 0;
      timestamp := "";
      filepos := 0;
      eoh := ZEROS;
    }

    /** One header line of `parse_header`; a refused value puts the
        parser in the error state. */
    method ApplyHeaderLine(line: string, zero: string -> bool) returns (ok: bool)
      modifies this
      ensures var r := ApplyLine(old(HeaderFields()), line, zero);
        ok == r.HeaderOk? && HeaderFields() == r.fields
        && status == (if ok then old(status) else Error)
      ensures header == old(header) && body == old(body) && filepos == old(filepos) && eoh == old(eoh)
    {
      match KindOf(line) {
      case SeparatorLine =>
      case TypeLine =>
        // `end - start` counts the line and its '\r'
        var n := |line| + 1 - |CONTENT_TYPE|;
        if n < MIMETYPE_BUFFER {
          mimetype := line[|CONTENT_TYPE|..];
        } else {
          status := Error;
          return false;
        }
      case LengthLine =>
        length := LengthValue(line);
        if !LengthOk(length) {
          status := Error;
          return false;
        }
      case TimestampLine =>
        timestamp := line[|TIMESTAMP|..];
        if zero(timestamp) {
          status := Error;
          return false;
        }
        case OtherLine =>
      }
      return true;
    }

    /** `multipart_parser_parse_header`: the separator check, then a scan
        for "\r\n" with a two-character window, reading each line found. */
    method ParseHeader(zero: string -> bool) returns (err: int)
      modifies this
      ensures State() == Parsed(old(State()), zero)
      ensures err == (if HeaderOf(old(header), old(HeaderFields()), zero).HeaderOk? then 0 else -1)
    {
      var s := header;
      if !(|SEPARATOR| <= |s| && s[..|SEPARATOR|] == SEPARATOR) {
        return -1;
      }
      var ok := ScanLines(zero, ApplyLines(HeaderFields(), Lines(s), zero));
      err := if ok then 0 else -1;
    }

    /** The loop of `parse_header` over the lines of the header; `target`
        is what reading them all gives. */
    method ScanLines(zero: string -> bool, ghost target: HeaderResult) returns (ok: bool)
      requires target == ApplyLines(HeaderFields(), Lines(header), zero)
      modifies this
      ensures if ok then target == HeaderOk(HeaderFields()) && status == old(status)
        else target == BadValue(HeaderFields()) && status == Error
      ensures header == old(header) && body == old(body) && filepos == old(filepos) && eoh == old(eoh)
    {
      var s := header;
      var eol0, eol1 := '\0', '\0';
      var start, end := 0, 0;
      ghost var from := 1;
      while end < |s|
        invariant Scanning(s, start, from, end, eol1)
        invariant target == ApplyLines(HeaderFields(), LinesFrom(s, start, from), zero)
        invariant header == s && body == old(body) && status == old(status)
        invariant filepos == old(filepos) && eoh == old(eoh)
        decreases |s| + 2 - end
      {
        var c := s[end];
        eol0, eol1 := eol1, c;
        if eol0 == '\r' && eol1 == '\n' {
          // the next line starts after the "\r\n"; the character after
          // it is skipped
          var next, skip := end + 1, end + 2;
          ghost var nextFrom := end + 3;
          ok := ReadLine(s, start, from, end, next, nextFrom, zero, target);
          if !ok {
            return;
          }
          LineScanned(s, next, nextFrom, skip, eol1);
          start, end := next, skip;
          from := nextFrom;
        } else {
          var next := end + 1;
          CharScanned(s, start, from, end, next, eol0, eol1);
          end := next;
        }
      }
      NoNextEol(s, start, from);
      return true;
    }

    /** The line of `s` from `start` to the "\r\n" ending at `end`. */
    method ReadLine(s: string, start: nat, ghost from: nat, end: nat, next: nat, ghost nextFrom: nat,
                    zero: string -> bool, ghost target: HeaderResult) returns (ok: bool)
      requires start < from <= end < |s| && EolAt(s, end) && next == end + 1 && nextFrom == end + 3
      requires forall j :: from <= j < end ==> !EolAt(s, j)
      requires target == ApplyLines(HeaderFields(), LinesFrom(s, start, from), zero)
      modifies this
      ensures ok ==> target == ApplyLines(HeaderFields(), LinesFrom(s, next, nextFrom), zero)
      ensures !ok ==> target == BadValue(HeaderFields())
      ensures status == (if ok then old(status) else Error)
      ensures header == old(header) && body == old(body) && filepos == old(filepos) && eoh == old(eoh)
    {
      LineFound(s, start, from, end, next, nextFrom, HeaderFields(), zero);
      ok := ApplyHeaderLine(s[start..end - 1], zero);
    }

    /** The end of `append_header` once the window reads "\r\n\r\n". */
    method FinishHeader(zero: string -> bool)
      requires Completable(State())
      modifies this
      ensures State() == CompleteHeader(old(State()), zero)
    {
      var err := ParseHeader(zero);
      if err != 0 {
        status := Error;
      } else {
        status := HeaderComplete;
        eoh := ZEROS;
        header := [];
      }
    }

    /** One character into the header buffer and the window. */
    method PushChar(c: char)
      requires Inv(State()) && status == ReadHeader
      modifies this
      ensures State() == Push(old(State()), c)
    {
      filepos := (filepos + 1) % UINT32_LIMIT;
      header := header + [c];
      eoh := [eoh[1], eoh[2], eoh[3], c];
      assert eoh == old(eoh)[1..] + [c];
    }

    /** `multipart_parser_append_header`. */
    method AppendHeader(buf: string, offset: nat, zero: string -> bool) returns (next: nat)
      requires Inv(State()) && status == ReadHeader && offset <= |buf|
      modifies this
      ensures State() == HeaderAppended(old(State()), buf, offset, zero).0
      ensures next == HeaderAppended(old(State()), buf, offset, zero).1
    {
      ghost var target := Collected(State(), buf, offset);
      var i := offset;
      while i < |buf|
        invariant offset <= i <= |buf|
        invariant Inv(State()) && status == ReadHeader
        invariant target == Collected(State(), buf, i)
        decreases |buf| - i
      {
        var c := buf[i];
        CollectedStep(State(), buf, i);
        ghost var q := Push(State(), c);
        PushChar(c);
        i := i + 1;
        if IsEoh(eoh) {
          IsEohMeans(eoh);
          assert q.eoh == EOH;
          FinishHeader(zero);
          return i;
        }
        IsEohMeans(eoh);
      }
      ReadingNotAtEnd(State());
      return i;
    }

    /** `multipart_parser_append_part`. */
    method AppendPart(buf: string, offset: nat) returns (next: nat)
      requires Inv(State()) && status == ReadBody && offset <= |buf|
      modifies this
      ensures State() == PartAppended(old(State()), buf, offset).0
      ensures next == PartAppended(old(State()), buf, offset).1
    {
      var read := |body|;
      var needed := length - read;
      var provided := |buf| - offset;
      if needed > provided {
        body := body + buf[offset..];
        filepos := (filepos + provided) % UINT32_LIMIT;
        return |buf|;
      } else {
        body := body + buf[offset..offset + needed];
        status := BodyComplete;
        filepos := (filepos + needed) % UINT32_LIMIT;
        return offset + needed;
      }
    }

    /** The `switch` of `multipart_parser_process` outside the error state. */
    method Turn(buf: string, offset: nat, err: int, hooks: Hooks) returns (next: nat, err': int, events: seq<Event>)
      requires Inv(State()) && status != Error && offset < |buf|
      modifies this
      ensures Outcome(State(), err', events) == Step(old(State()), buf, offset, err, hooks).0
      ensures next == Step(old(State()), buf, offset, err, hooks).1
    {
      err', events := err, [];
      if status == ReadHeader {
        next := AppendHeader(buf, offset, hooks.timestampIsZero);
      } else if status == HeaderComplete {
        if hooks.onheaders.Some? {
          var e := Headers(length, mimetype, timestamp, filepos);
          err' := hooks.onheaders.value(e);
          events := [e];
        }
        status := ReadBody;
        header := [];
        next := offset;
      } else if status == ReadBody {
        next := AppendPart(buf, offset);
      } else {
        if hooks.onpart.Some? {
          var e := Part(body, mimetype, timestamp);
          err' := hooks.onpart.value(e);
          events := [e];
        }
        status := ReadHeader;
        body := [];
        next := offset;
      }
    }

    /** `multipart_parser_process`: the state machine over one buffer. */
    method Process(buf: string, hooks: Hooks) returns (err: int, events: seq<Event>)
      requires Inv(State())
      modifies this
      ensures Inv(State())
      ensures Outcome(State(), err, events) == Processed(old(State()), buf, 0, 0, hooks)
    {
      var offset := 0;
      err := 0;
      events := [];
      while offset < |buf|
        invariant 0 <= offset <= |buf| && Inv(State())
        invariant Processed(old(State()), buf, 0, 0, hooks) == Joined(events, Processed(State(), buf, offset, err, hooks))
        decreases |buf| - offset, Rank(status)
      {
        if status == Error {
          // the source spins here for ever with err = -1
          assert Processed(State(), buf, offset, err, hooks) == Outcome(State(), -1, []);
          err := -1;
          return;
        }
        ghost var p := State();
        ghost var done := events;
        ProcessedStep(p, buf, offset, err, hooks);
        var e;
        offset, err, e := Turn(buf, offset, err, hooks);
        events := events + e;
        JoinedTwice(done, e, Processed(State(), buf, offset, err, hooks));
      }
    }
  }

  /** Where the scan of `parse_header` stands: the next line starts at
      `start`, `end` is the next position to read and `from` the first
      where a line end is looked for, `eol1` the character before `end`. */
  ghost predicate Scanning(s: string, start: nat, from: nat, end: nat, eol1: char) {
    start < from && from - 1 <= end <= |s| + 1
    && (end < from ==> end == from - 1 && eol1 != '\r')
    && (end >= from ==> end <= |s| && eol1 == s[end - 1])
    && (forall k :: from <= k < end ==> !EolAt(s, k))
  }

  lemma LineScanned(s: string, start: nat, from: nat, end: nat, eol1: char)
    requires 2 <= end <= |s| + 1 && start + 1 == end && from == end + 1 && eol1 == '\n'
    ensures Scanning(s, start, from, end, eol1)
  {
  }

  lemma CharScanned(s: string, start: nat, from: nat, end: nat, next: nat, eol0: char, eol1: char)
    requires end < |s| && next == end + 1 && Scanning(s, start, from, end, eol0) && eol1 == s[end]
    requires !(eol0 == '\r' && eol1 == '\n')
    ensures Scanning(s, start, from, next, eol1)
  {
  }

  /** The line the scan finds at a "\r\n" ending at `k`, ahead of the
      lines after it. */
  lemma LineFound(s: string, start: nat, from: nat, k: nat, next: nat, nextFrom: nat, f: Fields,
                   zero: string -> bool)
    requires start < from <= k < |s| && EolAt(s, k) && next == k + 1 && nextFrom == k + 3
    requires forall j :: from <= j < k ==> !EolAt(s, j)
    ensures start <= k - 1
    ensures var r := ApplyLine(f, s[start..k - 1], zero);
      ApplyLines(f, LinesFrom(s, start, from), zero)
        == if r.HeaderOk? then ApplyLines(r.fields, LinesFrom(s, next, nextFrom), zero) else r
  {
    NextEolAt(s, from, k);
    var rest := LinesFrom(s, k + 1, k + 3);
    assert LinesFrom(s, start, from) == [s[start..k - 1]] + rest;
    assert ([s[start..k - 1]] + rest)[1..] == rest;
  }

  lemma {:induction false} NextEolAt(s: string, from: nat, k: nat)
    requires from <= k < |s| && EolAt(s, k)
    requires forall j :: from <= j < k ==> !EolAt(s, j)
    ensures NextEol(s, from) == Some(k)
    decreases k - from
  {
    if from < k {
      NextEolAt(s, from + 1, k);
    }
  }

  lemma {:induction false} NextEolNone(s: string, from: nat)
    requires forall k :: from <= k < |s| ==> !EolAt(s, k)
    ensures NextEol(s, from) == None
    decreases |s| - from
  {
    if from < |s| {
      NextEolNone(s, from + 1);
    }
  }

  /** The scan reached the end of the header without another line. */
  lemma NoNextEol(s: string, start: nat, from: nat)
    requires start < from
    requires forall k :: from <= k < |s| ==> !EolAt(s, k)
    ensures LinesFrom(s, start, from) == []
  {
    NextEolNone(s, from);
  }
}
