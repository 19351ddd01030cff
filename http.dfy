/** The pure helpers of librcom/src/http.c: reason phrases, the mapping
    between file extensions and mimetypes, and the trimming of header
    values as they are appended. */
module Http {
  import opened Common

  // --- http_status_string -----------------------------------------------

  /** The status codes `http_status_string` knows. */
  predicate KnownStatus(status: int) {
    status == 100 || status == 101
    || (200 <= status <= 206)
    || (300 <= status <= 304) || status == 307 || status == 308
    || (400 <= status <= 418 && status != 402)
    || status == 422 || status == 425 || status == 426 || status == 428 || status == 429
    || status == 431 || status == 451
    || (500 <= status <= 505) || status == 511
  }

  /** `http_status_string`: the reason phrase of a status code, or "--". */
  function StatusString(status: int): string {
    match status
    case 100 => "Continue"
    case 101 => "Switching Protocols"
    case 200 => "OK"
    case 201 => "Created"
    case 202 => "Accepted"
    case 203 => "Non-Authoritative Information"
    case 204 => "No Content"
    case 205 => "Reset Content"
    case 206 => "Partial Content"
    case 300 => "Multiple Choices"
    case 301 => "Moved Permanently"
    case 302 => "Found"
    case 303 => "See Other"
    case 304 => "Not Modified"
    case 307 => "Temporary Redirect"
    case 308 => "Permanent Redirect"
    case 400 => "Bad Request"
    case 401 => "Unauthorized"
    case 403 => "Forbidden"
    case 404 => "Not Found"
    case 405 => "Method Not Allowed"
    case 406 => "Not Acceptable"
    case 407 => "Proxy Authentication Required"
    case 408 => "Request Timeout"
    case 409 => "Conflict"
    case 410 => "Gone"
    case 411 => "Length Required"
    case 412 => "Precondition Failed"
    case 413 => "Payload Too Large"
    case 414 => "URI Too Long"
    case 415 => "Unsupported Media Type"
    case 416 => "Range Not Satisfiable"
    case 417 => "Expectation Failed"
    case 418 => "I'm a teapot"
    case 422 => "Unprocessable Entity"
    case 425 => "Too Early"
    case 426 => "Upgrade Required"
    case 428 => "Precondition Required"
    case 429 => "Too Many Requests"
    case 431 => "Request Header Fields Too Large"
    case 451 => "Unavailable For Legal Reasons"
    case 500 => "Internal Server Error"
    case 501 => "Not Implemented"
    case 502 => "Bad Gateway"
    case 503 => "Service Unavailable"
    case 504 => "Gateway Timeout"
    case 505 => "HTTP Version Not Supported"
    case 511 => "Network Authentication Required"
    case _ => "--"
  }

  /** A code the switch does not list gives "--", 402 among them. */
  lemma StatusStringUnknown(status: int)
    requires !KnownStatus(status)
    ensures StatusString(status) == "--"
  {
  }

  /** Every listed code has a reason phrase of its own. */
  lemma StatusStringKnown(status: int)
    requires KnownStatus(status)
    ensures StatusString(status) != "--"
  {
    if status < 300 {
    } else if status < 400 {
    } else if status < 500 {
    } else {
    }
  }

  // --- the mime map -----------------------------------------------------

  datatype MimeEntry = MimeEntry(ext: string, mimetype: string)

  /** The table of http.c, in its order. */
  const MimeMap: seq<MimeEntry> := [
    MimeEntry(".html", "text/html"),
    MimeEntry(".txt", "text/plain"),
    MimeEntry(".js", "application/javascript; charset=utf-8"),
    MimeEntry(".json", "application/json; charset=utf-8"),
    MimeEntry(".css", "text/css"),
    MimeEntry(".jpg", "image/jpeg"),
    MimeEntry(".png", "image/png"),
    MimeEntry(".glb", "application/octet-stream"),
    MimeEntry(".bin", "application/octet-stream"),
    MimeEntry(".svg", "image/svg+xml"),
    MimeEntry(".xml", "application/xml"),
    MimeEntry(".ico", "image/vnd.microsoft.icon"),
    MimeEntry(".webmanifest", "application/manifest+json")
  ]

  const DefaultMimetype: string := "application/octet-stream"

  /** `e` ends `f`, and `f` has at least one character before it. */
  predicate ProperSuffix(e: string, f: string) {
    |f| >= |e| + 1 && f[|f| - |e|..] == e
  }

  /** Entry `k` is the first whose extension is a proper suffix of `f`. */
  predicate FirstSuffix(f: string, k: int) {
    0 <= k < |MimeMap| && ProperSuffix(MimeMap[k].ext, f)
    && forall j :: 0 <= j < k ==> !ProperSuffix(MimeMap[j].ext, f)
  }

  /** The first entry from `i` on whose extension is a proper suffix. */
  function SuffixFrom(f: string, i: nat): (r: Option<nat>)
    requires i <= |MimeMap|
    ensures r.Some? ==> i <= r.value < |MimeMap| && ProperSuffix(MimeMap[r.value].ext, f)
    ensures r.Some? ==> forall j :: i <= j < r.value ==> !ProperSuffix(MimeMap[j].ext, f)
    ensures r.None? ==> forall j :: i <= j < |MimeMap| ==> !ProperSuffix(MimeMap[j].ext, f)
    decreases |MimeMap| - i
  {
    if i == |MimeMap| then None
    else if ProperSuffix(MimeMap[i].ext, f) then Some(i)
    else SuffixFrom(f, i + 1)
  }

  /** What `filename_to_mimetype` answers. */
  function MimetypeOf(f: string): (r: string)
    ensures (exists k :: FirstSuffix(f, k) && r == MimeMap[k].mimetype)
      || ((forall j :: 0 <= j < |MimeMap| ==> !ProperSuffix(MimeMap[j].ext, f)) && r == DefaultMimetype)
  {
    match SuffixFrom(f, 0)
    case None => DefaultMimetype
    case Some(k) => assert FirstSuffix(f, k); MimeMap[k].mimetype
  }

  /** `filename_to_mimetype`: the loop over the table. */
  method FilenameToMimetype(filename: string) returns (s: string)
    ensures s == MimetypeOf(filename)
  {
    s := DefaultMimetype;
    var i := 0;
    while i < |MimeMap|
      invariant 0 <= i <= |MimeMap|
      invariant SuffixFrom(filename, 0) == SuffixFrom(filename, i)
    {
      var n := |MimeMap[i].ext|;
      var m := |filename|;
      if m < n + 1 {
        i := i + 1;
        continue;
      }
      if filename[m - n..] == MimeMap[i].ext {
        s := MimeMap[i].mimetype;
        return;
      }
      i := i + 1;
    }
  }

  /** `strncmp(a, b, min(|a|, |b|)) == 0`: one is a prefix of the other. */
  predicate PrefixMatch(a: string, b: string) {
    var len := if |a| < |b| then |a| else |b|;
    a[..len] == b[..len]
  }

  /** The first entry from `i` on whose mimetype prefix-matches `m`. */
  function MimetypeFrom(m: string, i: nat): (r: Option<nat>)
    requires i <= |MimeMap|
    ensures r.Some? ==> i <= r.value < |MimeMap| && PrefixMatch(MimeMap[r.value].mimetype, m)
    ensures r.Some? ==> forall j :: i <= j < r.value ==> !PrefixMatch(MimeMap[j].mimetype, m)
    ensures r.None? ==> forall j :: i <= j < |MimeMap| ==> !PrefixMatch(MimeMap[j].mimetype, m)
    decreases |MimeMap| - i
  {
    if i == |MimeMap| then None
    else if PrefixMatch(MimeMap[i].mimetype, m) then Some(i)
    else MimetypeFrom(m, i + 1)
  }

  /** What `mimetype_to_fileextension` answers; None stands for NULL. */
  function ExtensionOf(m: string): Option<string> {
    match MimetypeFrom(m, 0)
    case None => None
    case Some(k) => Some(MimeMap[k].ext)
  }

  /** `mimetype_to_fileextension`: the loop over the table. */
  method MimetypeToFileextension(mimetype: string) returns (ext: Option<string>)
    ensures ext == ExtensionOf(mimetype)
  {
    var i := 0;
    while i < |MimeMap|
      invariant 0 <= i <= |MimeMap|
      invariant MimetypeFrom(mimetype, 0) == MimetypeFrom(mimetype, i)
    {
      var n := |MimeMap[i].mimetype|;
      var m := |mimetype|;
      var len := if m < n then m else n;
      if MimeMap[i].mimetype[..len] == mimetype[..len] {
        return Some(MimeMap[i].ext);
      }
      i := i + 1;
    }
    return None;
  }

  /** Since only the shorter length is compared, the empty mimetype and any
      prefix of "text/html" give ".html", and so does "text/html" followed
      by parameters. */
  lemma PrefixesMatchHtml(m: string)
    requires m == [] || m == "text" || m == "text/html; charset=utf-8"
    ensures ExtensionOf(m) == Some(".html")
  {
    assert PrefixMatch(MimeMap[0].mimetype, m);
  }

  /** No extension of the table is longer than this. */
  lemma ExtensionsAreShort(j: int)
    requires 0 <= j < |MimeMap|
    ensures |MimeMap[j].ext| <= 12
  {
  }

  /** Two names that agree on every proper-suffix test get the same answer
      from entry `i` on. */
  lemma {:induction false} SuffixFromAgrees(f: string, g: string, i: nat)
    requires i <= |MimeMap|
    requires forall j :: 0 <= j < |MimeMap| ==> (ProperSuffix(MimeMap[j].ext, f) <==> ProperSuffix(MimeMap[j].ext, g))
    ensures SuffixFrom(f, i) == SuffixFrom(g, i)
    decreases |MimeMap| - i
  {
    if i < |MimeMap| {
      SuffixFromAgrees(f, g, i + 1);
    }
  }

  /** Only the end of a name decides its mimetype: a directory in front of
      a name of 13 characters or more changes nothing. */
  lemma MimetypeIgnoresDirectory(dir: string, f: string)
    requires |f| >= 13
    ensures MimetypeOf(dir + f) == MimetypeOf(f)
  {
    var g := dir + f;
    forall j | 0 <= j < |MimeMap|
      ensures ProperSuffix(MimeMap[j].ext, g) <==> ProperSuffix(MimeMap[j].ext, f)
    {
      var e := MimeMap[j].ext;
      ExtensionsAreShort(j);
      assert g[|g| - |e|..] == f[|f| - |e|..];
    }
    SuffixFromAgrees(g, f, 0);
  }

  // --- _trim_, _append_ and the header ----------------------------------

  predicate IsTrimmed(c: char) {
    c == '\n' || c == '\r' || c == ' '
  }

  /** `s` without its trailing newlines, carriage returns and spaces. */
  function Trimmed(s: string): (r: string)
    ensures |r| <= |s| && r == s[..|r|]
    ensures |r| == 0 || !IsTrimmed(r[|r| - 1])
    ensures forall i :: |r| <= i < |s| ==> IsTrimmed(s[i])
  {
    if |s| == 0 || !IsTrimmed(s[|s| - 1]) then s else Trimmed(s[..|s| - 1])
  }

  /** Trimming twice is trimming once. */
  lemma TrimmedIdempotent(s: string)
    ensures Trimmed(Trimmed(s)) == Trimmed(s)
  {
  }

  /** `_trim_`: clears trailing characters from the end, one at a time. */
  method Trim(s: string) returns (t: string)
    ensures t == Trimmed(s)
  {
    var i := |s| - 1;
    while i >= 0 && IsTrimmed(s[i])
      invariant -1 <= i < |s|
      invariant Trimmed(s) == Trimmed(s[..i + 1])
    {
      assert s[..i + 1][..i] == s[..i];
      i := i - 1;
    }
    t := s[..i + 1];
  }

  /** An `http_header_t`: a name and a value, either of which may be NULL. */
  class HttpHeader {
    var name: Option<string>
    var value: Option<string>

    /** `new_http_header`: copies of the given strings. */
    constructor (name: Option<string>, value: Option<string>)
      ensures this.name == name && this.value == value
    {
      this.name := name;
      this.value := value;
    }

    /** `http_header_name_append`: the first `length` characters of `data`
        added to the name (a NULL name counts as empty). */
    method NameAppend(data: string, length: nat) returns (err: int)
      requires length <= |data|
      modifies this
      ensures name == Some(Text(old(name)) + data[..length]) && value == old(value)
      ensures err == 0
    {
      name := Some(Text(name) + data[..length]);
      err := 0;
    }

    /** `http_header_value_append`: the same on the value, which is then
        trimmed. */
    method ValueAppend(data: string, length: nat) returns (err: int)
      requires length <= |data|
      modifies this
      ensures value == Some(Trimmed(Text(old(value)) + data[..length])) && name == old(name)
      ensures err == 0
    {
      var t := Trim(Text(value) + data[..length]);
      value := Some(t);
      err := 0;
    }
  }

  /** A possibly NULL string as `_append_` reads it. */
  function Text(s: Option<string>): string {
    if s.None? then [] else s.value
  }

}
