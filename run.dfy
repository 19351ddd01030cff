/**
 * The launcher's description of a node to run, src/run.c: the checks on
 * the fields of a node description, the node name taken from the
 * executable's path, and the initial state of a run.
 */
module Runs {
  import opened Common

  /** The 26 lower-case and upper-case letters, in order. */
  const LOWER: string := seq(26, i requires 0 <= i < 26 => ('a' as int + i) as char)
  const UPPER: string := seq(26, i requires 0 <= i < 26 => ('A' as int + i) as char)
  const DIGITS: string := "1234567890"

  /** The allowed characters of each field. */
  const NAME_CHARS: string := LOWER + UPPER + "-_"
  const PATH_CHARS: string := LOWER + UPPER + DIGITS + "-_/."
  const ARG_CHARS: string := LOWER + UPPER + DIGITS + "-_/.="
  const ADDR_CHARS: string := DIGITS + "."
  const USERNAME_CHARS: string := LOWER + UPPER + DIGITS + "-_"

  /** What `valid_info` accepts: NULL only when the field may be empty,
      otherwise a length in [minlen, maxlen] and only allowed characters. */
  predicate InfoOk(s: Option<string>, minlen: int, maxlen: int, validChars: string) {
    if s.None? then minlen == 0
    else minlen <= |s.value| <= maxlen && forall i :: 0 <= i < |s.value| ==> s.value[i] in validChars
  }

  /** `valid_info`: the length check, then a `strchr` lookup of each
      character in the allowed set. */
  method ValidInfo(s: Option<string>, minlen: int, maxlen: int, validChars: string) returns (ok: bool)
    ensures ok <==> InfoOk(s, minlen, maxlen, validChars)
  {
    if s.None? {
      return minlen == 0;
    }
    var t := s.value;
    if |t| < minlen || |t| > maxlen {
      return false;
    }
    var i := 0;
    while i < |t|
      invariant 0 <= i <= |t|
      invariant forall k :: 0 <= k < i ==> t[k] in validChars
    {
      if t[i] !in validChars {
        return false;
      }
      i := i + 1;
    }
    return true;
  }

  // --- the character classes, stated independently of the strings -----

  lemma InLower(c: char)
    ensures c in LOWER <==> IsLower(c)
  {
    if IsLower(c) {
      assert LOWER[c as int - 'a' as int] == c;
    }
  }

  lemma InUpper(c: char)
    ensures c in UPPER <==> IsUpper(c)
  {
    if IsUpper(c) {
      assert UPPER[c as int - 'A' as int] == c;
    }
  }

  lemma InDigits(c: char)
    ensures c in DIGITS <==> IsDigit(c)
  {
    if '1' <= c <= '9' {
      assert DIGITS[c as int - '1' as int] == c;
    } else if c == '0' {
      assert DIGITS[9] == c;
    }
  }

  predicate IsNameChar(c: char) { IsAlpha(c) || c == '-' || c == '_' }
  predicate IsPathChar(c: char) { IsAlpha(c) || IsDigit(c) || c == '-' || c == '_' || c == '/' || c == '.' }
  predicate IsArgChar(c: char) { IsPathChar(c) || c == '=' }
  predicate IsAddrChar(c: char) { IsDigit(c) || c == '.' }
  predicate IsUsernameChar(c: char) { IsAlpha(c) || IsDigit(c) || c == '-' || c == '_' }

  lemma CharClasses(c: char)
    ensures c in NAME_CHARS <==> IsNameChar(c)
    ensures c in PATH_CHARS <==> IsPathChar(c)
    ensures c in ARG_CHARS <==> IsArgChar(c)
    ensures c in ADDR_CHARS <==> IsAddrChar(c)
    ensures c in USERNAME_CHARS <==> IsUsernameChar(c)
  {
    InLower(c);
    InUpper(c);
    InDigits(c);
  }

  /** A field of `len` characters, each satisfying the class. */
  predicate FieldOk(s: Option<string>, minlen: int, maxlen: int, isOk: char -> bool) {
    if s.None? then minlen == 0
    else minlen <= |s.value| <= maxlen && forall i :: 0 <= i < |s.value| ==> isOk(s.value[i])
  }

  lemma {:induction false} InfoOkIsFieldOk(s: Option<string>, minlen: int, maxlen: int, chars: string,
                                          isOk: char -> bool)
    requires forall c :: c in chars <==> isOk(c)
    ensures InfoOk(s, minlen, maxlen, chars) <==> FieldOk(s, minlen, maxlen, isOk)
  {
  }

  /** `valid_name`: 1 to 128 letters, '-' or '_'. */
  method ValidName(name: Option<string>) returns (ok: bool)
    ensures ok <==> FieldOk(name, 1, 128, IsNameChar)
    ensures ok ==> name.Some?
  {
    ok := ValidInfo(name, 1, 128, NAME_CHARS);
    forall c ensures c in NAME_CHARS <==> IsNameChar(c) { CharClasses(c); }
    InfoOkIsFieldOk(name, 1, 128, NAME_CHARS, IsNameChar);
  }

  /** `valid_path`: 2 to 256 letters, digits, '-', '_', '/' or '.'. */
  method ValidPath(path: Option<string>) returns (ok: bool)
    ensures ok <==> FieldOk(path, 2, 256, IsPathChar)
    ensures ok ==> path.Some?
  {
    ok := ValidInfo(path, 2, 256, PATH_CHARS);
    forall c ensures c in PATH_CHARS <==> IsPathChar(c) { CharClasses(c); }
    InfoOkIsFieldOk(path, 2, 256, PATH_CHARS, IsPathChar);
  }

  /** `valid_arg`: 1 to 256 path characters or '='. */
  method ValidArg(arg: Option<string>) returns (ok: bool)
    ensures ok <==> FieldOk(arg, 1, 256, IsArgChar)
  {
    ok := ValidInfo(arg, 1, 256, ARG_CHARS);
    forall c ensures c in ARG_CHARS <==> IsArgChar(c) { CharClasses(c); }
    InfoOkIsFieldOk(arg, 1, 256, ARG_CHARS, IsArgChar);
  }

  /** `valid_addr`: up to 15 digits and dots; NULL is allowed. */
  method ValidAddr(host: Option<string>) returns (ok: bool)
    ensures ok <==> FieldOk(host, 0, 15, IsAddrChar)
    ensures host.None? ==> ok
  {
    ok := ValidInfo(host, 0, 15, ADDR_CHARS);
    forall c ensures c in ADDR_CHARS <==> IsAddrChar(c) { CharClasses(c); }
    InfoOkIsFieldOk(host, 0, 15, ADDR_CHARS, IsAddrChar);
  }

  /** `valid_username`: up to 32 letters, digits, '-' or '_'; NULL is
      allowed. */
  method ValidUsername(username: Option<string>) returns (ok: bool)
    ensures ok <==> FieldOk(username, 0, 32, IsUsernameChar)
    ensures username.None? ==> ok
  {
    ok := ValidInfo(username, 0, 32, USERNAME_CHARS);
    forall c ensures c in USERNAME_CHARS <==> IsUsernameChar(c) { CharClasses(c); }
    InfoOkIsFieldOk(username, 0, 32, USERNAME_CHARS, IsUsernameChar);
  }

  // --- node names ---------------------------------------------------------

  /** The node name `run_parse` derives: what follows the last '/' of the
      path (empty when the path ends with '/'), or the whole path when it
      has no '/'. */
  function NodeName(path: string): (name: string)
    ensures '/' !in name
    ensures |name| <= |path|
    ensures name == path[|path| - |name|..]
  {
    match LastIndexOf(path, '/')
    case None => path
    case Some(k) => path[k + 1..]
  }

  /** A path without '/' names itself, and a directory prefix is dropped. */
  lemma NodeNameOfPath(dir: string, base: string)
    requires '/' !in base
    ensures NodeName(base) == base
    ensures NodeName(dir + "/" + base) == base
  {
    var p := dir + "/" + base;
    assert p[|dir|] == '/';
    assert p[|dir| + 1..] == base;
    assert forall i :: |dir| < i < |p| ==> p[i] != '/';
  }

  // --- runs -----------------------------------------------------------------

  datatype RunStatus = Created | Starting | Running | Finished

  class Run {
    var pid: int
    var name: string
    var path: string
    var host: Option<string>
    var username: Option<string>
    var args: seq<string>
    var status: RunStatus

    /** `new_run`: copies of the fields, no arguments, no process yet. */
    constructor (name: string, path: string, host: Option<string>, username: Option<string>)
      ensures this.name == name && this.path == path && this.host == host && this.username == username
      ensures args == [] && pid == -1 && status == Created
    {
      this.name := name;
      this.path := path;
      this.host := host;
      this.username := username;
      args := [];
      pid := -1;
      status := Created;
    }

    /** `run_add_arg`: appends a copy of the argument. */
    method AddArg(s: string)
      modifies this
      ensures args == old(args) + [s]
      ensures name == old(name) && path == old(path) && host == old(host)
      ensures username == old(username) && pid == old(pid) && status == old(status)
    {
      args := args + [s];
    }
  }

  /** The "args" member of a node description: missing or falsy, an
      array whose items are strings (Some) or something else (None), or
      any other value. */
  datatype ArgsField = NoArgs | ArgArray(items: seq<Option<string>>) | NotArray

  /** The fields `run_parse` reads from a node description. */
  datatype Node = Node(path: Option<string>, host: Option<string>, username: Option<string>,
                       args: ArgsField)

  predicate AllStrings(items: seq<Option<string>>) {
    forall i :: 0 <= i < |items| ==> items[i].Some?
  }

  function Strings(items: seq<Option<string>>): (r: seq<string>)
    requires AllStrings(items)
    ensures |r| == |items| && forall i :: 0 <= i < |r| ==> Some(r[i]) == items[i]
  {
    if |items| == 0 then [] else [items[0].value] + Strings(items[1..])
  }

  /** What `run_parse` accepts; `executable` is the outcome of
      `check_path` on the file system. */
  predicate Accepted(node: Node, executable: bool) {
    FieldOk(node.path, 2, 256, IsPathChar)
    && FieldOk(node.host, 0, 15, IsAddrChar)
    && FieldOk(node.username, 0, 32, IsUsernameChar)
    && !node.args.NotArray?
    && executable
    && (node.args.ArgArray? ==> AllStrings(node.args.items))
  }

  /** `run_parse`: validates the node description, creates the run under
      the node name of the path and adds the arguments; NULL when any
      check fails. */
  method RunParse(node: Node, executable: bool) returns (r: Run?)
    ensures r == null <==> !Accepted(node, executable)
    ensures r != null ==> (fresh(r) && r.name == NodeName(node.path.value) && r.path == node.path.value
                           && r.host == node.host && r.username == node.username
                           && r.pid == -1 && r.status == Created
                           && r.args == (if node.args.ArgArray? then Strings(node.args.items) else []))
  {
    var ok := ValidPath(node.path);
    if !ok {
      return null;
    }
    ok := ValidAddr(node.host);
    if !ok {
      return null;
    }
    ok := ValidUsername(node.username);
    if !ok {
      return null;
    }
    if node.args.NotArray? {
      return null;
    }
    if !executable {
      return null;
    }
    var path := node.path.value;
    var s := NodeName(path);
    r := new Run(s, path, node.host, node.username);
    if node.args.ArgArray? {
      var items := node.args.items;
      var i := 0;
      while i < |items|
        invariant 0 <= i <= |items|
        invariant AllStrings(items[..i]) && r.args == Strings(items[..i])
        invariant r.name == s && r.path == path && r.host == node.host && r.username == node.username
        invariant r.pid == -1 && r.status == Created
      {
        if items[i].None? {
          assert !AllStrings(items);
          return null;
        }
        StringsSnoc(items, i);
        r.AddArg(items[i].value);
        i := i + 1;
      }
      assert items[..i] == items;
    }
  }

  lemma StringsSnoc(items: seq<Option<string>>, i: nat)
    requires i < |items| && AllStrings(items[..i]) && items[i].Some?
    ensures AllStrings(items[..i + 1])
    ensures Strings(items[..i + 1]) == Strings(items[..i]) + [items[i].value]
  {
    var s := Strings(items[..i]) + [items[i].value];
    assert forall k :: 0 <= k < |s| ==> Some(s[k]) == items[..i + 1][k];
    StringsUnique(items[..i + 1], s);
  }

  /** `Strings` is the only list whose items are the given strings. */
  lemma StringsUnique(items: seq<Option<string>>, s: seq<string>)
    requires AllStrings(items)
    requires |s| == |items| && forall k :: 0 <= k < |s| ==> Some(s[k]) == items[k]
    ensures Strings(items) == s
  {
    var t := Strings(items);
    assert forall k :: 0 <= k < |s| ==> t[k] == s[k];
  }
}
