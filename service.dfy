/**
 * The export table of a service, librcom/src/service.c: registering an
 * export by name and finding the export that serves a request path.
 */
module Services {
  import opened Common
  import opened Exports

  /** The values of a list of exports, in list order. */
  function Values(es: seq<Export>): (r: seq<ExportValue>)
    reads es
    ensures |r| == |es|
  {
    if |es| == 0 then [] else [es[0].Value()] + Values(es[1..])
  }

  /** The value at each position is the value of the export there. */
  lemma {:induction false} ValuesAre(es: seq<Export>)
    ensures forall i :: 0 <= i < |es| ==> Values(es)[i] == es[i].Value()
  {
    if |es| > 0 {
      ValuesAre(es[1..]);
    }
  }

  lemma ValueAt(es: seq<Export>, i: nat)
    requires i < |es|
    ensures Values(es)[i] == es[i].Value()
  {
    ValuesAre(es);
  }

  /** The position of the first export matching `n`. */
  function FirstMatch(vs: seq<ExportValue>, n: string): (r: Option<nat>)
    ensures r.Some? ==> r.value < |vs| && NameMatches(vs[r.value].name, n)
    ensures r.Some? ==> forall i :: 0 <= i < r.value ==> !NameMatches(vs[i].name, n)
    ensures r.None? <==> forall i :: 0 <= i < |vs| ==> !NameMatches(vs[i].name, n)
  {
    if |vs| == 0 then None
    else if NameMatches(vs[0].name, n) then Some(0)
    else match FirstMatch(vs[1..], n)
      case None => None
      case Some(k) => Some(k + 1)
  }

  /** The position of the first export whose name is exactly `n`. */
  function FirstNamed(vs: seq<ExportValue>, n: string): (r: Option<nat>)
    ensures r.Some? ==> r.value < |vs| && vs[r.value].name == n
    ensures r.Some? ==> forall i :: 0 <= i < r.value ==> vs[i].name != n
    ensures r.None? <==> forall i :: 0 <= i < |vs| ==> vs[i].name != n
  {
    if |vs| == 0 then None
    else if vs[0].name == n then Some(0)
    else match FirstNamed(vs[1..], n)
      case None => None
      case Some(k) => Some(k + 1)
  }

  /** The table after `service_export(name, ...)`: the first matching
      export gets the mimetypes and handler, or a new export is put in
      front. */
  function Exported(vs: seq<ExportValue>, name: string, mimetypeIn: Option<string>,
                    mimetypeOut: Option<string>, data: Option<nat>, onrequest: Option<nat>)
    : seq<ExportValue>
  {
    match FirstMatch(vs, name)
    case Some(k) =>
      vs[k := vs[k].(mimetypeIn := mimetypeIn, mimetypeOut := mimetypeOut,
                     userdata := data, onrequest := onrequest)]
    case None => [ExportValue(name, mimetypeIn, mimetypeOut, data, onrequest)] + vs
  }

  /** What `service_get_export` finds for a request path: the first
      matching export, or else the first export named "*". */
  function Lookup(vs: seq<ExportValue>, n: string): Option<ExportValue> {
    match FirstMatch(vs, n)
    case Some(k) => Some(vs[k])
    case None =>
      match FirstNamed(vs, "*")
      case Some(k) => Some(vs[k])
      case None => None
  }

  lemma ExportedExisting(vs: seq<ExportValue>, name: string, mi: Option<string>, mo: Option<string>,
                          d: Option<nat>, cb: Option<nat>, k: nat)
    requires FirstMatch(vs, name) == Some(k)
    ensures k < |vs|
    ensures Exported(vs, name, mi, mo, d, cb)
      == vs[k := vs[k].(mimetypeIn := mi, mimetypeOut := mo, userdata := d, onrequest := cb)]
  {
  }

  lemma ExportedNew(vs: seq<ExportValue>, name: string, mi: Option<string>, mo: Option<string>,
                     d: Option<nat>, cb: Option<nat>)
    requires FirstMatch(vs, name) == None
    ensures Exported(vs, name, mi, mo, d, cb) == [ExportValue(name, mi, mo, d, cb)] + vs
  {
  }

  lemma LookupFound(vs: seq<ExportValue>, n: string, k: nat)
    requires FirstMatch(vs, n) == Some(k)
    ensures k < |vs| && Lookup(vs, n) == Some(vs[k])
  {
  }

  lemma LookupWildcard(vs: seq<ExportValue>, n: string, k: nat)
    requires FirstMatch(vs, n) == None && FirstNamed(vs, "*") == Some(k)
    ensures k < |vs| && Lookup(vs, n) == Some(vs[k])
  {
  }

  lemma LookupNothing(vs: seq<ExportValue>, n: string)
    requires FirstMatch(vs, n) == None && FirstNamed(vs, "*") == None
    ensures Lookup(vs, n) == None
  {
  }

  /** Exporting an existing name adds nothing; a new name adds one export. */
  lemma ExportedSize(vs: seq<ExportValue>, name: string, mi: Option<string>, mo: Option<string>,
                     d: Option<nat>, cb: Option<nat>)
    ensures FirstMatch(vs, name).Some? ==> |Exported(vs, name, mi, mo, d, cb)| == |vs|
    ensures FirstMatch(vs, name).None? ==> |Exported(vs, name, mi, mo, d, cb)| == |vs| + 1
  {
  }

  /** After exporting a name, looking it up finds the export with the
      mimetypes and the handler just given. */
  lemma LookupAfterExport(vs: seq<ExportValue>, name: string, mi: Option<string>, mo: Option<string>,
                          d: Option<nat>, cb: Option<nat>)
    ensures var r := Lookup(Exported(vs, name, mi, mo, d, cb), name);
      r.Some? && r.value.mimetypeIn == mi && r.value.mimetypeOut == mo
      && r.value.userdata == d && r.value.onrequest == cb
  {
    var ws := Exported(vs, name, mi, mo, d, cb);
    match FirstMatch(vs, name)
    case Some(k) =>
      assert forall i :: 0 <= i < |ws| ==> ws[i].name == vs[i].name;
      assert FirstMatch(ws, name) == Some(k) by {
        FirstMatchAt(ws, name, k);
      }
    case None =>
      NameMatchesExactly(name, name);
      assert FirstMatch(ws, name) == Some(0);
  }

  /** A scan from the front that first matches at `k` finds `k`. */
  lemma FirstMatchAt(vs: seq<ExportValue>, n: string, k: nat)
    requires k < |vs| && NameMatches(vs[k].name, n)
    requires forall i :: 0 <= i < k ==> !NameMatches(vs[i].name, n)
    ensures FirstMatch(vs, n) == Some(k)
  {
  }

  /** The wildcard is used only when nothing matches, and a matching
      export always wins over it. */
  lemma LookupPrefersMatch(vs: seq<ExportValue>, n: string, k: nat)
    requires k < |vs| && NameMatches(vs[k].name, n)
    ensures Lookup(vs, n).Some?
    ensures NameMatches(Lookup(vs, n).value.name, n)
  {
  }

  class Service {
    var exports: seq<Export>

    ghost predicate Valid()
      reads this
    {
      forall i, j :: 0 <= i < j < |exports| ==> exports[i] != exports[j]
    }

    /** A service without exports. */
    constructor ()
      ensures Valid() && exports == []
    {
      exports := [];
    }

    /** `service_export`: updates the first export that matches `name`
        in place, or prepends a new one. */
    method ExportName(name: string, mimetypeIn: Option<string>, mimetypeOut: Option<string>,
                      data: Option<nat>, onrequest: Option<nat>) returns (err: int)
      requires Valid()
      modifies this, exports
      ensures Valid()
      ensures err == 0
      ensures Values(exports) == Exported(old(Values(exports)), name, mimetypeIn, mimetypeOut, data, onrequest)
      ensures FirstMatch(old(Values(exports)), name).Some? ==> exports == old(exports)
      ensures FirstMatch(old(Values(exports)), name).None? ==>
        |exports| == |old(exports)| + 1 && fresh(exports[0]) && exports[1..] == old(exports)
    {
      var found := Find(name);
      if found.Some? {
        Reexport(found.value, name, mimetypeIn, mimetypeOut, data, onrequest);
        return 0;
      }
      AddExport(name, mimetypeIn, mimetypeOut, data, onrequest);
      return 0;
    }

    /** The branch of `service_export` that finds the name at `k`: the
        export there gets the new mimetypes and handler. */
    method Reexport(k: nat, name: string, mimetypeIn: Option<string>, mimetypeOut: Option<string>,
                    data: Option<nat>, onrequest: Option<nat>)
      requires Valid() && FirstMatch(Values(exports), name) == Some(k)
      modifies exports
      ensures Values(exports) == Exported(old(Values(exports)), name, mimetypeIn, mimetypeOut, data, onrequest)
    {
      ghost var vs := Values(exports);
      ExportedExisting(vs, name, mimetypeIn, mimetypeOut, data, onrequest, k);
      Update(k, mimetypeIn, mimetypeOut, data, onrequest);
    }

    /** The branch of `service_export` that does not find the name: a new
        export in front. */
    method AddExport(name: string, mimetypeIn: Option<string>, mimetypeOut: Option<string>,
                     data: Option<nat>, onrequest: Option<nat>)
      requires Valid() && FirstMatch(Values(exports), name) == None
      modifies this
      ensures Valid()
      ensures Values(exports) == Exported(old(Values(exports)), name, mimetypeIn, mimetypeOut, data, onrequest)
      ensures |exports| == |old(exports)| + 1 && fresh(exports[0]) && exports[1..] == old(exports)
    {
      ghost var vs := Values(exports);
      ExportedNew(vs, name, mimetypeIn, mimetypeOut, data, onrequest);
      var e := new Export(name, mimetypeIn, mimetypeOut);
      e.SetOnrequest(data, onrequest);
      Prepend(e);
    }

    /** `list_prepend` of a new export. */
    method Prepend(e: Export)
      requires Valid() && e !in exports
      modifies this
      ensures Valid()
      ensures exports == [e] + old(exports)
      ensures Values(exports) == [e.Value()] + old(Values(exports))
    {
      ghost var before := exports;
      exports := [e] + exports;
      assert exports[1..] == before;
      assert Values(exports) == [e.Value()] + Values(before);
    }

    /** The loop of `service_export` up to the first matching export. */
    method Find(name: string) returns (found: Option<nat>)
      ensures found == FirstMatch(Values(exports), name)
    {
      ghost var vs := Values(exports);
      ValuesAre(exports);
      var i := 0;
      while i < |exports|
        invariant 0 <= i <= |exports|
        invariant forall k :: 0 <= k < i ==> !NameMatches(vs[k].name, name)
      {
        if exports[i].Matches(name) {
          FirstMatchAt(vs, name, i);
          return Some(i);
        }
        i := i + 1;
      }
      return None;
    }

    /** The update of the matching export: its mimetypes, then its handler. */
    method Update(i: nat, mimetypeIn: Option<string>, mimetypeOut: Option<string>,
                  data: Option<nat>, onrequest: Option<nat>)
      requires Valid() && i < |exports|
      modifies exports[i]
      ensures Values(exports) == old(Values(exports))[i := old(Values(exports))[i].(mimetypeIn := mimetypeIn,
        mimetypeOut := mimetypeOut, userdata := data, onrequest := onrequest)]
    {
      ghost var vs := Values(exports);
      ValuesAre(exports);
      var e := exports[i];
      var r := e.SetMimetypes(mimetypeIn, mimetypeOut);
      e.SetOnrequest(data, onrequest);
      ValuesAre(exports);
      forall k | 0 <= k < |exports|
        ensures Values(exports)[k] == vs[i := e.Value()][k]
      {
        if k != i {
          assert exports[k] != e;
        }
      }
    }

    /** `service_get_export`: a copy of the export that serves `name`. */
    method GetExport(name: string) returns (n: Export?)
      ensures Lookup(old(Values(exports)), name).None? ==> n == null
      ensures Lookup(old(Values(exports)), name).Some? ==>
        n != null && fresh(n) && n.Value() == Lookup(old(Values(exports)), name).value
    {
      ghost var vs := Values(exports);
      var found := Find(name);
      if found.Some? {
        LookupFound(vs, name, found.value);
        ValueAt(exports, found.value);
        n := exports[found.value].Clone();
        return;
      }
      var wild := FindWildcard();
      if wild.Some? {
        LookupWildcard(vs, name, wild.value);
        ValueAt(exports, wild.value);
        n := exports[wild.value].Clone();
        return;
      }
      LookupNothing(vs, name);
      return null;
    }

    /** The second loop of `service_get_export`: the first export named "*". */
    method FindWildcard() returns (found: Option<nat>)
      ensures found == FirstNamed(Values(exports), "*")
    {
      ghost var vs := Values(exports);
      ValuesAre(exports);
      var i := 0;
      while i < |exports|
        invariant 0 <= i <= |exports|
        invariant forall k :: 0 <= k < i ==> vs[k].name != "*"
      {
        if exports[i].name == "*" {
          FirstNamedAt(vs, "*", i);
          return Some(i);
        }
        i := i + 1;
      }
      return None;
    }
  }

  lemma FirstNamedAt(vs: seq<ExportValue>, n: string, k: nat)
    requires k < |vs| && vs[k].name == n
    requires forall i :: 0 <= i < k ==> vs[i].name != n
    ensures FirstNamed(vs, n) == Some(k)
  {
  }
}
