/**
 * A resource a service exports, librcom/src/export.c: a name, the
 * mimetypes of its input and output, and the request handler with its
 * user data (both opaque handles here).
 */
module Exports {
  import opened Common

  const JSON_MIMETYPE: string := "application/json"

  /** The contents of an export at one moment. */
  datatype ExportValue = ExportValue(name: string, mimetypeIn: Option<string>,
                                     mimetypeOut: Option<string>, userdata: Option<nat>,
                                     onrequest: Option<nat>)

  /** `export_matches`: a request path names an export when it is the
      export's name, or a '/' followed by it. */
  predicate NameMatches(exportName: string, n: string) {
    n == exportName || (|n| > 0 && n[0] == '/' && n[1..] == exportName)
  }

  /** The name and the name behind a slash match, and nothing else does. */
  lemma NameMatchesExactly(exportName: string, n: string)
    ensures NameMatches(exportName, exportName)
    ensures NameMatches(exportName, "/" + exportName)
    ensures NameMatches(exportName, n) <==> n == exportName || n == "/" + exportName
  {
    if |n| > 0 && n[0] == '/' && n[1..] == exportName {
      assert n == "/" + exportName;
    }
  }

  /** A mimetype is JSON when it is present and exactly "application/json". */
  predicate IsJson(m: Option<string>) {
    m.Some? && m.value == JSON_MIMETYPE
  }

  class Export {
    var name: string
    var mimetypeIn: Option<string>
    var mimetypeOut: Option<string>
    var userdata: Option<nat>
    var onrequest: Option<nat>

    function Value(): ExportValue
      reads this
    {
      ExportValue(name, mimetypeIn, mimetypeOut, userdata, onrequest)
    }

    /** `new_export`: copies of the name and the mimetypes, and no
        handler yet. */
    constructor (name: string, mimetypeIn: Option<string>, mimetypeOut: Option<string>)
      ensures Value() == ExportValue(name, mimetypeIn, mimetypeOut, None, None)
    {
      this.name := name;
      this.mimetypeIn := mimetypeIn;
      this.mimetypeOut := mimetypeOut;
      userdata := None;
      onrequest := None;
    }

    /** `export_clone`: a new export with the same name, mimetypes,
        handler and user data. */
    method Clone() returns (n: Export)
      ensures fresh(n) && n.Value() == Value()
    {
      n := new Export(name, mimetypeIn, mimetypeOut);
      n.userdata := userdata;
      n.onrequest := onrequest;
    }

    /** `export_set_onrequest`: replaces the handler and its user data. */
    method SetOnrequest(userdata: Option<nat>, onrequest: Option<nat>)
      modifies this
      ensures Value() == old(Value()).(userdata := userdata, onrequest := onrequest)
    {
      this.userdata := userdata;
      this.onrequest := onrequest;
    }

    /** `export_set_mimetypes`: both mimetypes are replaced, a NULL one
        clearing the field. */
    method SetMimetypes(mimetypeIn: Option<string>, mimetypeOut: Option<string>) returns (err: int)
      modifies this
      ensures err == 0
      ensures Value() == old(Value()).(mimetypeIn := mimetypeIn, mimetypeOut := mimetypeOut)
    {
      this.mimetypeIn := None;
      this.mimetypeOut := None;
      if mimetypeIn.Some? {
        this.mimetypeIn := mimetypeIn;
      }
      if mimetypeOut.Some? {
        this.mimetypeOut := mimetypeOut;
      }
      return 0;
    }

    /** `export_json_in`. */
    predicate JsonIn()
      reads this
    {
      IsJson(mimetypeIn)
    }

    /** `export_json_out`. */
    predicate JsonOut()
      reads this
    {
      IsJson(mimetypeOut)
    }

    /** `export_matches`. */
    predicate Matches(n: string)
      reads this
    {
      NameMatches(name, n)
    }
  }

  /** Setting the mimetypes decides the JSON tests: after
      `SetMimetypes(i, o)` the export takes JSON in exactly when `i` is
      "application/json", and likewise for its output. */
  lemma JsonAfterSetMimetypes(v: ExportValue, i: Option<string>, o: Option<string>)
    ensures IsJson(v.(mimetypeIn := i, mimetypeOut := o).mimetypeIn) <==> i == Some(JSON_MIMETYPE)
    ensures IsJson(v.(mimetypeIn := i, mimetypeOut := o).mimetypeOut) <==> o == Some(JSON_MIMETYPE)
    ensures !IsJson(None)
  {
  }
}
