/** The registry of nodes (librcom/src/registry.c): the type names, the
    validators of ids, names and topics, the parsing of a registration
    request, and the list of entries with its queries and updates. */
module Registry {
  import opened Common
  import opened Addresses

  const TYPE_NONE: int := -2
  const TYPE_ANY: int := -1
  const TYPE_DATALINK: int := 0
  const TYPE_DATAHUB: int := 1
  const TYPE_MESSAGELINK: int := 2
  const TYPE_MESSAGEHUB: int := 3
  const TYPE_SERVICE: int := 4
  const TYPE_STREAMER: int := 5
  const TYPE_STREAMERLINK: int := 6

  /** The names of the seven node types, indexed by their code. */
  const TypeNames: seq<string> :=
    ["datalink", "datahub", "messagelink", "messagehub", "service", "streamer", "streamerlink"]

  /** `registry_str_to_type`; a NULL or unknown name is TYPE_NONE. */
  function StrToType(s: Option<string>): int {
    if s == Some("datalink") then TYPE_DATALINK
    else if s == Some("datahub") then TYPE_DATAHUB
    else if s == Some("messagelink") then TYPE_MESSAGELINK
    else if s == Some("messagehub") then TYPE_MESSAGEHUB
    else if s == Some("service") then TYPE_SERVICE
    else if s == Some("streamer") then TYPE_STREAMER
    else if s == Some("streamerlink") then TYPE_STREAMERLINK
    else TYPE_NONE
  }

  /** `registry_type_to_str`; other codes are "unknown". */
  function TypeToStr(t: int): string {
    match t
    case 0 => "datalink"
    case 1 => "datahub"
    case 2 => "messagelink"
    case 3 => "messagehub"
    case 4 => "service"
    case 5 => "streamer"
    case 6 => "streamerlink"
    case _ => "unknown"
  }

  /** The two mappings are inverse on the seven known types. */
  lemma TypeNamesRoundTrip(t: int)
    requires TYPE_DATALINK <= t <= TYPE_STREAMERLINK
    ensures TypeToStr(t) == TypeNames[t]
    ensures StrToType(Some(TypeToStr(t))) == t
  {
  }

  /** Every string that is not one of the seven names maps to TYPE_NONE,
      and every known name maps back to itself. */
  lemma StrToTypeKnown(s: Option<string>)
    ensures StrToType(s) == TYPE_NONE <==> s.None? || s.value !in TypeNames
    ensures StrToType(s) != TYPE_NONE ==>
      0 <= StrToType(s) < |TypeNames| && TypeToStr(StrToType(s)) == s.value
  {
  }

  // --- validators -------------------------------------------------------

  predicate IsLowerHex(c: char) { IsDigit(c) || 'a' <= c <= 'f' }

  /** Positions of the four dashes of the 8-4-4-4-12 layout. */
  predicate IsDashPosition(i: int) { i == 8 || i == 13 || i == 18 || i == 23 }

  /** A character that fits position `i` of the id layout. */
  predicate IdCharOk(c: char, i: int) {
    if IsDashPosition(i) then c == '-' else IsLowerHex(c)
  }

  /** A UUID in lower-case hex, e.g. 1b4e28ba-2fa1-11d2-883f-0016d3cca427. */
  predicate IsUuid(id: Option<string>) {
    id.Some? && |id.value| == 36 && forall i :: 0 <= i < 36 ==> IdCharOk(id.value[i], i)
  }

  predicate TopicChar(c: char) { IsLower(c) || c == '.' || c == '-' || c == '_' }
  predicate NameChar(c: char) { IsLower(c) || IsDigit(c) || c == '-' || c == '_' }

  predicate IsTopic(t: Option<string>) {
    t.Some? && 2 <= |t.value| <= 256 && IsLower(t.value[0])
    && forall i :: 1 <= i < |t.value| ==> TopicChar(t.value[i])
  }

  predicate IsName(n: Option<string>) {
    n.Some? && 4 <= |n.value| <= 256 && IsLower(n.value[0])
    && forall i :: 1 <= i < |n.value| ==> NameChar(n.value[i])
  }

  /** `registry_valid_id`: eight hex digits and a dash, three groups of four
      hex digits each followed by a dash, then twelve hex digits. */
  method ValidId(id: Option<string>) returns (ok: bool)
    ensures ok <==> IsUuid(id)
  {
    if id.None? || |id.value| != 36 {
      return false;
    }
    var s := id.value;
    var p := 0;
    var i := 0;
    while i < 8
      invariant 0 <= i <= 8 && p == i
      invariant forall k :: 0 <= k < p ==> IdCharOk(s[k], k)
    {
      if !IsLowerHex(s[p]) {
        return false;
      }
      p, i := p + 1, i + 1;
    }
    if s[p] != '-' {
      return false;
    }
    p := p + 1;
    var j := 0;
    while j < 3
      invariant 0 <= j <= 3 && p == 9 + 5 * j
      invariant forall k :: 0 <= k < p ==> IdCharOk(s[k], k)
    {
      i := 0;
      while i < 4
        invariant 0 <= i <= 4 && p == 9 + 5 * j + i
        invariant forall k :: 0 <= k < p ==> IdCharOk(s[k], k)
      {
        if !IsLowerHex(s[p]) {
          return false;
        }
        p, i := p + 1, i + 1;
      }
      if s[p] != '-' {
        return false;
      }
      p, j := p + 1, j + 1;
    }
    i := 0;
    while i < 12
      invariant 0 <= i <= 12 && p == 24 + i
      invariant forall k :: 0 <= k < p ==> IdCharOk(s[k], k)
    {
      if !IsLowerHex(s[p]) {
        return false;
      }
      p, i := p + 1, i + 1;
    }
    return true;
  }

  /** `registry_valid_topic`: 2 to 256 characters, a lower-case letter first,
      then lower-case letters, '.', '-' or '_'. */
  method ValidTopic(topic: Option<string>) returns (ok: bool)
    ensures ok <==> IsTopic(topic)
  {
    if topic.None? {
      return false;
    }
    var t := topic.value;
    if |t| < 2 || |t| > 256 || !IsLower(t[0]) {
      return false;
    }
    var i := 1;
    while i < |t|
      invariant 1 <= i <= |t|
      invariant forall k :: 1 <= k < i ==> TopicChar(t[k])
    {
      if !TopicChar(t[i]) {
        return false;
      }
      i := i + 1;
    }
    return true;
  }

  /** `registry_valid_name`: 4 to 256 characters, a lower-case letter first,
      then lower-case letters, digits, '-' or '_'. */
  method ValidName(name: Option<string>) returns (ok: bool)
    ensures ok <==> IsName(name)
  {
    if name.None? {
      return false;
    }
    var n := name.value;
    if |n| < 4 || |n| > 256 || !IsLower(n[0]) {
      return false;
    }
    var i := 1;
    while i < |n|
      invariant 1 <= i <= |n|
      invariant forall k :: 1 <= k < i ==> NameChar(n[k])
    {
      if !NameChar(n[i]) {
        return false;
      }
      i := i + 1;
    }
    return true;
  }

  // --- entries ----------------------------------------------------------

  /** A registry entry; `addr` is NULL once an address update failed, and
      `endpoint` is an opaque handle. */
  datatype Entry = Entry(id: string, name: string, topic: string, typ: int,
                         addr: Option<Address>, endpoint: Option<nat>)

  /** The string fields `registry_entry_parse` reads from the JSON object;
      each is NULL when the key is missing or not a string. */
  datatype Request = Request(id: Option<string>, name: Option<string>, topic: Option<string>,
                             typ: Option<string>, addr: Option<string>)

  /** The error code of `registry_entry_parse` for a request, as its
      checks decide it. */
  function ParseError(req: Request): (err: int)
    ensures -5 <= err <= 0
  {
    if !IsUuid(req.id) then -5
    else if !IsName(req.name) then -1
    else if !IsTopic(req.topic) then -2
    else if StrToType(req.typ) == TYPE_NONE then -3
    else if req.addr.None? || ParseAddrAsWritten(req.addr.value).None? then -4
    else 0
  }

  /** `registry_entry_parse`: the checks run in the order id (-5), name (-1),
      topic (-2), type (-3), address (-4); the first that fails decides the
      error, and 0 comes with the parsed entry. */
  method ParseEntry(req: Request) returns (err: int, entry: Option<Entry>)
    ensures err == ParseError(req)
    ensures err in {0, -1, -2, -3, -4, -5}
    ensures err == -5 <==> !IsUuid(req.id)
    ensures err == -1 <==> IsUuid(req.id) && !IsName(req.name)
    ensures err == -2 <==> IsUuid(req.id) && IsName(req.name) && !IsTopic(req.topic)
    ensures err == -3 <==>
      IsUuid(req.id) && IsName(req.name) && IsTopic(req.topic) && StrToType(req.typ) == TYPE_NONE
    ensures err == -4 <==>
      IsUuid(req.id) && IsName(req.name) && IsTopic(req.topic) && StrToType(req.typ) != TYPE_NONE
      && (req.addr.None? || ParseAddrAsWritten(req.addr.value).None?)
    ensures entry.Some? <==> err == 0
    ensures err == 0 ==> entry.value == Entry(req.id.value, req.name.value, req.topic.value,
                                             StrToType(req.typ), ParseAddrAsWritten(req.addr.value), None)
  {
    var ok := ValidId(req.id);
    if !ok {
      return -5, None;
    }
    ok := ValidName(req.name);
    if !ok {
      return -1, None;
    }
    ok := ValidTopic(req.topic);
    if !ok {
      return -2, None;
    }
    if req.typ.None? {
      return -3, None;
    }
    var t := StrToType(req.typ);
    if t == TYPE_NONE {
      return -3, None;
    }
    if req.addr.None? {
      return -4, None;
    }
    var a := Addresses.Parse(req.addr.value);
    if a == null {
      return -4, None;
    }
    return 0, Some(Entry(req.id.value, req.name.value, req.topic.value, t, Some(a.Value()), None));
  }

  /** `new_registry_entry` applied to an existing entry, as the queries do
      to hand out copies: it fails (NULL) when the address is NULL or the
      type is negative. */
  function Clone(e: Entry): Option<Entry> {
    if e.addr.None? || e.typ < 0 then None else Some(e)
  }

  /** The query of `registry_select` and `registry_count`: a NULL field or
      TYPE_ANY matches everything. */
  datatype Filter = Filter(id: Option<string>, name: Option<string>, topic: Option<string>,
                           typ: int, addr: Option<Address>, endpoint: Option<nat>)

  const Everything: Filter := Filter(None, None, None, TYPE_ANY, None, None)

  predicate Matches(e: Entry, f: Filter) {
    (f.id.None? || e.id == f.id.value)
    && (f.typ == TYPE_ANY || e.typ == f.typ)
    && (f.name.None? || e.name == f.name.value)
    && (f.topic.None? || e.topic == f.topic.value)
    && (f.addr.None? || e.addr == f.addr)
    && (f.endpoint.None? || e.endpoint == f.endpoint)
  }

  /** The matching entries, in registry order. */
  function Matching(es: seq<Entry>, f: Filter): (r: seq<Entry>)
    ensures |r| <= |es|
    ensures forall e :: e in r ==> e in es && Matches(e, f)
  {
    if |es| == 0 then []
    else
      var m := Matching(es[..|es| - 1], f);
      if Matches(es[|es| - 1], f) then m + [es[|es| - 1]] else m
  }

  /** What `registry_select` builds: a copy of each matching entry, each
      prepended, so the last match comes first. */
  function Selected(es: seq<Entry>, f: Filter): seq<Option<Entry>> {
    if |es| == 0 then []
    else
      var s := Selected(es[..|es| - 1], f);
      if Matches(es[|es| - 1], f) then [Clone(es[|es| - 1])] + s else s
  }

  /** One more entry scanned by `registry_count`. */
  lemma MatchingStep(es: seq<Entry>, i: nat, f: Filter)
    requires i < |es|
    ensures |Matching(es[..i + 1], f)| == |Matching(es[..i], f)| + if Matches(es[i], f) then 1 else 0
  {
    assert es[..i + 1][..i] == es[..i];
  }

  /** One more entry scanned by `registry_select`. */
  lemma SelectedStep(es: seq<Entry>, i: nat, f: Filter)
    requires i < |es|
    ensures Selected(es[..i + 1], f)
      == if Matches(es[i], f) then [Clone(es[i])] + Selected(es[..i], f) else Selected(es[..i], f)
  {
    assert es[..i + 1][..i] == es[..i];
  }

  /** The selection is the list of matches, copied and in reverse order. */
  lemma {:induction false} SelectedIsReversedMatching(es: seq<Entry>, f: Filter)
    ensures |Selected(es, f)| == |Matching(es, f)|
    ensures forall i :: 0 <= i < |Selected(es, f)| ==>
      Selected(es, f)[i] == Clone(Matching(es, f)[|Matching(es, f)| - 1 - i])
  {
    if |es| > 0 {
      SelectedIsReversedMatching(es[..|es| - 1], f);
    }
  }

  /** With no field set and TYPE_ANY, everything matches. */
  lemma {:induction false} EverythingMatches(es: seq<Entry>)
    ensures Matching(es, Everything) == es
  {
    if |es| > 0 {
      EverythingMatches(es[..|es| - 1]);
      assert es == es[..|es| - 1] + [es[|es| - 1]];
    }
  }

  /** Matching distributes over concatenation. */
  lemma {:induction false} MatchingAppend(a: seq<Entry>, b: seq<Entry>, f: Filter)
    ensures Matching(a + b, f) == Matching(a, f) + Matching(b, f)
    decreases |b|
  {
    if |b| == 0 {
      assert a + b == a;
    } else {
      assert (a + b)[..|a + b| - 1] == a + b[..|b| - 1];
      MatchingAppend(a, b[..|b| - 1], f);
    }
  }

  /** The index of the first entry whose id is `id`; a NULL id matches none. */
  function FirstWithId(es: seq<Entry>, id: Option<string>): (r: Option<nat>)
    ensures r.Some? ==> r.value < |es| && id.Some? && es[r.value].id == id.value
    ensures r.Some? ==> forall i :: 0 <= i < r.value ==> es[i].id != id.value
    ensures r.None? ==> id.None? || forall i :: 0 <= i < |es| ==> es[i].id != id.value
  {
    if id.None? || |es| == 0 then None
    else if es[0].id == id.value then Some(0)
    else match FirstWithId(es[1..], id)
      case None => None
      case Some(k) => Some(k + 1)
  }

  /** Every entry has a known type and every address was accepted by the
      parser or the setters. */
  predicate EntriesOk(es: seq<Entry>) {
    forall i :: 0 <= i < |es| ==> es[i].typ >= 0 && (es[i].addr.Some? ==> WellFormed(es[i].addr.value))
  }

  /** Removing the first entry with an id lowers the number of entries with
      that id by exactly one. */
  lemma RemovingFirstWithId(es: seq<Entry>, id: string)
    requires FirstWithId(es, Some(id)).Some?
    ensures var k := FirstWithId(es, Some(id)).value;
      var f := Filter(Some(id), None, None, TYPE_ANY, None, None);
      |Matching(es[..k] + es[k + 1..], f)| == |Matching(es, f)| - 1
  {
    var k := FirstWithId(es, Some(id)).value;
    var f := Filter(Some(id), None, None, TYPE_ANY, None, None);
    assert es == es[..k] + [es[k]] + es[k + 1..];
    MatchingAppend(es[..k] + [es[k]], es[k + 1..], f);
    MatchingAppend(es[..k], [es[k]], f);
    MatchingAppend(es[..k], es[k + 1..], f);
    assert Matching([es[k]], f) == Matching([], f) + [es[k]];
  }

  class Registry {
    var entries: seq<Entry>

    ghost predicate Valid()
      reads this
    {
      EntriesOk(entries)
    }

    /** `new_registry`: an empty list. */
    constructor ()
      ensures Valid() && entries == []
    {
      entries := [];
    }

    /** `registry_insert`: builds the entry (a NULL id is replaced by a
        fresh UUID, given here as `uuid`) and appends it. NULL name, topic
        or address, or a negative type, is refused with -1. */
    method Insert(id: Option<string>, name: Option<string>, topic: Option<string>, typ: int,
                  addr: Option<Address>, endpoint: Option<nat>, uuid: string) returns (err: int)
      requires Valid()
      requires addr.Some? ==> WellFormed(addr.value)
      modifies this
      ensures Valid()
      ensures err == 0 <==> name.Some? && topic.Some? && addr.Some? && typ >= 0
      ensures err == 0 ==>
        entries == old(entries) + [Entry(if id.None? then uuid else id.value, name.value, topic.value, typ, addr, endpoint)]
      ensures err != 0 ==> err == -1 && entries == old(entries)
    {
      if name.None? || topic.None? || addr.None? || typ < 0 {
        return -1;
      }
      var e := Entry(if id.None? then uuid else id.value, name.value, topic.value, typ, addr, endpoint);
      entries := entries + [e];
      return 0;
    }

    /** `registry_get`: a copy of the first entry with that id. */
    method Get(id: Option<string>) returns (r: Option<Entry>)
      ensures FirstWithId(entries, id).None? ==> r.None?
      ensures FirstWithId(entries, id).Some? ==> r == Clone(entries[FirstWithId(entries, id).value])
    {
      var i := 0;
      while i < |entries|
        invariant 0 <= i <= |entries|
        invariant id.None? || forall k :: 0 <= k < i ==> entries[k].id != id.value
      {
        if id.Some? && entries[i].id == id.value {
          assert FirstWithId(entries, id) == Some(i) by { FirstWithIdAt(entries, id, i); }
          return Clone(entries[i]);
        }
        i := i + 1;
      }
      return None;
    }

    /** `registry_select`: copies of the matching entries, last match first. */
    method Select(f: Filter) returns (results: seq<Option<Entry>>)
      ensures results == Selected(entries, f)
      ensures |results| == |Matching(entries, f)|
    {
      results := [];
      var i := 0;
      while i < |entries|
        invariant 0 <= i <= |entries|
        invariant results == Selected(entries[..i], f)
      {
        SelectedStep(entries, i, f);
        if Matches(entries[i], f) {
          results := [Clone(entries[i])] + results;
        }
        i := i + 1;
      }
      assert entries[..i] == entries;
      SelectedIsReversedMatching(entries, f);
    }

    /** `registry_count`: the number of matching entries. */
    method Count(f: Filter) returns (count: int)
      ensures count == |Matching(entries, f)|
    {
      count := 0;
      var i := 0;
      while i < |entries|
        invariant 0 <= i <= |entries|
        invariant count == |Matching(entries[..i], f)|
      {
        MatchingStep(entries, i, f);
        if Matches(entries[i], f) {
          count := count + 1;
        }
        i := i + 1;
      }
      assert entries[..i] == entries;
    }

    /** `registry_delete`: removes the first entry with that id (0), or
        reports -1 and changes nothing. */
    method Delete(id: Option<string>) returns (ret: int)
      requires Valid()
      modifies this
      ensures Valid()
      ensures FirstWithId(old(entries), id).None? ==> ret == -1 && entries == old(entries)
      ensures FirstWithId(old(entries), id).Some? ==>
        var k := FirstWithId(old(entries), id).value;
        ret == 0 && entries == old(entries)[..k] + old(entries)[k + 1..]
    {
      var i := 0;
      while i < |entries|
        invariant 0 <= i <= |entries|
        invariant id.None? || forall k :: 0 <= k < i ==> entries[k].id != id.value
      {
        if id.Some? && entries[i].id == id.value {
          FirstWithIdAt(entries, id, i);
          entries := entries[..i] + entries[i + 1..];
          return 0;
        }
        i := i + 1;
      }
      return -1;
    }

    /** `registry_update_addr`: the first entry with that id gets the
        parsed address, or NULL and the result -1 when the text does not
        parse; no match is not an error. */
    method UpdateAddr(id: Option<string>, text: string) returns (err: int)
      requires Valid()
      modifies this
      ensures Valid()
      ensures FirstWithId(old(entries), id).None? ==> err == 0 && entries == old(entries)
      ensures FirstWithId(old(entries), id).Some? ==>
        var k := FirstWithId(old(entries), id).value;
        entries == old(entries)[k := old(entries)[k].(addr := ParseAddrAsWritten(text))] &&
        (err == 0 <==> ParseAddrAsWritten(text).Some?) && (err != 0 ==> err == -1)
    {
      var i := 0;
      while i < |entries|
        invariant 0 <= i <= |entries|
        invariant id.None? || forall k :: 0 <= k < i ==> entries[k].id != id.value
      {
        if id.Some? && entries[i].id == id.value {
          FirstWithIdAt(entries, id, i);
          var a := Addresses.Parse(text);
          var na: Option<Address> := if a == null then None else Some(a.Value());
          entries := entries[i := entries[i].(addr := na)];
          return if a == null then -1 else 0;
        }
        i := i + 1;
      }
      return 0;
    }
  }

  /** The first match found by a scan from the front is `FirstWithId`. */
  lemma FirstWithIdAt(es: seq<Entry>, id: Option<string>, i: nat)
    requires i < |es| && id.Some? && es[i].id == id.value
    requires forall k :: 0 <= k < i ==> es[k].id != id.value
    ensures FirstWithId(es, id) == Some(i)
  {
    var r := FirstWithId(es, id);
    assert r.Some?;
  }
}
