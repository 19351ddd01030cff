/**
 * The server side of the WebSocket opening handshake in src/messagelink.c:
 * looking up a request header by name, and the check of the upgrade
 * request that decides whether the connection is upgraded.
 */
module Handshake {
  import opened Common

  /** A parsed request header; either part is NULL when the parser never
      delivered it. */
  datatype Field = Field(name: Option<string>, value: Option<string>)

  /** `rstreq`: both strings present and equal. */
  predicate StrEq(a: Option<string>, b: string) {
    a.Some? && a.value == b
  }

  /** `messagelink_get_header`: the first header in the request list whose
      name is exactly `name`, or NULL. */
  function GetHeader(hs: seq<Field>, name: string): (r: Option<nat>)
    ensures r.Some? ==> r.value < |hs| && StrEq(hs[r.value].name, name)
    ensures r.Some? ==> forall i :: 0 <= i < r.value ==> !StrEq(hs[i].name, name)
    ensures r.None? <==> forall i :: 0 <= i < |hs| ==> !StrEq(hs[i].name, name)
  {
    if |hs| == 0 then None
    else if StrEq(hs[0].name, name) then Some(0)
    else match GetHeader(hs[1..], name)
      case None => None
      case Some(k) => Some(k + 1)
  }

  predicate Has(hs: seq<Field>, name: string) {
    GetHeader(hs, name).Some?
  }

  /** The value of the first header called `name`: NULL when the header
      is missing or has no value. */
  function ValueOf(hs: seq<Field>, name: string): Option<string> {
    match GetHeader(hs, name)
    case None => None
    case Some(k) => hs[k].value
  }

  /** A header added behind the list does not change an earlier lookup. */
  lemma {:induction false} GetHeaderAppend(hs: seq<Field>, more: seq<Field>, name: string)
    requires Has(hs, name)
    ensures GetHeader(hs + more, name) == GetHeader(hs, name)
  {
    if !StrEq(hs[0].name, name) {
      assert (hs + more)[1..] == hs[1..] + more;
      GetHeaderAppend(hs[1..], more, name);
    }
  }

  /** `strstr(connection->value, "Upgrade")`; a NULL value is taken as
      not containing it. */
  predicate ConnectionUpgrades(hs: seq<Field>) {
    var c := ValueOf(hs, "Connection");
    c.Some? && Contains(c.value, "Upgrade")
  }

  /** `server_messagelink_validate_request` as written: each missing
      header is -1, but a wrong version, a wrong upgrade value or a
      connection header without "Upgrade" returns 0 as well, so such a
      request is upgraded. */
  function ValidateAsWritten(hs: seq<Field>): (r: int)
    ensures r == 0 || r == -1
  {
    if !Has(hs, "Sec-WebSocket-Key") then -1
    else if !Has(hs, "Sec-WebSocket-Version") then -1
    else if !StrEq(ValueOf(hs, "Sec-WebSocket-Version"), "13") then 0
    else if !Has(hs, "Upgrade") then -1
    else if !StrEq(ValueOf(hs, "Upgrade"), "websocket") then 0
    else if !Has(hs, "Connection") then -1
    else if !ConnectionUpgrades(hs) then 0
    else 0
  }

  /** The requirements of section 4.2.1 of RFC 6455 that the check reads:
      a key, version 13, "Upgrade: websocket" and a Connection header
      naming Upgrade. */
  predicate Acceptable(hs: seq<Field>) {
    Has(hs, "Sec-WebSocket-Key")
    && StrEq(ValueOf(hs, "Sec-WebSocket-Version"), "13")
    && StrEq(ValueOf(hs, "Upgrade"), "websocket")
    && ConnectionUpgrades(hs)
  }

  /** The check as evidently intended: every failed test refuses. */
  function Validate(hs: seq<Field>): (r: int)
    ensures r == 0 || r == -1
  {
    if !Has(hs, "Sec-WebSocket-Key") then -1
    else if !Has(hs, "Sec-WebSocket-Version") then -1
    else if !StrEq(ValueOf(hs, "Sec-WebSocket-Version"), "13") then -1
    else if !Has(hs, "Upgrade") then -1
    else if !StrEq(ValueOf(hs, "Upgrade"), "websocket") then -1
    else if !Has(hs, "Connection") then -1
    else if !ConnectionUpgrades(hs) then -1
    else 0
  }

  lemma ValueImpliesHas(hs: seq<Field>, name: string)
    requires ValueOf(hs, name).Some?
    ensures Has(hs, name)
  {
  }

  /** The corrected check accepts exactly the acceptable requests. */
  lemma ValidateAccepts(hs: seq<Field>)
    ensures Validate(hs) == 0 <==> Acceptable(hs)
  {
    if Acceptable(hs) {
      ValueImpliesHas(hs, "Sec-WebSocket-Version");
      ValueImpliesHas(hs, "Upgrade");
      ValueImpliesHas(hs, "Connection");
    }
  }

  /** The check as written refuses exactly when a header it looks up is
      missing, and it stops looking after the first bad value. */
  lemma ValidateAsWrittenRefuses(hs: seq<Field>)
    ensures ValidateAsWritten(hs) == -1 <==>
      !Has(hs, "Sec-WebSocket-Key")
      || !Has(hs, "Sec-WebSocket-Version")
      || (StrEq(ValueOf(hs, "Sec-WebSocket-Version"), "13") && !Has(hs, "Upgrade"))
      || (StrEq(ValueOf(hs, "Sec-WebSocket-Version"), "13") && StrEq(ValueOf(hs, "Upgrade"), "websocket")
          && !Has(hs, "Connection"))
  {
    if StrEq(ValueOf(hs, "Sec-WebSocket-Version"), "13") {
      ValueImpliesHas(hs, "Sec-WebSocket-Version");
    }
  }

  /** Everything the corrected check accepts, the written one accepts too. */
  lemma ValidateStricter(hs: seq<Field>)
    ensures Validate(hs) == 0 ==> ValidateAsWritten(hs) == 0
    ensures ValidateAsWritten(hs) == -1 ==> Validate(hs) == -1
  {
  }

  /** A request with a key and version 8, and no Upgrade or Connection
      header at all, is upgraded by the check as written. */
  lemma BadVersionAccepted()
    ensures ValidateAsWritten([Field(Some("Sec-WebSocket-Key"), Some("x")),
                               Field(Some("Sec-WebSocket-Version"), Some("8"))]) == 0
    ensures Validate([Field(Some("Sec-WebSocket-Key"), Some("x")),
                      Field(Some("Sec-WebSocket-Version"), Some("8"))]) == -1
  {
    var hs := [Field(Some("Sec-WebSocket-Key"), Some("x")),
               Field(Some("Sec-WebSocket-Version"), Some("8"))];
    assert GetHeader(hs, "Sec-WebSocket-Key") == Some(0);
    assert GetHeader(hs[1..], "Sec-WebSocket-Version") == Some(0);
    assert GetHeader(hs, "Sec-WebSocket-Version") == Some(1);
  }
}
