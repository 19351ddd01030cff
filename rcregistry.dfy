/**
 * The registry server of src/rcregistry.c: it routes each request message
 * to a handler, keeps the entries in a registry and hands out ids from a
 * counter. The JSON message is reduced to the fields the handlers read; the
 * replies and broadcasts it would send are returned as values.
 */
module RcRegistry {
  import opened Common
  import opened Addresses
  import opened Registry

  /** The fields the handlers read from a request object. `request` and
      `addr` are NULL when missing or not strings; `entry` is NULL when
      the key is missing or JSON null; `id` is NULL when the field is not
      a number (NaN), and otherwise holds the number cast to int. */
  datatype Message = Message(request: Option<string>, entry: Option<Request>,
                             id: Option<int>, addr: Option<string>)

  /** What the server sends back on the link of the request. */
  datatype Reply =
    | Fail(request: string, message: string)
    | Success(request: string)
    | UpdateList(list: seq<Option<Entry>>)
    | Silent

  /** What the server sends to all links of its hub. */
  datatype Broadcast =
    | ProxyAdd(id: int, entry: Entry)
    | ProxyRemove(id: int)
    | ProxyUpdateAddress(id: int, addr: string)
    | NoBroadcast

  /** The handler a message is routed to. */
  datatype Route =
    | ParseFailure
    | InvalidRequest
    | Register
    | Unregister
    | List
    | UpdateAddress
    | Unknown(request: string)

  /** The request names the server knows. */
  predicate Known(request: string) {
    request == "register" || request == "unregister" || request == "list"
    || request == "update-address"
  }

  /** `rcregistry_onmessage`: a NULL message fails to parse, a message
      without a request string is invalid, the four known names each have
      a handler, and any other name is unknown. */
  function RouteOf(m: Option<Message>): (r: Route)
    ensures r == ParseFailure <==> m.None?
    ensures r == InvalidRequest <==> m.Some? && m.value.request.None?
    ensures r.Unknown? <==> m.Some? && m.value.request.Some? && !Known(m.value.request.value)
    ensures r.Unknown? ==> r.request == m.value.request.value
    ensures r == Register <==> m.Some? && m.value.request == Some("register")
    ensures r == Unregister <==> m.Some? && m.value.request == Some("unregister")
    ensures r == List <==> m.Some? && m.value.request == Some("list")
    ensures r == UpdateAddress <==> m.Some? && m.value.request == Some("update-address")
  {
    if m.None? then ParseFailure
    else if m.value.request.None? then InvalidRequest
    else
      var req := m.value.request.value;
      if req == "register" then Register
      else if req == "unregister" then Unregister
      else if req == "list" then List
      else if req == "update-address" then UpdateAddress
      else Unknown(req)
  }

  /** The reply of a message that reaches no handler. */
  function RoutingReply(r: Route): Reply {
    match r
    case ParseFailure => Fail("?", "Failed to parse the request")
    case InvalidRequest => Fail("?", "Invalid request")
    case Unknown(req) => Fail(req, "Unknown request")
    case _ => Silent
  }

  /** The messages nobody can route are answered with a failure naming
      the cause, and only the unknown name is echoed back. */
  lemma RoutingFailures(m: Option<Message>)
    ensures m.None? ==> RoutingReply(RouteOf(m)) == Fail("?", "Failed to parse the request")
    ensures m.Some? && m.value.request.None? ==>
      RoutingReply(RouteOf(m)) == Fail("?", "Invalid request")
    ensures m.Some? && m.value.request.Some? && !Known(m.value.request.value) ==>
      RoutingReply(RouteOf(m)) == Fail(m.value.request.value, "Unknown request")
    ensures m.Some? && m.value.request.Some? && Known(m.value.request.value) ==>
      RoutingReply(RouteOf(m)) == Silent
  {
  }

  /** The switch of `rcregistry_register` over the parse error. */
  function RegisterFailMessage(err: int): string {
    if err == -1 then "Invalid name"
    else if err == -2 then "Invalid topic"
    else if err == -3 then "Invalid type"
    else if err == -4 then "Invalid address"
    else if err == -5 then "Invalid ID"
    else "Unknown error"
  }

  /** Each parse error has its own message, different from the catch-all,
      so a client can tell from the reply which check failed. */
  lemma RegisterFailMessagesDistinct(e1: int, e2: int)
    requires -5 <= e1 <= -1 && -5 <= e2 <= -1
    ensures RegisterFailMessage(e1) != "Unknown error"
    ensures RegisterFailMessage(e1) == RegisterFailMessage(e2) <==> e1 == e2
  {
  }

  /** A request failing a check is told about the first check it fails. */
  lemma RegisterFailMessageOfRequest(req: Request)
    requires ParseError(req) != 0
    ensures !IsUuid(req.id) ==> RegisterFailMessage(ParseError(req)) == "Invalid ID"
    ensures IsUuid(req.id) && !IsName(req.name) ==>
      RegisterFailMessage(ParseError(req)) == "Invalid name"
    ensures IsUuid(req.id) && IsName(req.name) && !IsTopic(req.topic) ==>
      RegisterFailMessage(ParseError(req)) == "Invalid topic"
    ensures RegisterFailMessage(ParseError(req)) != "Unknown error"
  {
  }

  /** Ids are handed out as decimal text of the counter, which starts at
      1 and only grows; distinct counter values give distinct ids. */
  lemma IdTextInjective(a: int, b: int)
    requires a >= 1 && b >= 1
    ensures IntString(a) == IntString(b) <==> a == b
  {
    if IntString(a) == IntString(b) {
      DecValueOfDecimalString(a);
      DecValueOfDecimalString(b);
    }
  }

  class Server {
    var registry: Registry
    /** The next id to hand out. */
    var id: int

    ghost predicate Valid()
      reads this, registry
    {
      registry.Valid() && id >= 1
    }

    /** `new_rcregistry`: an empty registry and id counter 1. */
    constructor ()
      ensures Valid() && fresh(registry)
      ensures id == 1 && registry.entries == []
    {
      registry := new Registry();
      id := 1;
    }

    /** `rcregistry_register`: checks the entry; on success takes the
        next id, inserts the entry under that id and broadcasts it. */
    method RegisterEntry(m: Message) returns (reply: Reply, cast: Broadcast)
      requires Valid()
      modifies this, registry
      ensures Valid() && registry == old(registry)
      ensures m.entry.None? ==>
        reply == Fail("register-response", "Invalid entry value") && cast == NoBroadcast
        && id == old(id) && registry.entries == old(registry.entries)
      ensures m.entry.Some? && ParseError(m.entry.value) != 0 ==>
        reply == Fail("register-response", RegisterFailMessage(ParseError(m.entry.value)))
        && cast == NoBroadcast && id == old(id) && registry.entries == old(registry.entries)
      ensures m.entry.Some? && ParseError(m.entry.value) == 0 ==>
        var req := m.entry.value;
        var e := Entry(IntString(old(id)), req.name.value, req.topic.value, StrToType(req.typ),
                       ParseAddrAsWritten(req.addr.value), None);
        reply == Success("register-response") && cast == ProxyAdd(old(id), e)
        && id == old(id) + 1 && registry.entries == old(registry.entries) + [e]
    {
      if m.entry.None? {
        return Fail("register-response", "Invalid entry value"), NoBroadcast;
      }
      var err, entry := ParseEntry(m.entry.value);
      assert err == ParseError(m.entry.value);
      if err != 0 {
        return Fail("register-response", RegisterFailMessage(err)), NoBroadcast;
      }
      var n := id;
      id := id + 1;
      var e := entry.value;
      var r := registry.Insert(Some(IntString(n)), Some(e.name), Some(e.topic), e.typ, e.addr, None, "");
      if r != 0 {
        assert false;
        return Fail("register-response", "Internal error"), NoBroadcast;
      }
      return Success("register-response"), ProxyAdd(n, e.(id := IntString(n)));
    }

    /** `rcregistry_unregister`: a message without a numeric id is dropped;
        otherwise the first entry with that id is removed and the removal
        broadcast, or the reply is an internal error when none matches. */
    method UnregisterEntry(m: Message) returns (reply: Reply, cast: Broadcast)
      requires Valid()
      modifies registry
      ensures Valid()
      ensures m.id.None? ==>
        reply == Silent && cast == NoBroadcast && registry.entries == old(registry.entries)
      ensures m.id.Some? && FirstWithId(old(registry.entries), Some(IntString(m.id.value))).None? ==>
        reply == Fail("unregister-response", "Internal error") && cast == NoBroadcast
        && registry.entries == old(registry.entries)
      ensures m.id.Some? && FirstWithId(old(registry.entries), Some(IntString(m.id.value))).Some? ==>
        var k := FirstWithId(old(registry.entries), Some(IntString(m.id.value))).value;
        reply == Success("unregister-response") && cast == ProxyRemove(m.id.value)
        && registry.entries == old(registry.entries)[..k] + old(registry.entries)[k + 1..]
    {
      if m.id.None? {
        return Silent, NoBroadcast;
      }
      var err := registry.Delete(Some(IntString(m.id.value)));
      if err != 0 {
        return Fail("unregister-response", "Internal error"), NoBroadcast;
      }
      return Success("unregister-response"), ProxyRemove(m.id.value);
    }

    /** `rcregistry_send_list`: every entry, as `registry_select_all`
        lists them. */
    method SendList() returns (reply: Reply)
      ensures reply == UpdateList(Selected(registry.entries, Everything))
      ensures |reply.list| == |registry.entries|
      ensures forall i :: 0 <= i < |reply.list| ==>
        reply.list[i] == Clone(registry.entries[|registry.entries| - 1 - i])
    {
      var all := registry.Select(Everything);
      EverythingMatches(registry.entries);
      SelectedIsReversedMatching(registry.entries, Everything);
      return UpdateList(all);
    }

    /** `rcregistry_update_address`: a message without a numeric id or an
        address string is dropped; otherwise the matching entry gets the
        new address, and a failure to parse it is an internal error. */
    method UpdateEntryAddress(m: Message) returns (reply: Reply, cast: Broadcast)
      requires Valid()
      modifies registry
      ensures Valid()
      ensures m.id.None? || m.addr.None? ==>
        reply == Silent && cast == NoBroadcast && registry.entries == old(registry.entries)
      ensures m.id.Some? && m.addr.Some? ==>
        var es := old(registry.entries);
        var f := FirstWithId(es, Some(IntString(m.id.value)));
        (f.None? ==> registry.entries == es)
        && (f.Some? ==> registry.entries == es[f.value := es[f.value].(addr := ParseAddrAsWritten(m.addr.value))])
        && (f.Some? && ParseAddrAsWritten(m.addr.value).None? ==>
              reply == Fail("update-address-response", "Internal error") && cast == NoBroadcast)
        && (f.None? || ParseAddrAsWritten(m.addr.value).Some? ==>
              reply == Success("update-address-response")
              && cast == ProxyUpdateAddress(m.id.value, m.addr.value))
    {
      if m.id.None? || m.addr.None? {
        return Silent, NoBroadcast;
      }
      var err := registry.UpdateAddr(Some(IntString(m.id.value)), m.addr.value);
      if err != 0 {
        return Fail("update-address-response", "Internal error"), NoBroadcast;
      }
      return Success("update-address-response"), ProxyUpdateAddress(m.id.value, m.addr.value);
    }

    /** `rcregistry_onmessage`: routes the message; the id counter moves
        only for a register request. */
    method OnMessage(m: Option<Message>) returns (reply: Reply, cast: Broadcast)
      requires Valid()
      modifies this, registry
      ensures Valid() && registry == old(registry)
      ensures RouteOf(m) != Register ==> id == old(id)
      ensures id == old(id) || id == old(id) + 1
      ensures RouteOf(m) !in {Register, Unregister, List, UpdateAddress} ==>
        reply == RoutingReply(RouteOf(m)) && cast == NoBroadcast
        && registry.entries == old(registry.entries)
      ensures RouteOf(m) == List ==>
        reply == UpdateList(Selected(registry.entries, Everything)) && cast == NoBroadcast
        && registry.entries == old(registry.entries)
      ensures RouteOf(m) == Register && m.value.entry.None? ==>
        reply == Fail("register-response", "Invalid entry value") && cast == NoBroadcast
        && registry.entries == old(registry.entries)
      ensures RouteOf(m) == Register && m.value.entry.Some? && ParseError(m.value.entry.value) != 0 ==>
        reply == Fail("register-response", RegisterFailMessage(ParseError(m.value.entry.value)))
        && cast == NoBroadcast && registry.entries == old(registry.entries)
      ensures RouteOf(m) == Register && m.value.entry.Some? && ParseError(m.value.entry.value) == 0 ==>
        var req := m.value.entry.value;
        var e := Entry(IntString(old(id)), req.name.value, req.topic.value, StrToType(req.typ),
                       ParseAddrAsWritten(req.addr.value), None);
        reply == Success("register-response") && cast == ProxyAdd(old(id), e)
        && id == old(id) + 1 && registry.entries == old(registry.entries) + [e]
      ensures RouteOf(m) == Unregister && m.value.id.None? ==>
        reply == Silent && cast == NoBroadcast && registry.entries == old(registry.entries)
      ensures RouteOf(m) == Unregister && m.value.id.Some? ==>
        var f := FirstWithId(old(registry.entries), Some(IntString(m.value.id.value)));
        (f.None? ==> reply == Fail("unregister-response", "Internal error") && cast == NoBroadcast
                     && registry.entries == old(registry.entries))
        && (f.Some? ==> reply == Success("unregister-response") && cast == ProxyRemove(m.value.id.value)
                        && registry.entries == old(registry.entries)[..f.value] + old(registry.entries)[f.value + 1..])
      ensures RouteOf(m) == UpdateAddress && (m.value.id.None? || m.value.addr.None?) ==>
        reply == Silent && cast == NoBroadcast && registry.entries == old(registry.entries)
      ensures RouteOf(m) == UpdateAddress && m.value.id.Some? && m.value.addr.Some? ==>
        var es := old(registry.entries);
        var a := ParseAddrAsWritten(m.value.addr.value);
        var f := FirstWithId(es, Some(IntString(m.value.id.value)));
        (f.None? ==> registry.entries == es)
        && (f.Some? ==> registry.entries == es[f.value := es[f.value].(addr := a)])
        && (f.Some? && a.None? ==>
              reply == Fail("update-address-response", "Internal error") && cast == NoBroadcast)
        && (f.None? || a.Some? ==>
              reply == Success("update-address-response")
              && cast == ProxyUpdateAddress(m.value.id.value, m.value.addr.value))
    {
      var route := RouteOf(m);
      match route {
        case Register =>
          reply, cast := RegisterEntry(m.value);
        case Unregister =>
          reply, cast := UnregisterEntry(m.value);
        case List =>
          reply := SendList();
          cast := NoBroadcast;
        case UpdateAddress =>
          reply, cast := UpdateEntryAddress(m.value);
        case _ =>
          reply := RoutingReply(route);
          cast := NoBroadcast;
      }
    }
  }
}
