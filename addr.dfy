/** IPv4 endpoints (src/addr.c). The C code stores a `sockaddr_in`; the model
    keeps the IP as the text it was set from and the port as a number. */
module Addresses {
  import opened Common

  /** The value an `addr_t` holds: IP text and port. */
  datatype Address = Address(ip: string, port: int)

  /** `addr_set_ip` only checks the length of the text. */
  predicate IpTextOk(ip: string) { 7 <= |ip| <= 15 }

  predicate PortOk(port: int) { 0 <= port < 65536 }

  /** What every address the setters leave behind satisfies. */
  predicate WellFormed(a: Address) { IpTextOk(a.ip) && PortOk(a.port) }

  /** The text an IP argument stands for: NULL means "0.0.0.0". */
  function IpOf(text: Option<string>): string {
    if text.None? then "0.0.0.0" else text.value
  }

  /** Whether `addr_set_ip` accepts its argument. */
  predicate IpAccepted(text: Option<string>) {
    text.None? || IpTextOk(text.value)
  }

  class Addr {
    var ip: string
    var port: int

    ghost predicate Valid()
      reads this
    {
      WellFormed(Value())
    }

    function Value(): Address
      reads this
    {
      Address(ip, port)
    }

    /** `new_addr0`: the zero address 0.0.0.0:0. */
    constructor Zero()
      ensures Valid() && Value() == Address("0.0.0.0", 0)
    {
      ip := "0.0.0.0";
      port := 0;
    }

    /** `addr_set_ip`: NULL sets 0.0.0.0; text shorter than 7 or longer than
        15 characters is refused and changes nothing. */
    method SetIp(text: Option<string>) returns (err: int)
      requires Valid()
      modifies this
      ensures Valid()
      ensures err == 0 || err == -1
      ensures err == 0 <==> IpAccepted(text)
      ensures err == 0 ==> Value() == Address(IpOf(text), old(port))
      ensures err != 0 ==> Value() == old(Value())
    {
      if text.None? {
        ip := "0.0.0.0";
        return 0;
      }
      if |text.value| < 7 || |text.value| > 15 {
        return -1;
      }
      ip := text.value;
      return 0;
    }

    /** `addr_set_port`: ports outside 0..65535 are refused. */
    method SetPort(p: int) returns (err: int)
      requires Valid()
      modifies this
      ensures Valid()
      ensures err == 0 <==> PortOk(p)
      ensures err == 0 ==> Value() == Address(old(ip), p)
      ensures err != 0 ==> err == -1 && Value() == old(Value())
    {
      if p < 0 || p >= 65536 {
        return -1;
      }
      port := p;
      return 0;
    }

    /** `addr_set`: the IP first, then the port; a refused port leaves the
        new IP in place. */
    method Set(text: Option<string>, p: int) returns (err: int)
      requires Valid()
      modifies this
      ensures Valid()
      ensures err == 0 <==> IpAccepted(text) && PortOk(p)
      ensures err == 0 ==> Value() == Address(IpOf(text), p)
      ensures !IpAccepted(text) ==> Value() == old(Value())
      ensures IpAccepted(text) && !PortOk(p) ==> Value() == Address(IpOf(text), old(port))
    {
      err := SetIp(text);
      if err != 0 {
        return -1;
      }
      err := SetPort(p);
      if err != 0 {
        return -1;
      }
      return 0;
    }
  }

  /** `new_addr`: NULL when the IP or the port is refused. */
  method NewAddr(text: Option<string>, p: int) returns (a: Addr?)
    ensures a == null <==> !(IpAccepted(text) && PortOk(p))
    ensures a != null ==> fresh(a) && a.Valid() && a.Value() == Address(IpOf(text), p)
  {
    a := new Addr.Zero();
    var err := a.Set(text, p);
    if err != 0 {
      return null;
    }
  }

  /** `addr_string`: "(null)" for a NULL address, else "ip:port". */
  function AddrString(a: Option<Address>): (s: string)
    ensures a.None? ==> s == "(null)"
    ensures a.Some? ==> s == a.value.ip + ":" + IntString(a.value.port)
  {
    if a.None? then "(null)" else a.value.ip + ":" + IntString(a.value.port)
  }

  /** `addr_eq`: same port and same IP text, which for the model's values is
      equality. */
  function AddrEq(a: Address, b: Address): (r: bool)
    ensures r <==> a == b
  {
    a.port == b.port && a.ip == b.ip
  }

  /** `addr_parse` as written: the text before the first ':' is the IP; the
      rest is read by `strtol` and the `long` result is stored into an `int`
      before it is range-checked. */
  function ParseAddrAsWritten(s: string): (r: Option<Address>)
    ensures r.Some? ==> WellFormed(r.value)
  {
    match IndexOf(s, ':')
    case None => None
    case Some(k) => FromPartsAsWritten(s[..k], s[k + 1..])
  }

  /** The address `addr_parse` as written builds from the IP text and the
      port text. */
  function FromPartsAsWritten(ip: string, rest: string): (r: Option<Address>)
    ensures r.Some? ==> WellFormed(r.value)
  {
    var n := ParseLong(rest);
    var port := ToInt32(n.value);
    if !IpTextOk(ip) then None
    else if port < 0 || port > 65535 || n.end == 0 || n.end != |rest| then None
    else Some(Address(ip, port))
  }

  /** `addr_parse` with the range check applied to the value `strtol` read,
      before any narrowing. */
  function ParseAddr(s: string): (r: Option<Address>)
    ensures r.Some? ==> WellFormed(r.value)
  {
    match IndexOf(s, ':')
    case None => None
    case Some(k) => FromParts(s[..k], s[k + 1..])
  }

  /** The address the corrected `addr_parse` builds from the IP text and
      the port text. */
  function FromParts(ip: string, rest: string): (r: Option<Address>)
    ensures r.Some? ==> WellFormed(r.value)
  {
    var n := ParseLong(rest);
    if !IpTextOk(ip) then None
    else if n.value < 0 || n.value > 65535 || n.end == 0 || n.end != |rest| then None
    else Some(Address(ip, n.value))
  }

  /** An address text "ip:port" whose IP has no ':' is accepted exactly
      when the IP is 7 to 15 characters long and `strtol` reads all of the
      port text as a number in 0..65535; the address is then that IP and
      that number. */
  lemma ParseAddrAccepts(ip: string, rest: string)
    requires ':' !in ip
    ensures var n := ParseLong(rest);
      ParseAddr(ip + ":" + rest).Some? <==>
        IpTextOk(ip) && 0 < n.end == |rest| && 0 <= n.value <= 65535
    ensures ParseAddr(ip + ":" + rest).Some? ==>
      ParseAddr(ip + ":" + rest).value == Address(ip, ParseLong(rest).value)
  {
    ParseOfParts(ip, rest);
  }

  /** The code as written accepts "ip:rest" exactly when the IP is 7 to 15
      characters long, `strtol` reads all of `rest` as a number, and that
      number narrowed to an `int` is in 0..65535; the port is the narrowed
      number. */
  lemma ParseAddrAsWrittenAccepts(ip: string, rest: string)
    requires ':' !in ip
    ensures var n := ParseLong(rest);
      ParseAddrAsWritten(ip + ":" + rest).Some? <==>
        IpTextOk(ip) && 0 < n.end == |rest| && 0 <= ToInt32(n.value) <= 65535
    ensures ParseAddrAsWritten(ip + ":" + rest).Some? ==>
      ParseAddrAsWritten(ip + ":" + rest).value == Address(ip, ToInt32(ParseLong(rest).value))
  {
    ParseOfParts(ip, rest);
  }

  /** Whenever the intended parser accepts, the code as written accepts the
      same address. */
  lemma ParseAddrAgrees(s: string)
    requires ParseAddr(s).Some?
    ensures ParseAddrAsWritten(s) == ParseAddr(s)
  {
  }

  /** The code as written accepts "1.2.3.4:4294967376": 4294967376 is
      2^32 + 80, which becomes 80 once narrowed to an `int`. */
  lemma PortWrapsAround()
    ensures ParseAddrAsWritten("1.2.3.4:4294967376") == Some(Address("1.2.3.4", 80))
    ensures ParseAddr("1.2.3.4:4294967376") == None
  {
    BigPort("1.2.3.4:4294967376", "1.2.3.4", 4294967376);
  }

  lemma BigPort(s: string, ip: string, v: int)
    requires s == "1.2.3.4:4294967376" && ip == "1.2.3.4" && v == 4294967376
    ensures ParseAddrAsWritten(s) == Some(Address(ip, 80))
    ensures ParseAddr(s) == None
  {
    BigPortText();
    BigPortNarrowed();
    assert s == ip + ":" + IntString(v);
    WrapsAround(ip, v);
  }

  /** A port whose `int` narrowing is 80 but which is itself out of range
      is accepted as port 80 by the code as written only. */
  lemma WrapsAround(ip: string, v: int)
    requires ':' !in ip && IpTextOk(ip)
    requires 65535 < v <= LONG_MAX && ToInt32(v) == 80
    ensures ParseAddrAsWritten(ip + ":" + IntString(v)) == Some(Address(ip, 80))
    ensures ParseAddr(ip + ":" + IntString(v)) == None
  {
    ParseOfParts(ip, IntString(v));
    ParseLongOfIntString(v);
  }

  /** Both parsers on an IP without ':' followed by ':' and the port text. */
  lemma ParseOfParts(ip: string, rest: string)
    requires ':' !in ip
    ensures ParseAddrAsWritten(ip + ":" + rest) == FromPartsAsWritten(ip, rest)
    ensures ParseAddr(ip + ":" + rest) == FromParts(ip, rest)
  {
    var s := ip + ":" + rest;
    FirstColon(ip, rest);
    assert s[..|ip|] == ip && s[|ip| + 1..] == rest;
  }

  lemma BigPortText()
    ensures IntString(4294967376) == "4294967376"
  {
    assert DecimalString(4) == "4";
    assert DecimalString(42) == "42";
    assert DecimalString(429) == "429";
    assert DecimalString(4294) == "4294";
    assert DecimalString(42949) == "42949";
    assert DecimalString(429496) == "429496";
    assert DecimalString(4294967) == "4294967";
    assert DecimalString(42949673) == "42949673";
    assert DecimalString(429496737) == "429496737";
    assert DecimalString(4294967376) == "4294967376";
  }

  lemma BigPortNarrowed()
    ensures ToInt32(4294967376) == 80
  {
  }

  /** `strchr(ip + ":" + rest, ':')` finds the separator when `ip` has none. */
  lemma FirstColon(ip: string, rest: string)
    requires ':' !in ip
    ensures IndexOf(ip + ":" + rest, ':') == Some(|ip|)
  {
    var s := ip + ":" + rest;
    assert s[|ip|] == ':';
    assert s[..|ip|] == ip;
  }

  /** Printing a well-formed address whose IP has no ':' and parsing the
      text gives the address back. */
  lemma ParseAddrString(a: Address)
    requires WellFormed(a) && ':' !in a.ip
    ensures ParseAddr(AddrString(Some(a))) == Some(a)
    ensures ParseAddrAsWritten(AddrString(Some(a))) == Some(a)
  {
    ParseOfParts(a.ip, IntString(a.port));
    ParseLongOfIntString(a.port);
    ParseAddrAgrees(AddrString(Some(a)));
  }

  /** `addr_parse`: copies the text before the first ':' and builds the
      address from it, narrowing the port to an `int` as the C code does. */
  method Parse(s: string) returns (a: Addr?)
    ensures a == null <==> ParseAddrAsWritten(s).None?
    ensures a != null ==> fresh(a) && a.Valid() && a.Value() == ParseAddrAsWritten(s).value
  {
    var colon := IndexOf(s, ':');
    if colon.None? {
      return null;
    }
    var p := colon.value;
    a := new Addr.Zero();
    var ip := "";
    var r := 0;
    while r < p
      invariant 0 <= r <= p
      invariant ip == s[..r]
    {
      ip := ip + [s[r]];
      r := r + 1;
    }
    var err := a.SetIp(Some(ip));
    if err != 0 {
      return null;
    }
    var rest := s[p + 1..];
    assert ParseAddrAsWritten(s) == FromPartsAsWritten(ip, rest);
    var n := ParseLong(rest);
    var port := ToInt32(n.value);
    if port < 0 || port > 65535 || n.end == 0 || n.end != |rest| {
      return null;
    }
    err := a.SetPort(port);
  }
}
