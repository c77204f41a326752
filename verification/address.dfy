/** IPv4 addresses and the textual renderings of endpoints and flows, as the
    source produces them with `format!` over `std::net::IpAddr` and `u16`. */
module Address {
  import opened Wrappers
  import opened MachineInts
  import opened Strings
  import opened Decimal

  datatype Ipv4Addr = Ipv4Addr(a: u8, b: u8, c: u8, d: u8)

  /** The separator of a directed flow (`src:port->dst:port`). */
  const ARROW: string := "->"
  /** The separator of a canonical, undirected flow key (`a:port<->z:port`). */
  const BI_ARROW: string := "<->"

  /** Characters of a dotted-quad rendering. */
  predicate IsIpChar(ch: char) {
    IsDigit(ch) || ch == '.'
  }

  /** `format!("{}", ip)`: dotted decimal, each octet without leading zeros. */
  function IpToString(ip: Ipv4Addr): (s: string)
    ensures forall i :: 0 <= i < |s| ==> IsIpChar(s[i])
    ensures ':' !in s
  {
    var s := NatToString(ip.a) + "." + NatToString(ip.b) + "." + NatToString(ip.c) + "." + NatToString(ip.d);
    assert forall i :: 0 <= i < |s| ==> IsIpChar(s[i]);
    s
  }

  function ParseOctet(s: string): (r: Option<u8>)
    ensures r.Some? ==> ParseDecimal(s) == Some(r.value as nat)
  {
    var n :- ParseDecimal(s);
    if n < U8_LIMIT then Some(n) else None
  }

  function ParsePort(s: string): (r: Option<u16>)
    ensures r.Some? ==> ParseDecimal(s) == Some(r.value as nat)
  {
    var n :- ParseDecimal(s);
    if n < U16_LIMIT then Some(n) else None
  }

  /** Reads a dotted-quad address. */
  function ParseIp(s: string): (r: Option<Ipv4Addr>)
  {
    var p1 :- SplitFirst(s, '.');
    var p2 :- SplitFirst(p1.1, '.');
    var p3 :- SplitFirst(p2.1, '.');
    var a :- ParseOctet(p1.0);
    var b :- ParseOctet(p2.0);
    var c :- ParseOctet(p3.0);
    var d :- ParseOctet(p3.1);
    Some(Ipv4Addr(a, b, c, d))
  }

  lemma ParseOctetRendering(n: u8)
    ensures ParseOctet(NatToString(n)) == Some(n)
  {
    ParseNatToString(n);
  }

  lemma ParsePortRendering(n: u16)
    ensures ParsePort(NatToString(n)) == Some(n)
  {
    ParseNatToString(n);
  }

  /** Reading back the rendering of an address gives the address. */
  lemma ParseIpRendering(ip: Ipv4Addr)
    ensures ParseIp(IpToString(ip)) == Some(ip)
  {
    var sa, sb, sc, sd := NatToString(ip.a), NatToString(ip.b), NatToString(ip.c), NatToString(ip.d);
    var r2 := sc + "." + sd;
    var r1 := sb + "." + r2;
    assert IpToString(ip) == sa + "." + r1;
    SplitAfterOctet(ip.a, r1);
    SplitAfterOctet(ip.b, r2);
    SplitAfterOctet(ip.c, sd);
    ParseOctetRendering(ip.a);
    ParseOctetRendering(ip.b);
    ParseOctetRendering(ip.c);
    ParseOctetRendering(ip.d);
  }

  /** A decimal rendering holds no dot, so the first dot after it splits. */
  lemma SplitAfterOctet(n: nat, rest: string)
    ensures SplitFirst(NatToString(n) + "." + rest, '.') == Some((NatToString(n), rest))
  {
    var s := NatToString(n);
    assert '.' !in s by { assert forall i :: 0 <= i < |s| ==> IsDigit(s[i]); }
    assert s + "." + rest == s + ['.'] + rest;
    SplitFirstOfJoin(s, '.', rest);
  }

  /** Distinct addresses render to distinct strings. */
  lemma IpToStringInjective(x: Ipv4Addr, y: Ipv4Addr)
    requires IpToString(x) == IpToString(y)
    ensures x == y
  {
    ParseIpRendering(x);
    ParseIpRendering(y);
  }

  /** `format!("{}:{}", ip, port)`. */
  function EndpointString(ip: Ipv4Addr, port: u16): string {
    IpToString(ip) + ":" + NatToString(port)
  }

  /** `format!("{}:{}{sep}{}:{}", ip1, port1, ip2, port2)`: a flow string with
      the given separator between its two endpoints. */
  function FlowString(ip1: Ipv4Addr, port1: u16, sep: string, ip2: Ipv4Addr, port2: u16): string {
    EndpointString(ip1, port1) + sep + EndpointString(ip2, port2)
  }

  /** The two endpoints a flow string names. */
  datatype Endpoints = Endpoints(ip1: Ipv4Addr, port1: u16, ip2: Ipv4Addr, port2: u16)

  /** A separator that cannot be confused with the text of an endpoint. */
  predicate IsSeparator(sep: string) {
    0 < |sep| && !IsIpChar(sep[0]) && sep[0] != ':'
  }

  /** Reads `ip:port`. */
  function ParseEndpoint(s: string): (r: Option<(Ipv4Addr, u16)>)
  {
    var p :- SplitFirst(s, ':');
    var ip :- ParseIp(p.0);
    var port :- ParsePort(p.1);
    Some((ip, port))
  }

  /** Cuts a flow string into its two endpoint texts at the separator. */
  function SplitFlow(s: string, sep: string): (r: Option<(string, string)>)
  {
    if |sep| == 0 then None
    else
      var p :- SplitFirst(s, sep[0]);
      if StartsWith(p.1, sep[1..]) then Some((p.0, p.1[|sep| - 1..])) else None
  }

  /** Reads a flow string written with separator `sep`. */
  function ParseFlowString(s: string, sep: string): (r: Option<Endpoints>)
  {
    var halves :- SplitFlow(s, sep);
    var e1 :- ParseEndpoint(halves.0);
    var e2 :- ParseEndpoint(halves.1);
    Some(Endpoints(e1.0, e1.1, e2.0, e2.1))
  }

  lemma ParseEndpointRendering(ip: Ipv4Addr, port: u16)
    ensures ParseEndpoint(EndpointString(ip, port)) == Some((ip, port))
  {
    SplitFirstOfJoin(IpToString(ip), ':', NatToString(port));
    ParseIpRendering(ip);
    ParsePortRendering(port);
  }

  /** An endpoint text never holds a separator's first character. */
  lemma EndpointAvoidsSeparator(ip: Ipv4Addr, port: u16, sep: string)
    requires IsSeparator(sep)
    ensures sep[0] !in EndpointString(ip, port)
  {
    var i, d := IpToString(ip), NatToString(port);
    assert EndpointString(ip, port) == i + ":" + d;
    assert forall k :: 0 <= k < |i + ":" + d| ==> (i + ":" + d)[k] != sep[0] by {
      forall k | 0 <= k < |i + ":" + d|
        ensures (i + ":" + d)[k] != sep[0]
      {
        if k < |i| {
          assert (i + ":" + d)[k] == i[k];
        } else if k > |i| {
          assert (i + ":" + d)[k] == d[k - |i| - 1];
        }
      }
    }
  }

  lemma SplitFlowRendering(ip1: Ipv4Addr, port1: u16, sep: string, ip2: Ipv4Addr, port2: u16)
    requires IsSeparator(sep)
    ensures SplitFlow(FlowString(ip1, port1, sep, ip2, port2), sep)
         == Some((EndpointString(ip1, port1), EndpointString(ip2, port2)))
  {
    var e1, e2 := EndpointString(ip1, port1), EndpointString(ip2, port2);
    assert FlowString(ip1, port1, sep, ip2, port2) == e1 + [sep[0]] + (sep[1..] + e2);
    EndpointAvoidsSeparator(ip1, port1, sep);
    SplitFirstOfJoin(e1, sep[0], sep[1..] + e2);
    var rest := sep[1..] + e2;
    assert rest[..|sep[1..]|] == sep[1..];
    assert rest[|sep| - 1..] == e2;
  }

  /** Reading back a flow string gives its endpoints. */
  lemma ParseFlowRendering(ip1: Ipv4Addr, port1: u16, sep: string, ip2: Ipv4Addr, port2: u16)
    requires IsSeparator(sep)
    ensures ParseFlowString(FlowString(ip1, port1, sep, ip2, port2), sep) == Some(Endpoints(ip1, port1, ip2, port2))
  {
    SplitFlowRendering(ip1, port1, sep, ip2, port2);
    ParseEndpointRendering(ip1, port1);
    ParseEndpointRendering(ip2, port2);
  }

  /** A flow string determines its endpoints. */
  lemma FlowStringInjective(x: Endpoints, y: Endpoints, sep: string)
    requires IsSeparator(sep)
    requires FlowString(x.ip1, x.port1, sep, x.ip2, x.port2) == FlowString(y.ip1, y.port1, sep, y.ip2, y.port2)
    ensures x == y
  {
    ParseFlowRendering(x.ip1, x.port1, sep, x.ip2, x.port2);
    ParseFlowRendering(y.ip1, y.port1, sep, y.ip2, y.port2);
  }
}
