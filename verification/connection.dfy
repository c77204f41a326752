/** The two canonical endpoints of a TCP conversation (`TcpConnection` in
    src/connection/mod.rs): A is the peer, Z the local host. */
module Connection {
  import opened Wrappers
  import opened MachineInts
  import opened Address
  import opened Datagram

  datatype TcpConnection = TcpConnection(
    aIp: Ipv4Addr,
    aPort: u16,
    zIp: Ipv4Addr,
    zPort: u16,
    zaSynCounter: u32)

  /** `TcpConnection::new`: the four endpoint values as given, counter at zero. */
  function New(aIp: Ipv4Addr, aPort: u16, zIp: Ipv4Addr, zPort: u16): (c: TcpConnection)
    ensures c.aIp == aIp && c.aPort == aPort && c.zIp == zIp && c.zPort == zPort
    ensures c.zaSynCounter == 0
  {
    TcpConnection(aIp, aPort, zIp, zPort, 0)
  }

  /** `get_flows`: the A-to-Z flow string, then the Z-to-A one. */
  function GetFlows(c: TcpConnection): (flows: seq<string>)
    ensures |flows| == 2
  {
    [FlowString(c.aIp, c.aPort, ARROW, c.zIp, c.zPort), FlowString(c.zIp, c.zPort, ARROW, c.aIp, c.aPort)]
  }

  /** The key under which the processor stores a connection. The source calls
      a `get_flow` on the connection that src/connection/mod.rs does not
      define; it is taken here to be the A-to-Z element of `get_flows`. */
  function Flow(c: TcpConnection): (flow: string)
    ensures flow == GetFlows(c)[0]
  {
    FlowString(c.aIp, c.aPort, ARROW, c.zIp, c.zPort)
  }

  function GetAIp(c: TcpConnection): string { IpToString(c.aIp) }
  function GetZIp(c: TcpConnection): string { IpToString(c.zIp) }

  function GetAPort(c: TcpConnection): u16 { c.aPort }
  function GetZPort(c: TcpConnection): u16 { c.zPort }

  /** Each of the two flow strings reads back as the connection's endpoints,
      A-to-Z first and Z-to-A second. */
  lemma GetFlowsParse(c: TcpConnection)
    ensures ParseFlowString(GetFlows(c)[0], ARROW) == Some(Endpoints(c.aIp, c.aPort, c.zIp, c.zPort))
    ensures ParseFlowString(GetFlows(c)[1], ARROW) == Some(Endpoints(c.zIp, c.zPort, c.aIp, c.aPort))
  {
    ParseFlowRendering(c.aIp, c.aPort, ARROW, c.zIp, c.zPort);
    ParseFlowRendering(c.zIp, c.zPort, ARROW, c.aIp, c.aPort);
  }

  /** The getters give back the constructor's arguments. */
  lemma GettersReturnArguments(aIp: Ipv4Addr, aPort: u16, zIp: Ipv4Addr, zPort: u16)
    ensures GetAIp(New(aIp, aPort, zIp, zPort)) == IpToString(aIp)
    ensures GetZIp(New(aIp, aPort, zIp, zPort)) == IpToString(zIp)
    ensures GetAPort(New(aIp, aPort, zIp, zPort)) == aPort
    ensures GetZPort(New(aIp, aPort, zIp, zPort)) == zPort
  {
  }

  /** Building the connection the other way round lists the same two flow
      strings in the opposite order. */
  lemma GetFlowsOfSwapped(aIp: Ipv4Addr, aPort: u16, zIp: Ipv4Addr, zPort: u16)
    ensures GetFlows(New(zIp, zPort, aIp, aPort))
         == [GetFlows(New(aIp, aPort, zIp, zPort))[1], GetFlows(New(aIp, aPort, zIp, zPort))[0]]
  {
  }

  /** The A-to-Z flow string of a connection is the flow string of a datagram
      sent from A to Z; the Z-to-A one is that of its reverse. */
  lemma GetFlowsMatchDatagram(c: TcpConnection, d: TcpDatagram)
    requires d.srcIp == c.aIp && d.srcPort == c.aPort && d.dstIp == c.zIp && d.dstPort == c.zPort
    ensures GetFlows(c) == [GetFlow(d), GetFlow(Reverse(d))]
  {
  }

  /** Two connections share a key only when they have the same endpoints. */
  lemma FlowDeterminesEndpoints(c: TcpConnection, e: TcpConnection)
    requires Flow(c) == Flow(e)
    ensures (c.aIp, c.aPort, c.zIp, c.zPort) == (e.aIp, e.aPort, e.zIp, e.zPort)
  {
    GetFlowsParse(c);
    GetFlowsParse(e);
  }
}
