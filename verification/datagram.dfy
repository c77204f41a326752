/** The record the flow tracker keeps of one captured TCP/IPv4 segment
    (`TcpDatagram` in src/datagram/mod.rs). */
module Datagram {
  import opened Wrappers
  import opened MachineInts
  import opened Address

  /** TCP flag bits as `TcpPacket::get_flags` returns them. */
  const SYN_FLAGS: u16 := 2
  const SYN_ACK_FLAGS: u16 := 18
  /** A TCP header is at least five 32-bit words long (section 3.1 of RFC 9293). */
  const MIN_TCP_HEADER_LEN: nat := 20

  datatype TcpDatagram = TcpDatagram(
    srcIp: Ipv4Addr,
    srcPort: u16,
    dstIp: Ipv4Addr,
    dstPort: u16,
    bytes: u32,
    ackNum: u32,
    seqNum: u32,
    flags: u16)

  /** The header fields the TCP decoder reads from the front of an IPv4 payload. */
  datatype TcpHeader = TcpHeader(srcPort: u16, dstPort: u16, seqNum: u32, ackNum: u32, flags: u16)

  /** `TcpDatagram::new`: addresses from the IPv4 header, `bytes` the length of
      the whole IPv4 payload (TCP header and data) cast to `u32`, the rest
      from the TCP header. A payload too short for a TCP header makes the
      source panic, so callers must not pass one. */
  function New(srcIp: Ipv4Addr, dstIp: Ipv4Addr, payload: seq<u8>, tcp: TcpHeader): (d: TcpDatagram)
    requires MIN_TCP_HEADER_LEN <= |payload|
    ensures d.srcIp == srcIp && d.dstIp == dstIp
    ensures d.srcPort == tcp.srcPort && d.dstPort == tcp.dstPort
    ensures d.seqNum == tcp.seqNum && d.ackNum == tcp.ackNum && d.flags == tcp.flags
    ensures |payload| < U32_LIMIT ==> d.bytes == |payload|
  {
    TcpDatagram(srcIp, tcp.srcPort, dstIp, tcp.dstPort, TruncateU32(|payload|), tcp.ackNum, tcp.seqNum, tcp.flags)
  }

  /** `bytes` counts the TCP header as well as the data it carries. */
  lemma BytesCountHeaderAndData(srcIp: Ipv4Addr, dstIp: Ipv4Addr, header: seq<u8>, data: seq<u8>, tcp: TcpHeader)
    requires MIN_TCP_HEADER_LEN <= |header|
    requires |header| + |data| < U32_LIMIT
    ensures New(srcIp, dstIp, header + data, tcp).bytes == |header| + |data|
    ensures |data| < New(srcIp, dstIp, header + data, tcp).bytes
  {
  }

  /** `get_flow`: `src_ip:src_port->dst_ip:dst_port`. */
  function GetFlow(d: TcpDatagram): string {
    FlowString(d.srcIp, d.srcPort, ARROW, d.dstIp, d.dstPort)
  }

  function GetSeqNum(d: TcpDatagram): u32 { d.seqNum }
  function GetAckNum(d: TcpDatagram): u32 { d.ackNum }
  function GetBytes(d: TcpDatagram): u32 { d.bytes }
  function GetSrcPort(d: TcpDatagram): u16 { d.srcPort }
  function GetDstPort(d: TcpDatagram): u16 { d.dstPort }

  /** `get_src_ip`: the rendered source address. */
  function GetSrcIp(d: TcpDatagram): string {
    IpToString(d.srcIp)
  }

  /** `get_dst_ip`: the rendered destination address. */
  function GetDstIp(d: TcpDatagram): string {
    IpToString(d.dstIp)
  }

  /** `is_syn`: an exact match of the flag word against SYN alone, so SYN+ACK
      and SYN with any other bit set do not count. */
  function IsSyn(d: TcpDatagram): (b: bool)
    ensures b ==> d.flags != SYN_ACK_FLAGS
  {
    match d.flags
    case 2 => true
    case _ => false
  }

  /** The same segment travelling the other way: addresses and ports exchanged. */
  function Reverse(d: TcpDatagram): TcpDatagram {
    d.(srcIp := d.dstIp, srcPort := d.dstPort, dstIp := d.srcIp, dstPort := d.srcPort)
  }

  /** The getters return what the record stores, and equal addresses render
      to equal strings (and, the rendering being injective, only those). */
  lemma GettersReturnFields(d: TcpDatagram, e: TcpDatagram)
    ensures GetSeqNum(d) == d.seqNum && GetAckNum(d) == d.ackNum && GetBytes(d) == d.bytes
    ensures GetSrcPort(d) == d.srcPort && GetDstPort(d) == d.dstPort
    ensures GetSrcIp(d) == GetSrcIp(e) <==> d.srcIp == e.srcIp
    ensures GetDstIp(d) == GetDstIp(e) <==> d.dstIp == e.dstIp
  {
    if GetSrcIp(d) == GetSrcIp(e) { IpToStringInjective(d.srcIp, e.srcIp); }
    if GetDstIp(d) == GetDstIp(e) { IpToStringInjective(d.dstIp, e.dstIp); }
  }

  /** `is_syn` holds exactly for the flag word 2. */
  lemma IsSynExactly(d: TcpDatagram)
    ensures IsSyn(d) <==> d.flags == SYN_FLAGS
    ensures d.flags == SYN_ACK_FLAGS ==> !IsSyn(d)
  {
  }

  /** Reading a flow string back gives the datagram's addressing. */
  lemma GetFlowParses(d: TcpDatagram)
    ensures ParseFlowString(GetFlow(d), ARROW) == Some(Endpoints(d.srcIp, d.srcPort, d.dstIp, d.dstPort))
  {
    ParseFlowRendering(d.srcIp, d.srcPort, ARROW, d.dstIp, d.dstPort);
  }

  /** Two datagrams have the same flow string exactly when they have the
      same four addressing fields. */
  lemma GetFlowInjective(d: TcpDatagram, e: TcpDatagram)
    ensures GetFlow(d) == GetFlow(e) <==>
      (d.srcIp, d.srcPort, d.dstIp, d.dstPort) == (e.srcIp, e.srcPort, e.dstIp, e.dstPort)
  {
    GetFlowParses(d);
    GetFlowParses(e);
  }

  /** Reversing a datagram exchanges the two endpoint halves of its flow string. */
  lemma ReverseSwapsFlowHalves(d: TcpDatagram)
    ensures GetFlow(d) == EndpointString(d.srcIp, d.srcPort) + ARROW + EndpointString(d.dstIp, d.dstPort)
    ensures GetFlow(Reverse(d)) == EndpointString(d.dstIp, d.dstPort) + ARROW + EndpointString(d.srcIp, d.srcPort)
  {
  }
}
