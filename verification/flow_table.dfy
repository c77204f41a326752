/** The in-process flow table of src/tcp_db/mod.rs: connections in a map
    keyed by the string `parse_flow` computes. */
module FlowTable {
  import opened Address
  import opened Datagram
  import Connection

  /** What `parse_flow` returns for every datagram. */
  const UNKNOWN: string := "unknown"

  datatype TcpDb = TcpDb(localIpv4: Ipv4Addr, flows: map<string, Connection.TcpConnection>)

  /** `TcpDb::new`: no flows yet. */
  function New(localIpv4: Ipv4Addr): (db: TcpDb)
    ensures db.localIpv4 == localIpv4
    ensures |db.flows| == 0
  {
    TcpDb(localIpv4, map[])
  }

  /** The canonical key `a:ap<->z:zp` of a datagram: the `format!` that
      `parse_flow` builds on each of its two branches. */
  function CanonicalKey(local: Ipv4Addr, d: TcpDatagram): (key: string)
  {
    if local == d.dstIp then FlowString(d.srcIp, d.srcPort, BI_ARROW, d.dstIp, d.dstPort)
    else if local == d.srcIp then FlowString(d.dstIp, d.dstPort, BI_ARROW, d.srcIp, d.srcPort)
    else UNKNOWN
  }

  /** `parse_flow` as written: both `format!` results are statements whose
      values are dropped, so every datagram gets the key `"unknown"`. */
  function ParseFlow(db: TcpDb, d: TcpDatagram): (key: string)
    ensures key == UNKNOWN
  {
    var _ := if db.localIpv4 == d.dstIp then FlowString(d.srcIp, d.srcPort, BI_ARROW, d.dstIp, d.dstPort) else "";
    var _ := if db.localIpv4 == d.srcIp then FlowString(d.dstIp, d.dstPort, BI_ARROW, d.srcIp, d.srcPort) else "";
    UNKNOWN
  }

  /** The connection `add` creates for a new key: A is the datagram's
      source, Z its destination, whichever side is local. */
  function ConnectionOf(d: TcpDatagram): (c: Connection.TcpConnection)
    ensures (c.aIp, c.aPort, c.zIp, c.zPort) == (d.srcIp, d.srcPort, d.dstIp, d.dstPort)
  {
    Connection.New(d.srcIp, d.srcPort, d.dstIp, d.dstPort)
  }

  /** Get-or-create under `key`, then the per-entry effect `record` (the
      `connection.add(datagram)` that src/connection/mod.rs does not define)
      on the entry: an existing entry is updated, never replaced, and no
      other entry changes. */
  function AddUnder(db: TcpDb, key: string, d: TcpDatagram,
                    record: (Connection.TcpConnection, TcpDatagram) -> Connection.TcpConnection): (db': TcpDb)
    ensures db'.localIpv4 == db.localIpv4
    ensures db'.flows.Keys == db.flows.Keys + {key}
    ensures forall k :: k in db.flows && k != key ==> db'.flows[k] == db.flows[k]
    ensures key in db.flows ==> db'.flows[key] == record(db.flows[key], d)
    ensures key !in db.flows ==> db'.flows[key] == record(ConnectionOf(d), d)
  {
    var flows := if key !in db.flows then db.flows[key := ConnectionOf(d)] else db.flows;
    db.(flows := flows[key := record(flows[key], d)])
  }

  /** `add` as written: get-or-create under `parse_flow`'s key. */
  function Add(db: TcpDb, d: TcpDatagram,
               record: (Connection.TcpConnection, TcpDatagram) -> Connection.TcpConnection): (db': TcpDb)
    ensures ParseFlow(db, d) in db'.flows
    ensures db'.flows.Keys == db.flows.Keys + {ParseFlow(db, d)}
    ensures |db.flows| <= |db'.flows| <= |db.flows| + 1
    ensures forall k :: k in db.flows && k != ParseFlow(db, d) ==> db'.flows[k] == db.flows[k]
    ensures ParseFlow(db, d) in db.flows ==> db'.flows[ParseFlow(db, d)] == record(db.flows[ParseFlow(db, d)], d)
    ensures ParseFlow(db, d) !in db.flows ==> db'.flows[ParseFlow(db, d)] == record(ConnectionOf(d), d)
  {
    var key := ParseFlow(db, d);
    var db' := AddUnder(db, key, d, record);
    assert db'.flows.Keys == db.flows.Keys + {key};
    assert |db.flows.Keys| <= |db'.flows.Keys| <= |db.flows.Keys| + 1 by {
      if key in db.flows {
        assert db'.flows.Keys == db.flows.Keys;
      } else {
        assert db'.flows.Keys == db.flows.Keys + {key};
      }
    }
    db'
  }

  /** As written, the table never holds more than one entry: starting empty,
      any two datagrams, of whatever conversations, share the `"unknown"`
      entry, whose endpoints are those of the first datagram. */
  lemma AddMergesAllFlows(local: Ipv4Addr, d1: TcpDatagram, d2: TcpDatagram,
                          record: (Connection.TcpConnection, TcpDatagram) -> Connection.TcpConnection)
    ensures Add(Add(New(local), d1, record), d2, record).flows.Keys == {UNKNOWN}
    ensures Add(Add(New(local), d1, record), d2, record).flows[UNKNOWN]
         == record(record(ConnectionOf(d1), d1), d2)
  {
  }

  /** `add` with the key `parse_flow` evidently means to return. */
  function AddCanonical(db: TcpDb, d: TcpDatagram,
                        record: (Connection.TcpConnection, TcpDatagram) -> Connection.TcpConnection): (db': TcpDb)
    ensures CanonicalKey(db.localIpv4, d) in db'.flows
    ensures db'.flows.Keys == db.flows.Keys + {CanonicalKey(db.localIpv4, d)}
    ensures forall k :: k in db.flows && k != CanonicalKey(db.localIpv4, d) ==> db'.flows[k] == db.flows[k]
  {
    AddUnder(db, CanonicalKey(db.localIpv4, d), d, record)
  }

  /** The local address on exactly one side of the datagram. The table
      holds the address itself, so this compares addresses, where the
      processor's `OneSideLocal` compares their text renderings. */
  predicate LocalIpOnOneSide(local: Ipv4Addr, d: TcpDatagram) {
    (local == d.srcIp) != (local == d.dstIp)
  }

  /** The canonical key is the same for a datagram and its reverse, and
      names the peer first and the local host second. */
  lemma CanonicalKeyOfReverse(local: Ipv4Addr, d: TcpDatagram)
    requires LocalIpOnOneSide(local, d)
    ensures CanonicalKey(local, Reverse(d)) == CanonicalKey(local, d)
    ensures ParseFlowString(CanonicalKey(local, d), BI_ARROW).Some?
    ensures ParseFlowString(CanonicalKey(local, d), BI_ARROW).value.ip2 == local
  {
    var k := CanonicalKey(local, d);
    if local == d.dstIp {
      ParseFlowRendering(d.srcIp, d.srcPort, BI_ARROW, d.dstIp, d.dstPort);
    } else {
      ParseFlowRendering(d.dstIp, d.dstPort, BI_ARROW, d.srcIp, d.srcPort);
    }
  }

  /** Datagrams of different conversations get different canonical keys:
      equal keys mean equal endpoint pairs. */
  lemma CanonicalKeySeparatesConversations(local: Ipv4Addr, d: TcpDatagram, e: TcpDatagram)
    requires LocalIpOnOneSide(local, d) && LocalIpOnOneSide(local, e)
    requires CanonicalKey(local, d) == CanonicalKey(local, e)
    ensures {(d.srcIp, d.srcPort), (d.dstIp, d.dstPort)} == {(e.srcIp, e.srcPort), (e.dstIp, e.dstPort)}
  {
    var pd, pe := KeyEndpoints(local, d), KeyEndpoints(local, e);
    assert IsSeparator(BI_ARROW);
    FlowStringInjective(pd, pe, BI_ARROW);
    assert pd == pe;
    EndpointSetOfKey(local, d);
    EndpointSetOfKey(local, e);
  }

  /** The endpoints a canonical key names, peer first. */
  function KeyEndpoints(local: Ipv4Addr, d: TcpDatagram): (p: Endpoints)
    requires LocalIpOnOneSide(local, d)
    ensures CanonicalKey(local, d) == FlowString(p.ip1, p.port1, BI_ARROW, p.ip2, p.port2)
    ensures p.ip2 == local
  {
    if local == d.dstIp then Endpoints(d.srcIp, d.srcPort, d.dstIp, d.dstPort)
    else Endpoints(d.dstIp, d.dstPort, d.srcIp, d.srcPort)
  }

  lemma EndpointSetOfKey(local: Ipv4Addr, d: TcpDatagram)
    requires LocalIpOnOneSide(local, d)
    ensures var p := KeyEndpoints(local, d);
      {(d.srcIp, d.srcPort), (d.dstIp, d.dstPort)} == {(p.ip1, p.port1), (p.ip2, p.port2)}
  {
  }

  /** With the intended key, a datagram and its reverse land in one entry,
      created once: the second `add` finds the first one's entry. */
  lemma AddCanonicalSharesEntry(db: TcpDb, d: TcpDatagram,
                                record: (Connection.TcpConnection, TcpDatagram) -> Connection.TcpConnection)
    requires LocalIpOnOneSide(db.localIpv4, d)
    ensures var db1 := AddCanonical(db, d, record);
      && AddCanonical(db1, Reverse(d), record).flows.Keys == db1.flows.Keys
      && AddCanonical(db1, Reverse(d), record).flows[CanonicalKey(db.localIpv4, d)]
         == record(db1.flows[CanonicalKey(db.localIpv4, d)], Reverse(d))
  {
    CanonicalKeyOfReverse(db.localIpv4, d);
  }
}
