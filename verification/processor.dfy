/** Direction resolution, canonicalisation, the per-direction store updates
    and the ingestion loop of src/processor/mod.rs. */
module Processor {
  import opened Wrappers
  import opened Strings
  import opened Decimal
  import opened Address
  import opened Datagram
  import Connection
  import opened HashStore
  import opened TcpDatabase

  /** The source's direction tags `"a_to_z"` and `"z_to_a"`. */
  datatype Direction = AToZ | ZToA

  /** The `warn!` logged when a direction's datagram counter reaches 3.
      The counter counts every tracked datagram, whatever its flags. The
      source's message names only the flow; `dir` is the model's addition
      and says which counter reached 3. */
  datatype Warning = Warning(flow: string, dir: Direction)

  const SYN_WARNING_THRESHOLD: int := 3
  /** The filter value that admits every flow. */
  const MATCH_ALL: string := "*"
  /** The redis port, as text, whose flows the loop never tracks. */
  const REDIS_PORT_TEXT: string := "6379"

  function Other(dir: Direction): Direction {
    match dir
    case AToZ => ZToA
    case ZToA => AToZ
  }

  function CounterField(dir: Direction): Field {
    match dir
    case AToZ => A_TO_Z_SYN_COUNTER
    case ZToA => Z_TO_A_SYN_COUNTER
  }

  function SeqField(dir: Direction): Field {
    match dir
    case AToZ => A_Z_SEQ_NUM
    case ZToA => Z_A_SEQ_NUM
  }

  function AckField(dir: Direction): Field {
    match dir
    case AToZ => A_Z_ACK_NUM
    case ZToA => Z_A_ACK_NUM
  }

  /** The SYN counter of a flow in one direction, as HINCRBY would start
      from it (zero when absent). */
  function SynCounter(s: Db, flow: string, dir: Direction): int {
    match IntField(s, flow, CounterField(dir))
    case Some(n) => n
    case None => 0
  }

  // ---------------------------------------------------------------------
  // Direction and canonical endpoints
  // ---------------------------------------------------------------------

  /** `identify_flow_direction`: towards the local host is A-to-Z, checked
      first; from the local host is Z-to-A; otherwise unidentified. */
  function IdentifyFlowDirection(local: string, d: TcpDatagram): (r: Option<Direction>)
    ensures r == Some(AToZ) <==> local == GetDstIp(d)
    ensures r == Some(ZToA) <==> local == GetSrcIp(d) && local != GetDstIp(d)
    ensures r == None <==> local != GetSrcIp(d) && local != GetDstIp(d)
  {
    var srcIp := GetSrcIp(d);
    var dstIp := GetDstIp(d);
    if local == dstIp then Some(AToZ)
    else if local == srcIp then Some(ZToA)
    else None
  }

  /** The connection `process_tcp_datagram` builds: A is the datagram's
      source on the A-to-Z path and its destination on the Z-to-A path, so
      that Z is always the local host. */
  function CanonicalConnection(local: string, d: TcpDatagram): (r: Option<Connection.TcpConnection>)
    ensures r.None? <==> IdentifyFlowDirection(local, d).None?
    ensures r.Some? ==> Connection.GetZIp(r.value) == local
    ensures r.Some? ==> r.value.zaSynCounter == 0
    ensures IdentifyFlowDirection(local, d) == Some(AToZ) ==>
      (r.value.aIp, r.value.aPort, r.value.zIp, r.value.zPort) == (d.srcIp, d.srcPort, d.dstIp, d.dstPort)
    ensures IdentifyFlowDirection(local, d) == Some(ZToA) ==>
      (r.value.aIp, r.value.aPort, r.value.zIp, r.value.zPort) == (d.dstIp, d.dstPort, d.srcIp, d.srcPort)
  {
    match IdentifyFlowDirection(local, d)
    case Some(AToZ) => Some(Connection.New(d.srcIp, d.srcPort, d.dstIp, d.dstPort))
    case Some(ZToA) => Some(Connection.New(d.dstIp, d.dstPort, d.srcIp, d.srcPort))
    case None => None
  }

  /** The local host on exactly one side of the datagram. */
  predicate OneSideLocal(local: string, d: TcpDatagram) {
    (local == GetSrcIp(d)) != (local == GetDstIp(d))
  }

  /** When the local host is on one side only, a datagram and its reverse
      travel in opposite directions and resolve to the same connection. */
  lemma CanonicalOfReverse(local: string, d: TcpDatagram)
    requires OneSideLocal(local, d)
    ensures IdentifyFlowDirection(local, Reverse(d)) == Some(Other(IdentifyFlowDirection(local, d).value))
    ensures CanonicalConnection(local, Reverse(d)) == CanonicalConnection(local, d)
  {
  }

  /** When both sides are the local host the destination test wins: the
      datagram and its reverse are both A-to-Z, and they resolve to
      different connections unless the two endpoints coincide. */
  lemma BothSidesLocalIsAToZ(local: string, d: TcpDatagram)
    requires local == GetSrcIp(d) && local == GetDstIp(d)
    ensures IdentifyFlowDirection(local, d) == Some(AToZ)
    ensures IdentifyFlowDirection(local, Reverse(d)) == Some(AToZ)
    ensures CanonicalConnection(local, Reverse(d)) == CanonicalConnection(local, d) <==> d.srcPort == d.dstPort
  {
    GettersReturnFields(d, Reverse(d));
  }

  // ---------------------------------------------------------------------
  // Per-direction updates
  // ---------------------------------------------------------------------

  /** `process_a_z_datagram`. */
  function ProcessAZDatagram(s: Db, conn: Connection.TcpConnection, d: TcpDatagram): (Db, Option<Warning>) {
    var flow := Connection.Flow(conn);
    var s1 := AddTcpConnection(s, flow, Connection.GetAIp(conn), Connection.GetZIp(conn)).0;
    var s2 := SetAZSeqNum(s1, flow, GetSeqNum(d));
    var s3 := SetAZAckNum(s2, flow, GetAckNum(d));
    var (s4, counter) := IncrementAToZSynCounter(s3, flow);
    (s4, if counter == Some(SYN_WARNING_THRESHOLD) then Some(Warning(flow, AToZ)) else None)
  }

  /** `process_z_a_datagram`. */
  function ProcessZADatagram(s: Db, conn: Connection.TcpConnection, d: TcpDatagram): (Db, Option<Warning>) {
    var flow := Connection.Flow(conn);
    var s1 := AddTcpConnection(s, flow, Connection.GetAIp(conn), Connection.GetZIp(conn)).0;
    var s2 := SetZASeqNum(s1, flow, GetSeqNum(d));
    var s3 := SetZAAckNum(s2, flow, GetAckNum(d));
    var (s4, counter) := IncrementZToASynCounter(s3, flow);
    (s4, if counter == Some(SYN_WARNING_THRESHOLD) then Some(Warning(flow, ZToA)) else None)
  }

  /** The update of one direction: the connection exists afterwards, that
      direction's last sequence and acknowledgment numbers are the
      datagram's, and on a well-formed store its SYN counter has grown by
      one whatever the flags and the warning fires exactly when the counter
      is now 3. Nothing outside the connection's hash changes, nor, for an
      existing connection, any field of it but those three. */
  function ProcessDirected(s: Db, conn: Connection.TcpConnection, d: TcpDatagram, dir: Direction): (r: (Db, Option<Warning>))
    ensures HasConnection(r.0, Connection.Flow(conn))
    ensures HasConnection(s, Connection.Flow(conn)) ==>
      HGet(r.0, Connection.Flow(conn), A_IP) == HGet(s, Connection.Flow(conn), A_IP)
    ensures !HasConnection(s, Connection.Flow(conn)) ==>
      && HGet(r.0, Connection.Flow(conn), A_IP) == Some(Str(Address.IpToString(conn.aIp)))
      && HGet(r.0, Connection.Flow(conn), Z_IP) == Some(Str(Address.IpToString(conn.zIp)))
    ensures HasConnection(s, Connection.Flow(conn)) ==> KeepsOtherFields(s, r.0, Connection.Flow(conn), dir)
    ensures HGet(r.0, Connection.Flow(conn), SeqField(dir)) == Some(Int(d.seqNum))
    ensures HGet(r.0, Connection.Flow(conn), AckField(dir)) == Some(Int(d.ackNum))
    ensures HGet(r.0, Connection.Flow(conn), SeqField(Other(dir))) == HGet(s, Connection.Flow(conn), SeqField(Other(dir)))
    ensures HGet(r.0, Connection.Flow(conn), AckField(Other(dir))) == HGet(s, Connection.Flow(conn), AckField(Other(dir)))
    ensures r.0.Keys == s.Keys + {Connection.Flow(conn)}
    ensures forall k :: k in s && k != Connection.Flow(conn) ==> r.0[k] == s[k]
    ensures r.1.Some? ==> r.1.value == Warning(Connection.Flow(conn), dir)
    ensures WellFormed(s) ==>
      && WellFormed(r.0)
      && SynCounter(r.0, Connection.Flow(conn), dir) == SynCounter(s, Connection.Flow(conn), dir) + 1
      && SynCounter(r.0, Connection.Flow(conn), Other(dir)) == SynCounter(s, Connection.Flow(conn), Other(dir))
      && (r.1.Some? <==> SynCounter(r.0, Connection.Flow(conn), dir) == SYN_WARNING_THRESHOLD)
  {
    var flow := Connection.Flow(conn);
    DirectedIsStoreCommands(s, conn, d, dir);
    StoreCommandsEffect(s, flow, Connection.GetAIp(conn), Connection.GetZIp(conn), dir, d.seqNum, d.ackNum);
    match dir
    case AToZ => ProcessAZDatagram(s, conn, d)
    case ZToA => ProcessZADatagram(s, conn, d)
  }

  /** Every field of the flow's hash but this direction's sequence and
      acknowledgment numbers and counter has the same value in `s'` as in `s`. */
  predicate KeepsOtherFields(s: Db, s': Db, flow: string, dir: Direction) {
    forall f :: f != SeqField(dir) && f != AckField(dir) && f != CounterField(dir) ==>
      HGet(s', flow, f) == HGet(s, flow, f)
  }

  /** The store commands one direction's update issues, in order. */
  function StoreCommands(s: Db, flow: string, aIp: string, zIp: string, dir: Direction, sn: int, an: int): (Db, Option<int>) {
    var s1 := AddTcpConnection(s, flow, aIp, zIp).0;
    var s2 := HSet(s1, flow, SeqField(dir), Int(sn));
    var s3 := HSet(s2, flow, AckField(dir), Int(an));
    HIncrBy(s3, flow, CounterField(dir), 1)
  }

  /** Each per-direction function issues `StoreCommands` with its own fields
      and warns when the returned counter is 3. */
  lemma DirectedIsStoreCommands(s: Db, conn: Connection.TcpConnection, d: TcpDatagram, dir: Direction)
    ensures var c := StoreCommands(s, Connection.Flow(conn), Connection.GetAIp(conn), Connection.GetZIp(conn), dir, d.seqNum, d.ackNum);
      (match dir
       case AToZ => ProcessAZDatagram(s, conn, d)
       case ZToA => ProcessZADatagram(s, conn, d))
      == (c.0, if c.1 == Some(SYN_WARNING_THRESHOLD) then Some(Warning(Connection.Flow(conn), dir)) else None)
  {
  }

  /** What the store commands of one direction do to the store. */
  lemma StoreCommandsEffect(s: Db, flow: string, aIp: string, zIp: string, dir: Direction, sn: int, an: int)
    ensures var r := StoreCommands(s, flow, aIp, zIp, dir, sn, an);
      && HasConnection(r.0, flow)
      && (HasConnection(s, flow) ==> HGet(r.0, flow, A_IP) == HGet(s, flow, A_IP))
      && (!HasConnection(s, flow) ==> HGet(r.0, flow, A_IP) == Some(Str(aIp)) && HGet(r.0, flow, Z_IP) == Some(Str(zIp)))
      && HGet(r.0, flow, SeqField(dir)) == Some(Int(sn))
      && HGet(r.0, flow, AckField(dir)) == Some(Int(an))
      && HGet(r.0, flow, SeqField(Other(dir))) == HGet(s, flow, SeqField(Other(dir)))
      && HGet(r.0, flow, AckField(Other(dir))) == HGet(s, flow, AckField(Other(dir)))
      && r.0.Keys == s.Keys + {flow}
      && (forall k :: k in s && k != flow ==> r.0[k] == s[k])
      && (HasConnection(s, flow) ==> KeepsOtherFields(s, r.0, flow, dir))
      && (WellFormed(s) ==>
        && WellFormed(r.0)
        && r.1 == Some(SynCounter(r.0, flow, dir))
        && SynCounter(r.0, flow, dir) == SynCounter(s, flow, dir) + 1
        && SynCounter(r.0, flow, Other(dir)) == SynCounter(s, flow, Other(dir)))
  {
    StoreCommandsAddresses(s, flow, aIp, zIp, dir, sn, an);
    StoreCommandsNumbers(s, flow, aIp, zIp, dir, sn, an);
    StoreCommandsOtherNumbers(s, flow, aIp, zIp, dir, sn, an);
    StoreCommandsKeys(s, flow, aIp, zIp, dir, sn, an);
    if HasConnection(s, flow) {
      StoreCommandsKeepExisting(s, flow, aIp, zIp, dir, sn, an);
    }
    if WellFormed(s) {
      StoreCommandsCounters(s, flow, aIp, zIp, dir, sn, an);
    }
  }

  /** The connection the store commands leave: created with the given
      addresses if missing, otherwise its addresses kept. */
  lemma StoreCommandsAddresses(s: Db, flow: string, aIp: string, zIp: string, dir: Direction, sn: int, an: int)
    ensures var r := StoreCommands(s, flow, aIp, zIp, dir, sn, an);
      && HasConnection(r.0, flow)
      && (HasConnection(s, flow) ==> HGet(r.0, flow, A_IP) == HGet(s, flow, A_IP))
      && (!HasConnection(s, flow) ==> HGet(r.0, flow, A_IP) == Some(Str(aIp)) && HGet(r.0, flow, Z_IP) == Some(Str(zIp)))
  {
    var s1 := AddTcpConnection(s, flow, aIp, zIp).0;
    var s2 := HSet(s1, flow, SeqField(dir), Int(sn));
    var s3 := HSet(s2, flow, AckField(dir), Int(an));
    var r := HIncrBy(s3, flow, CounterField(dir), 1);
    assert HGet(s3, flow, A_IP) == HGet(s1, flow, A_IP);
    assert HGet(s3, flow, Z_IP) == HGet(s1, flow, Z_IP);
    assert HGet(r.0, flow, A_IP) == HGet(s3, flow, A_IP);
    assert HGet(r.0, flow, Z_IP) == HGet(s3, flow, Z_IP);
  }

  /** The sequence and acknowledgment fields the store commands write. */
  lemma StoreCommandsNumbers(s: Db, flow: string, aIp: string, zIp: string, dir: Direction, sn: int, an: int)
    ensures var r := StoreCommands(s, flow, aIp, zIp, dir, sn, an);
      && HGet(r.0, flow, SeqField(dir)) == Some(Int(sn))
      && HGet(r.0, flow, AckField(dir)) == Some(Int(an))
  {
    var s1 := AddTcpConnection(s, flow, aIp, zIp).0;
    var s2 := HSet(s1, flow, SeqField(dir), Int(sn));
    var s3 := HSet(s2, flow, AckField(dir), Int(an));
    var r := HIncrBy(s3, flow, CounterField(dir), 1);
    assert SeqField(dir) != AckField(dir) && SeqField(dir) != CounterField(dir) && AckField(dir) != CounterField(dir) by {
      match dir
      case AToZ =>
      case ZToA =>
    }
    assert HGet(s3, flow, SeqField(dir)) == Some(Int(sn));
    assert HGet(s3, flow, AckField(dir)) == Some(Int(an));
  }

  /** The other direction's sequence and acknowledgment fields, which the
      store commands leave alone. */
  lemma StoreCommandsOtherNumbers(s: Db, flow: string, aIp: string, zIp: string, dir: Direction, sn: int, an: int)
    ensures var r := StoreCommands(s, flow, aIp, zIp, dir, sn, an);
      && HGet(r.0, flow, SeqField(Other(dir))) == HGet(s, flow, SeqField(Other(dir)))
      && HGet(r.0, flow, AckField(Other(dir))) == HGet(s, flow, AckField(Other(dir)))
  {
    StoreCommandsKeepField(s, flow, aIp, zIp, dir, sn, an, SeqField(Other(dir)));
    StoreCommandsKeepField(s, flow, aIp, zIp, dir, sn, an, AckField(Other(dir)));
  }

  /** A field outside this direction's numbers and counter is left alone,
      provided the connection already exists or the field is not one that
      creating the connection writes. */
  lemma StoreCommandsKeepField(s: Db, flow: string, aIp: string, zIp: string, dir: Direction, sn: int, an: int, g: Field)
    requires g != SeqField(dir) && g != AckField(dir) && g != CounterField(dir)
    requires HasConnection(s, flow) || g !in {A_IP, Z_IP, A_TO_Z_SYN_COUNTER, Z_TO_A_SYN_COUNTER}
    ensures HGet(StoreCommands(s, flow, aIp, zIp, dir, sn, an).0, flow, g) == HGet(s, flow, g)
  {
    var s1 := AddTcpConnection(s, flow, aIp, zIp).0;
    var s2 := HSet(s1, flow, SeqField(dir), Int(sn));
    var s3 := HSet(s2, flow, AckField(dir), Int(an));
    var r := HIncrBy(s3, flow, CounterField(dir), 1);
    assert StoreCommands(s, flow, aIp, zIp, dir, sn, an) == r;
    assert HGet(s1, flow, g) == HGet(s, flow, g);
    assert HGet(s2, flow, g) == HGet(s1, flow, g);
    assert HGet(s3, flow, g) == HGet(s2, flow, g);
    assert HGet(r.0, flow, g) == HGet(s3, flow, g);
  }

  /** For a connection that already exists, every field except this
      direction's numbers and counter keeps its value: `add_tcp_connection`
      returns early and the later commands touch only those three fields. */
  lemma StoreCommandsKeepExisting(s: Db, flow: string, aIp: string, zIp: string, dir: Direction, sn: int, an: int)
    requires HasConnection(s, flow)
    ensures KeepsOtherFields(s, StoreCommands(s, flow, aIp, zIp, dir, sn, an).0, flow, dir)
  {
    forall g | g != SeqField(dir) && g != AckField(dir) && g != CounterField(dir)
      ensures HGet(StoreCommands(s, flow, aIp, zIp, dir, sn, an).0, flow, g) == HGet(s, flow, g)
    {
      StoreCommandsKeepField(s, flow, aIp, zIp, dir, sn, an, g);
    }
  }

  /** The store commands add the flow's key and leave every other key alone. */
  lemma StoreCommandsKeys(s: Db, flow: string, aIp: string, zIp: string, dir: Direction, sn: int, an: int)
    ensures var r := StoreCommands(s, flow, aIp, zIp, dir, sn, an);
      && r.0.Keys == s.Keys + {flow}
      && (forall k :: k in s && k != flow ==> r.0[k] == s[k])
  {
    var s1 := AddTcpConnection(s, flow, aIp, zIp).0;
    var s2 := HSet(s1, flow, SeqField(dir), Int(sn));
    var s3 := HSet(s2, flow, AckField(dir), Int(an));
    var r := HIncrBy(s3, flow, CounterField(dir), 1);
    assert s3.Keys == s.Keys + {flow};
  }

  /** On a well-formed store the commands add one to this direction's
      counter, return the new value, and leave the other counter alone. */
  lemma StoreCommandsCounters(s: Db, flow: string, aIp: string, zIp: string, dir: Direction, sn: int, an: int)
    requires WellFormed(s)
    ensures var r := StoreCommands(s, flow, aIp, zIp, dir, sn, an);
      && WellFormed(r.0)
      && r.1 == Some(SynCounter(r.0, flow, dir))
      && SynCounter(r.0, flow, dir) == SynCounter(s, flow, dir) + 1
      && SynCounter(r.0, flow, Other(dir)) == SynCounter(s, flow, Other(dir))
  {
    var s1 := AddTcpConnection(s, flow, aIp, zIp).0;
    var s2 := HSet(s1, flow, SeqField(dir), Int(sn));
    var s3 := HSet(s2, flow, AckField(dir), Int(an));
    AddKeepsCounters(s, flow, aIp, zIp);
    SetKeepsCounters(s1, flow, SeqField(dir), Int(sn));
    SetKeepsCounters(s2, flow, AckField(dir), Int(an));
    IncrementCounter(s3, flow, dir);
  }

  /** Creating a connection keeps the counters HINCRBY will start from. */
  lemma AddKeepsCounters(s: Db, flow: string, aIp: string, zIp: string)
    requires WellFormed(s)
    ensures WellFormed(AddTcpConnection(s, flow, aIp, zIp).0)
    ensures forall dir :: SynCounter(AddTcpConnection(s, flow, aIp, zIp).0, flow, dir) == SynCounter(s, flow, dir)
  {
  }

  /** Writing a sequence or acknowledgment field touches no counter. */
  lemma SetKeepsCounters(s: Db, flow: string, f: Field, v: Value)
    requires f !in {A_IP, Z_IP, A_TO_Z_SYN_COUNTER, Z_TO_A_SYN_COUNTER}
    ensures WellFormed(s) && HasConnection(s, flow) ==> WellFormed(HSet(s, flow, f, v))
    ensures HasConnection(s, flow) ==> HasConnection(HSet(s, flow, f, v), flow)
    ensures forall dir :: SynCounter(HSet(s, flow, f, v), flow, dir) == SynCounter(s, flow, dir)
  {
  }

  /** HINCRBY on a well-formed connection adds one to that direction only. */
  lemma IncrementCounter(s: Db, flow: string, dir: Direction)
    requires WellFormed(s)
    ensures var r := HIncrBy(s, flow, CounterField(dir), 1);
      && r.1 == Some(SynCounter(s, flow, dir) + 1)
      && (HasConnection(s, flow) ==> WellFormed(r.0))
      && SynCounter(r.0, flow, dir) == SynCounter(s, flow, dir) + 1
      && SynCounter(r.0, flow, Other(dir)) == SynCounter(s, flow, Other(dir))
  {
  }

  /** What `process_tcp_datagram` hands back: the store after the update,
      the connection (if the direction was identified) and any warning. */
  datatype Processed = Processed(db: Db, conn: Option<Connection.TcpConnection>, warning: Option<Warning>)

  /** `process_tcp_datagram`: an unidentified direction changes nothing and
      returns no connection; otherwise the canonical connection is returned
      and its hash updated in the datagram's direction. */
  function ProcessTcpDatagram(local: string, s: Db, d: TcpDatagram): (r: Processed)
    ensures r.conn == CanonicalConnection(local, d)
    ensures r.conn.None? ==> r.db == s && r.warning.None?
    ensures r.conn.Some? ==>
      (r.db, r.warning) == ProcessDirected(s, r.conn.value, d, IdentifyFlowDirection(local, d).value)
  {
    match IdentifyFlowDirection(local, d)
    case Some(AToZ) =>
      var conn := Connection.New(d.srcIp, d.srcPort, d.dstIp, d.dstPort);
      var (s', w) := ProcessAZDatagram(s, conn, d);
      Processed(s', Some(conn), w)
    case Some(ZToA) =>
      var conn := Connection.New(d.dstIp, d.dstPort, d.srcIp, d.srcPort);
      var (s', w) := ProcessZADatagram(s, conn, d);
      Processed(s', Some(conn), w)
    case None =>
      Processed(s, None, None)
  }

  /** With the local host on one side only, a datagram and its reverse
      update the same hash, in opposite directions. */
  lemma ReverseUpdatesSameFlow(local: string, s: Db, d: TcpDatagram)
    requires OneSideLocal(local, d)
    ensures ProcessTcpDatagram(local, s, d).conn.Some?
    ensures ProcessTcpDatagram(local, s, Reverse(d)).conn == ProcessTcpDatagram(local, s, d).conn
    ensures ProcessTcpDatagram(local, s, Reverse(d)).db.Keys == ProcessTcpDatagram(local, s, d).db.Keys
  {
    CanonicalOfReverse(local, d);
  }

  // ---------------------------------------------------------------------
  // The ingestion loop (the body of `process`)
  // ---------------------------------------------------------------------

  /** The `ipv4_filter` test: `"*"` admits every flow, any other filter
      admits the flows whose string contains it. */
  predicate PassesFilter(filter: string, flow: string) {
    filter == MATCH_ALL || Contains(flow, filter)
  }

  /** The self-exclusion test: flows whose string mentions the redis port. */
  predicate IsRedisFlow(flow: string) {
    Contains(flow, REDIS_PORT_TEXT)
  }

  /** The loop's state: the store, the shared `count` and `latest_tcp`, and
      the warnings logged so far. */
  datatype Ingest = Ingest(db: Db, count: nat, latest: Option<Connection.TcpConnection>, warnings: seq<Warning>)

  /** A datagram the loop hands to `process_tcp_datagram` and gets a
      connection back for. */
  predicate Tracked(filter: string, local: string, d: TcpDatagram) {
    && PassesFilter(filter, GetFlow(d))
    && !IsRedisFlow(GetFlow(d))
    && IdentifyFlowDirection(local, d).Some?
  }

  /** One pass of the loop body for a decoded datagram. */
  function Step(filter: string, local: string, st: Ingest, d: TcpDatagram): (st': Ingest)
    ensures st'.count == st.count + (if Tracked(filter, local, d) then 1 else 0)
    ensures !Tracked(filter, local, d) ==> st' == st
    ensures Tracked(filter, local, d) ==>
      && st'.latest == CanonicalConnection(local, d)
      && st'.db == ProcessTcpDatagram(local, st.db, d).db
      && st'.warnings == st.warnings + (match ProcessTcpDatagram(local, st.db, d).warning
                                        case Some(w) => [w]
                                        case None => [])
  {
    var flow := GetFlow(d);
    if !PassesFilter(filter, flow) then st
    else if IsRedisFlow(flow) then st
    else
      var p := ProcessTcpDatagram(local, st.db, d);
      match p.conn
      case None => st.(db := p.db)
      case Some(conn) =>
        var logged := match p.warning case Some(w) => [w] case None => [];
        Ingest(p.db, st.count + 1, Some(conn), st.warnings + logged)
  }

  /** The loop over a captured sequence of datagrams, in capture order. */
  function Run(filter: string, local: string, st: Ingest, ds: seq<TcpDatagram>): Ingest
    decreases |ds|
  {
    if |ds| == 0 then st else Run(filter, local, Step(filter, local, st, ds[0]), ds[1..])
  }

  /** How many datagrams of `ds` the loop tracks. */
  function TrackedCount(filter: string, local: string, ds: seq<TcpDatagram>): nat
    decreases |ds|
  {
    if |ds| == 0 then 0
    else (if Tracked(filter, local, ds[0]) then 1 else 0) + TrackedCount(filter, local, ds[1..])
  }

  /** `count` grows by exactly the number of tracked datagrams. */
  lemma {:induction false} RunCount(filter: string, local: string, st: Ingest, ds: seq<TcpDatagram>)
    ensures Run(filter, local, st, ds).count == st.count + TrackedCount(filter, local, ds)
    decreases |ds|
  {
    if |ds| > 0 {
      RunCount(filter, local, Step(filter, local, st, ds[0]), ds[1..]);
    }
  }

  /** The datagram is tracked, goes in direction `dir`, and updates `flow`. */
  predicate TrackedAs(filter: string, local: string, d: TcpDatagram, flow: string, dir: Direction) {
    && Tracked(filter, local, d)
    && IdentifyFlowDirection(local, d) == Some(dir)
    && Connection.Flow(CanonicalConnection(local, d).value) == flow
  }

  function TrackedAsCount(filter: string, local: string, ds: seq<TcpDatagram>, flow: string, dir: Direction): nat
    decreases |ds|
  {
    if |ds| == 0 then 0
    else (if TrackedAs(filter, local, ds[0], flow, dir) then 1 else 0) + TrackedAsCount(filter, local, ds[1..], flow, dir)
  }

  /** One step adds one to the counter of the flow and direction it
      updates, and changes no other counter. */
  lemma StepSynCounter(filter: string, local: string, st: Ingest, d: TcpDatagram, flow: string, dir: Direction)
    requires WellFormed(st.db)
    ensures WellFormed(Step(filter, local, st, d).db)
    ensures SynCounter(Step(filter, local, st, d).db, flow, dir)
         == SynCounter(st.db, flow, dir) + (if TrackedAs(filter, local, d, flow, dir) then 1 else 0)
  {
    if Tracked(filter, local, d) {
      var conn := CanonicalConnection(local, d).value;
      var dir' := IdentifyFlowDirection(local, d).value;
      var r := ProcessDirected(st.db, conn, d, dir');
      assert Step(filter, local, st, d).db == r.0;
      if Connection.Flow(conn) != flow {
        SameHashSameCounter(st.db, r.0, flow, dir);
      } else if dir' != dir {
        assert dir == Other(dir');
      }
    }
  }

  /** A flow whose hash is untouched keeps its counters. */
  lemma SameHashSameCounter(s: Db, s': Db, flow: string, dir: Direction)
    requires flow in s <==> flow in s'
    requires flow in s ==> s'[flow] == s[flow]
    ensures SynCounter(s', flow, dir) == SynCounter(s, flow, dir)
  {
    assert HashOf(s', flow) == HashOf(s, flow);
  }

  /** Counter monotonicity: after a run, each direction's SYN counter of a
      flow has grown by the number of datagrams the run tracked for that
      flow in that direction, whatever their flags. */
  lemma {:induction false} RunSynCounter(filter: string, local: string, st: Ingest, ds: seq<TcpDatagram>, flow: string, dir: Direction)
    requires WellFormed(st.db)
    ensures WellFormed(Run(filter, local, st, ds).db)
    ensures SynCounter(Run(filter, local, st, ds).db, flow, dir)
         == SynCounter(st.db, flow, dir) + TrackedAsCount(filter, local, ds, flow, dir)
    decreases |ds|
  {
    if |ds| > 0 {
      StepSynCounter(filter, local, st, ds[0], flow, dir);
      RunSynCounter(filter, local, Step(filter, local, st, ds[0]), ds[1..], flow, dir);
    }
  }

  /** The warnings for one flow and direction match its counter: one once
      the counter has reached the threshold, none before. */
  predicate WarnedOnceAtThreshold(st: Ingest, flow: string, dir: Direction) {
    multiset(st.warnings)[Warning(flow, dir)] == if SynCounter(st.db, flow, dir) >= SYN_WARNING_THRESHOLD then 1 else 0
  }

  lemma StepWarnings(filter: string, local: string, st: Ingest, d: TcpDatagram, flow: string, dir: Direction)
    requires WellFormed(st.db)
    requires WarnedOnceAtThreshold(st, flow, dir)
    ensures WarnedOnceAtThreshold(Step(filter, local, st, d), flow, dir)
  {
    StepSynCounter(filter, local, st, d, flow, dir);
    if Tracked(filter, local, d) {
      var conn := CanonicalConnection(local, d).value;
      var dir' := IdentifyFlowDirection(local, d).value;
      var r := ProcessDirected(st.db, conn, d, dir');
      var st' := Step(filter, local, st, d);
      if r.1.Some? {
        assert st'.warnings == st.warnings + [r.1.value];
        assert multiset(st'.warnings) == multiset(st.warnings) + multiset{r.1.value};
      } else {
        assert st'.warnings == st.warnings;
      }
    }
  }

  /** The threshold warning fires at most once per flow and direction: a run
      that starts with no warning and the counter below the threshold
      (a fresh store, say) logs it once if the counter reaches 3, never
      again at 4, 5, and so on. */
  lemma {:induction false} RunWarnsAtMostOnce(filter: string, local: string, st: Ingest, ds: seq<TcpDatagram>, flow: string, dir: Direction)
    requires WellFormed(st.db)
    requires WarnedOnceAtThreshold(st, flow, dir)
    ensures WarnedOnceAtThreshold(Run(filter, local, st, ds), flow, dir)
    ensures multiset(Run(filter, local, st, ds).warnings)[Warning(flow, dir)] <= 1
    decreases |ds|
  {
    if |ds| > 0 {
      StepSynCounter(filter, local, st, ds[0], flow, dir);
      StepWarnings(filter, local, st, ds[0], flow, dir);
      RunWarnsAtMostOnce(filter, local, Step(filter, local, st, ds[0]), ds[1..], flow, dir);
    }
  }

  /** Whether a counter that went from `before` to `after` passed the
      threshold on the way, so that some HINCRBY returned exactly 3. */
  function Crossings(before: int, after: int): nat {
    if before < SYN_WARNING_THRESHOLD <= after then 1 else 0
  }

  /** One step logs the warning for a flow and direction exactly when it
      raises that counter to the threshold, whatever the warnings so far. */
  lemma StepWarningCount(filter: string, local: string, st: Ingest, d: TcpDatagram, flow: string, dir: Direction)
    requires WellFormed(st.db)
    ensures multiset(Step(filter, local, st, d).warnings)[Warning(flow, dir)]
         == multiset(st.warnings)[Warning(flow, dir)]
            + Crossings(SynCounter(st.db, flow, dir), SynCounter(Step(filter, local, st, d).db, flow, dir))
  {
    StepSynCounter(filter, local, st, d, flow, dir);
    if Tracked(filter, local, d) {
      var conn := CanonicalConnection(local, d).value;
      var dir' := IdentifyFlowDirection(local, d).value;
      var r := ProcessDirected(st.db, conn, d, dir');
      var st' := Step(filter, local, st, d);
      if r.1.Some? {
        assert st'.warnings == st.warnings + [r.1.value];
        assert multiset(st'.warnings) == multiset(st.warnings) + multiset{r.1.value};
      } else {
        assert st'.warnings == st.warnings;
      }
    }
  }

  /** Over any run from any well-formed store, the warning for a flow and
      direction is logged once if the run takes its counter across the
      threshold and not at all otherwise. This covers a store that already
      holds counters from an earlier process: a counter already at 3 or more
      is never warned about again. */
  lemma {:induction false} RunWarningCount(filter: string, local: string, st: Ingest, ds: seq<TcpDatagram>, flow: string, dir: Direction)
    requires WellFormed(st.db)
    ensures multiset(Run(filter, local, st, ds).warnings)[Warning(flow, dir)]
         == multiset(st.warnings)[Warning(flow, dir)]
            + Crossings(SynCounter(st.db, flow, dir), SynCounter(Run(filter, local, st, ds).db, flow, dir))
    decreases |ds|
  {
    if |ds| > 0 {
      var st1 := Step(filter, local, st, ds[0]);
      var st2 := Run(filter, local, st1, ds[1..]);
      assert Run(filter, local, st, ds) == st2;
      StepSynCounter(filter, local, st, ds[0], flow, dir);
      StepWarningCount(filter, local, st, ds[0], flow, dir);
      RunSynCounter(filter, local, st1, ds[1..], flow, dir);
      RunWarningCount(filter, local, st1, ds[1..], flow, dir);
      CrossingsCompose(SynCounter(st.db, flow, dir), SynCounter(st1.db, flow, dir), SynCounter(st2.db, flow, dir));
    }
  }

  /** Counting crossings is additive along a non-decreasing counter. */
  lemma CrossingsCompose(a: int, b: int, c: int)
    requires a <= b <= c
    ensures Crossings(a, c) == Crossings(a, b) + Crossings(b, c)
  {
  }

  /** From any well-formed store a run logs at most one new warning per flow
      and direction, and none when the counter starts at the threshold or
      above. */
  lemma RunAddsAtMostOneWarning(filter: string, local: string, st: Ingest, ds: seq<TcpDatagram>, flow: string, dir: Direction)
    requires WellFormed(st.db)
    ensures multiset(Run(filter, local, st, ds).warnings)[Warning(flow, dir)] <= multiset(st.warnings)[Warning(flow, dir)] + 1
    ensures SynCounter(st.db, flow, dir) >= SYN_WARNING_THRESHOLD ==>
      multiset(Run(filter, local, st, ds).warnings)[Warning(flow, dir)] == multiset(st.warnings)[Warning(flow, dir)]
  {
    RunWarningCount(filter, local, st, ds, flow, dir);
  }

  // ---------------------------------------------------------------------
  // What the filters admit
  // ---------------------------------------------------------------------

  /** The filter `"*"` admits every flow; any other filter admits exactly the
      flows that contain it. No flow string contains `*`, so without the
      special case the filter `"*"` would admit nothing. */
  lemma FilterAdmits(filter: string, d: TcpDatagram)
    ensures filter == MATCH_ALL ==> PassesFilter(filter, GetFlow(d))
    ensures filter != MATCH_ALL ==> (PassesFilter(filter, GetFlow(d)) <==> Contains(GetFlow(d), filter))
    ensures !Contains(GetFlow(d), MATCH_ALL)
  {
    var s := GetFlow(d);
    if Contains(s, MATCH_ALL) {
      ContainsChar(s, '*');
      FlowChars(d);
      assert false;
    }
  }

  /** The characters of a flow string: digits, dots, `:`, `-` and `>`. */
  lemma FlowChars(d: TcpDatagram)
    ensures forall i :: 0 <= i < |GetFlow(d)| ==> GetFlow(d)[i] != '*'
  {
    var i1, p1, i2, p2 := IpToString(d.srcIp), NatToString(d.srcPort), IpToString(d.dstIp), NatToString(d.dstPort);
    var s := GetFlow(d);
    assert s == i1 + ":" + p1 + "->" + i2 + ":" + p2;
    forall i | 0 <= i < |s|
      ensures s[i] != '*'
    {
      if i < |i1| {
        assert s[i] == i1[i];
      } else if i == |i1| {
      } else if i < |i1| + 1 + |p1| {
        assert s[i] == p1[i - |i1| - 1];
      } else if i < |i1| + 1 + |p1| + 2 {
      } else if i < |i1| + 1 + |p1| + 2 + |i2| {
        assert s[i] == i2[i - |i1| - 1 - |p1| - 2];
      } else if i == |i1| + 1 + |p1| + 2 + |i2| {
      } else {
        assert s[i] == p2[i - |i1| - 1 - |p1| - 2 - |i2| - 1];
      }
    }
  }

  /** An address rendering is too finely cut by dots to hold `6379`. */
  lemma IpNeverContainsRedisPort(ip: Ipv4Addr)
    ensures !Contains(IpToString(ip), REDIS_PORT_TEXT)
  {
    var o1, o2, o3, o4 := NatToString(ip.a), NatToString(ip.b), NatToString(ip.c), NatToString(ip.d);
    ShortRendering(ip.a);
    ShortRendering(ip.b);
    ShortRendering(ip.c);
    ShortRendering(ip.d);
    ShortNeverContains(o1, REDIS_PORT_TEXT);
    ShortNeverContains(o2, REDIS_PORT_TEXT);
    ShortNeverContains(o3, REDIS_PORT_TEXT);
    ShortNeverContains(o4, REDIS_PORT_TEXT);
    var s := IpToString(ip);
    assert s == o1 + ['.'] + (o2 + "." + o3 + "." + o4);
    assert o2 + "." + o3 + "." + o4 == o2 + ['.'] + (o3 + "." + o4);
    assert o3 + "." + o4 == o3 + ['.'] + o4;
    if Contains(s, REDIS_PORT_TEXT) {
      ContainsAcrossSeparator(o1, '.', o2 + "." + o3 + "." + o4, REDIS_PORT_TEXT);
      ContainsAcrossSeparator(o2, '.', o3 + "." + o4, REDIS_PORT_TEXT);
      ContainsAcrossSeparator(o3, '.', o4, REDIS_PORT_TEXT);
      assert false;
    }
  }

  /** The self-exclusion test looks only at the ports: a flow is skipped
      exactly when one of its two port numbers, printed in decimal, contains
      `6379`. */
  lemma RedisFlowByPorts(d: TcpDatagram)
    ensures IsRedisFlow(GetFlow(d))
        <==> Contains(NatToString(d.srcPort), REDIS_PORT_TEXT) || Contains(NatToString(d.dstPort), REDIS_PORT_TEXT)
  {
    var i1, p1, i2, p2 := IpToString(d.srcIp), NatToString(d.srcPort), IpToString(d.dstIp), NatToString(d.dstPort);
    assert GetFlow(d) == i1 + ":" + p1 + "->" + i2 + ":" + p2;
    IpNeverContainsRedisPort(d.srcIp);
    IpNeverContainsRedisPort(d.dstIp);
    if IsRedisFlow(GetFlow(d)) {
      FlowTextOccurrence(i1, p1, i2, p2, REDIS_PORT_TEXT);
    }
    if Contains(p1, REDIS_PORT_TEXT) || Contains(p2, REDIS_PORT_TEXT) {
      PortOccurrenceInFlowText(i1, p1, i2, p2, REDIS_PORT_TEXT);
    }
  }

  /** In the text of a flow, a pattern free of `:`, `-` and `>` that occurs
      in neither address occurs in one of the ports. */
  lemma FlowTextOccurrence(i1: string, p1: string, i2: string, p2: string, pat: string)
    requires ':' !in pat && '-' !in pat && '>' !in pat && 0 < |pat|
    requires !Contains(i1, pat) && !Contains(i2, pat)
    requires Contains(i1 + ":" + p1 + "->" + i2 + ":" + p2, pat)
    ensures Contains(p1, pat) || Contains(p2, pat)
  {
    var tail := i2 + ":" + p2;
    assert i1 + ":" + p1 + "->" + i2 + ":" + p2 == i1 + [':'] + (p1 + ['-'] + ([] + ['>'] + tail));
    assert tail == i2 + [':'] + p2;
    ContainsAcrossSeparator(i1, ':', p1 + ['-'] + ([] + ['>'] + tail), pat);
    ContainsAcrossSeparator(p1, '-', [] + ['>'] + tail, pat);
    if !Contains(p1, pat) {
      ShortNeverContains([], pat);
      ContainsAcrossSeparator([], '>', tail, pat);
      ContainsAcrossSeparator(i2, ':', p2, pat);
    }
  }

  /** An occurrence in a port is an occurrence in the flow text. */
  lemma PortOccurrenceInFlowText(i1: string, p1: string, i2: string, p2: string, pat: string)
    requires Contains(p1, pat) || Contains(p2, pat)
    ensures Contains(i1 + ":" + p1 + "->" + i2 + ":" + p2, pat)
  {
    var tail := "->" + i2 + ":" + p2;
    if Contains(p1, pat) {
      ContainsInSuffix(i1 + ":", p1, pat);
      ContainsInPrefix(i1 + ":" + p1, tail, pat);
      assert i1 + ":" + p1 + "->" + i2 + ":" + p2 == (i1 + ":" + p1) + tail;
    } else {
      ContainsInSuffix(i1 + ":" + p1 + "->" + i2 + ":", p2, pat);
    }
  }

  /** A datagram to or from port 6379 is never tracked. */
  lemma RedisPortNeverTracked(filter: string, local: string, d: TcpDatagram)
    requires d.srcPort == 6379 || d.dstPort == 6379
    ensures IsRedisFlow(GetFlow(d))
    ensures !Tracked(filter, local, d)
  {
    PortTextContainsRedisPort(6379);
    RedisFlowByPorts(d);
  }

  /** The substring test also skips ports that merely contain the digits
      6379, such as 16379 or 63790. */
  lemma RedisTestSkipsOtherPorts(filter: string, local: string, d: TcpDatagram)
    requires d.srcPort == 16379 || d.dstPort == 63790
    ensures IsRedisFlow(GetFlow(d))
    ensures !Tracked(filter, local, d)
  {
    if d.srcPort == 16379 {
      PortTextContainsRedisPort(16379);
    } else {
      PortTextContainsRedisPort(63790);
    }
    RedisFlowByPorts(d);
  }

  lemma PortTextContainsRedisPort(port: nat)
    requires port == 6379 || port == 16379 || port == 63790
    ensures Contains(NatToString(port), REDIS_PORT_TEXT)
  {
    if port == 6379 {
      RedisPortText();
    } else if port == 16379 {
      PrefixedRedisPortText();
    } else {
      SuffixedRedisPortText();
    }
  }

  lemma RedisPortText()
    ensures NatToString(6379) == REDIS_PORT_TEXT
    ensures Contains(NatToString(6379), REDIS_PORT_TEXT)
  {
    assert NatToString(6379) == "6379";
    assert StartsWith(REDIS_PORT_TEXT, REDIS_PORT_TEXT);
  }

  lemma PrefixedRedisPortText()
    ensures Contains(NatToString(16379), REDIS_PORT_TEXT)
  {
    assert NatToString(16379) == "16379";
    assert "16379"[1..] == REDIS_PORT_TEXT;
    assert StartsWith(REDIS_PORT_TEXT, REDIS_PORT_TEXT);
  }

  lemma SuffixedRedisPortText()
    ensures Contains(NatToString(63790), REDIS_PORT_TEXT)
  {
    assert NatToString(63790) == "63790";
    assert "63790"[..4] == REDIS_PORT_TEXT;
  }

  // ---------------------------------------------------------------------
  // A worked example
  // ---------------------------------------------------------------------

  /** An answer (endpoints swapped, any other fields) belongs to the same
      connection as the datagram it answers, in the opposite direction. */
  lemma AnswerSameConnection(local: string, d: TcpDatagram, reply: TcpDatagram)
    requires OneSideLocal(local, d)
    requires (reply.srcIp, reply.srcPort, reply.dstIp, reply.dstPort) == (d.dstIp, d.dstPort, d.srcIp, d.srcPort)
    ensures IdentifyFlowDirection(local, reply) == Some(Other(IdentifyFlowDirection(local, d).value))
    ensures CanonicalConnection(local, reply) == CanonicalConnection(local, d)
  {
  }

  /** Two updates of one connection, in opposite directions, on a
      well-formed store: the connection's hash is added if missing and
      each direction's SYN counter goes up by one. */
  lemma TwoDirections(s0: Db, conn: Connection.TcpConnection, d: TcpDatagram, reply: TcpDatagram, dir: Direction)
    requires WellFormed(s0)
    ensures var s2 := ProcessDirected(ProcessDirected(s0, conn, d, dir).0, conn, reply, Other(dir)).0;
      && s2.Keys == s0.Keys + {Connection.Flow(conn)}
      && SynCounter(s2, Connection.Flow(conn), AToZ) == SynCounter(s0, Connection.Flow(conn), AToZ) + 1
      && SynCounter(s2, Connection.Flow(conn), ZToA) == SynCounter(s0, Connection.Flow(conn), ZToA) + 1
  {
    var flow := Connection.Flow(conn);
    var s1 := ProcessDirected(s0, conn, d, dir).0;
    var s2 := ProcessDirected(s1, conn, reply, Other(dir)).0;
    DirectedCounters(s0, conn, d, dir);
    DirectedCounters(s1, conn, reply, Other(dir));
    CountersCompose(s0, s1, s2, flow, dir);
  }

  /** Two counter steps in opposite directions raise both counters by one. */
  lemma CountersCompose(s0: Db, s1: Db, s2: Db, flow: string, dir: Direction)
    requires SynCounter(s1, flow, dir) == SynCounter(s0, flow, dir) + 1
    requires SynCounter(s1, flow, Other(dir)) == SynCounter(s0, flow, Other(dir))
    requires SynCounter(s2, flow, Other(dir)) == SynCounter(s1, flow, Other(dir)) + 1
    requires SynCounter(s2, flow, Other(Other(dir))) == SynCounter(s1, flow, Other(Other(dir)))
    ensures SynCounter(s2, flow, AToZ) == SynCounter(s0, flow, AToZ) + 1
    ensures SynCounter(s2, flow, ZToA) == SynCounter(s0, flow, ZToA) + 1
  {
  }

  /** The part of `ProcessDirected`'s contract that concerns the keys and
      the two counters of a well-formed store. */
  lemma DirectedCounters(s: Db, conn: Connection.TcpConnection, d: TcpDatagram, dir: Direction)
    requires WellFormed(s)
    ensures var r := ProcessDirected(s, conn, d, dir).0;
      && WellFormed(r)
      && r.Keys == s.Keys + {Connection.Flow(conn)}
      && SynCounter(r, Connection.Flow(conn), dir) == SynCounter(s, Connection.Flow(conn), dir) + 1
      && SynCounter(r, Connection.Flow(conn), Other(dir)) == SynCounter(s, Connection.Flow(conn), Other(dir))
  {
  }

  /** A datagram and its answer, tracked one after the other: both are
      counted, the canonical connection's hash is added if missing, and
      each direction's SYN counter goes up by one. */
  lemma Exchange(filter: string, local: string, st: Ingest, d: TcpDatagram, reply: TcpDatagram)
    requires WellFormed(st.db)
    requires OneSideLocal(local, d)
    requires (reply.srcIp, reply.srcPort, reply.dstIp, reply.dstPort) == (d.dstIp, d.dstPort, d.srcIp, d.srcPort)
    requires Tracked(filter, local, d) && Tracked(filter, local, reply)
    ensures var st' := Run(filter, local, st, [d, reply]);
      var flow := Connection.Flow(CanonicalConnection(local, d).value);
      && st'.count == st.count + 2
      && st'.db.Keys == st.db.Keys + {flow}
      && SynCounter(st'.db, flow, AToZ) == SynCounter(st.db, flow, AToZ) + 1
      && SynCounter(st'.db, flow, ZToA) == SynCounter(st.db, flow, ZToA) + 1
      && st'.latest == CanonicalConnection(local, d)
  {
    AnswerSameConnection(local, d, reply);
    var conn := CanonicalConnection(local, d).value;
    var dir := IdentifyFlowDirection(local, d).value;
    var st1 := Step(filter, local, st, d);
    var st2 := Step(filter, local, st1, reply);
    assert [d, reply][1..] == [reply];
    assert Run(filter, local, st1, [reply]) == st2;
    assert st1.db == ProcessDirected(st.db, conn, d, dir).0;
    assert st2.db == ProcessDirected(st1.db, conn, reply, Other(dir)).0;
    TwoDirections(st.db, conn, d, reply, dir);
  }

  /** The local host 10.0.0.5 opens a connection from port 51000 to
      93.184.216.34:80 and the server answers. The local host is on one
      side, both datagrams pass the loop's tests, and the connection they
      share is keyed `93.184.216.34:80->10.0.0.5:51000` (A the server, Z the
      local host), for the answer as for the SYN: so `Exchange` applies, as
      `HandshakeRun` spells out. */
  lemma HandshakeExample(syn: TcpDatagram, reply: TcpDatagram)
    requires syn == TcpDatagram(Ipv4Addr(10, 0, 0, 5), 51000, Ipv4Addr(93, 184, 216, 34), 80, 20, 0, 1000, SYN_FLAGS)
    requires reply == TcpDatagram(Ipv4Addr(93, 184, 216, 34), 80, Ipv4Addr(10, 0, 0, 5), 51000, 532, 1001, 7000, SYN_ACK_FLAGS)
    ensures OneSideLocal("10.0.0.5", syn)
    ensures Tracked(MATCH_ALL, "10.0.0.5", syn) && Tracked(MATCH_ALL, "10.0.0.5", reply)
    ensures (reply.srcIp, reply.srcPort, reply.dstIp, reply.dstPort) == (syn.dstIp, syn.dstPort, syn.srcIp, syn.srcPort)
    ensures Connection.Flow(CanonicalConnection("10.0.0.5", syn).value) == "93.184.216.34:80->10.0.0.5:51000"
    ensures CanonicalConnection("10.0.0.5", reply) == CanonicalConnection("10.0.0.5", syn)
  {
    var local := "10.0.0.5";
    var client, server := Ipv4Addr(10, 0, 0, 5), Ipv4Addr(93, 184, 216, 34);
    ExampleAddresses(client, server);
    ExampleNotRedis(syn);
    ExampleNotRedis(reply);
    assert IdentifyFlowDirection(local, syn) == Some(ZToA);
    assert IdentifyFlowDirection(local, reply) == Some(AToZ);
    var conn := Connection.New(server, 80, client, 51000);
    assert CanonicalConnection(local, syn) == Some(conn);
    assert CanonicalConnection(local, reply) == Some(conn);
    ExampleKey(conn);
  }

  /** The handshake above, run through the loop with every flow admitted:
      both datagrams are counted and the shared hash's SYN count goes up by
      one in each direction, on any well-formed store. */
  lemma HandshakeRun(st: Ingest, syn: TcpDatagram, reply: TcpDatagram)
    requires WellFormed(st.db)
    requires syn == TcpDatagram(Ipv4Addr(10, 0, 0, 5), 51000, Ipv4Addr(93, 184, 216, 34), 80, 20, 0, 1000, SYN_FLAGS)
    requires reply == TcpDatagram(Ipv4Addr(93, 184, 216, 34), 80, Ipv4Addr(10, 0, 0, 5), 51000, 532, 1001, 7000, SYN_ACK_FLAGS)
    ensures var st' := Run(MATCH_ALL, "10.0.0.5", st, [syn, reply]);
      && st'.count == st.count + 2
      && SynCounter(st'.db, "93.184.216.34:80->10.0.0.5:51000", AToZ)
         == SynCounter(st.db, "93.184.216.34:80->10.0.0.5:51000", AToZ) + 1
      && SynCounter(st'.db, "93.184.216.34:80->10.0.0.5:51000", ZToA)
         == SynCounter(st.db, "93.184.216.34:80->10.0.0.5:51000", ZToA) + 1
  {
    HandshakeExample(syn, reply);
    Exchange(MATCH_ALL, "10.0.0.5", st, syn, reply);
  }

  lemma ExampleAddresses(client: Ipv4Addr, server: Ipv4Addr)
    requires client == Ipv4Addr(10, 0, 0, 5) && server == Ipv4Addr(93, 184, 216, 34)
    ensures IpToString(client) == "10.0.0.5"
    ensures IpToString(server) == "93.184.216.34"
  {
  }

  lemma ExampleKey(conn: Connection.TcpConnection)
    requires conn == Connection.New(Ipv4Addr(93, 184, 216, 34), 80, Ipv4Addr(10, 0, 0, 5), 51000)
    ensures Connection.Flow(conn) == "93.184.216.34:80->10.0.0.5:51000"
  {
    ExampleAddresses(Ipv4Addr(10, 0, 0, 5), Ipv4Addr(93, 184, 216, 34));
    ExamplePorts();
  }

  lemma ExamplePorts()
    ensures NatToString(80) == "80" && NatToString(51000) == "51000"
  {
    assert NatToString(5) == "5";
    assert NatToString(51) == "51";
    assert NatToString(510) == "510";
    assert NatToString(5100) == "5100";
  }

  /** Neither example datagram touches the redis port. */
  lemma ExampleNotRedis(d: TcpDatagram)
    requires (d.srcPort == 51000 && d.dstPort == 80) || (d.srcPort == 80 && d.dstPort == 51000)
    ensures !IsRedisFlow(GetFlow(d))
  {
    ExamplePortText(80);
    ExamplePortText(51000);
    RedisFlowByPorts(d);
  }

  lemma ExamplePortText(port: nat)
    requires port == 80 || port == 51000
    ensures !Contains(NatToString(port), REDIS_PORT_TEXT)
  {
    if port == 80 {
      assert NatToString(80) == "80";
      ShortNeverContains("80", REDIS_PORT_TEXT);
    } else {
      assert NatToString(51000) == "51000";
      ShortNeverContains("000", REDIS_PORT_TEXT);
      assert "1000"[1..] == "000";
      assert !StartsWith("1000", REDIS_PORT_TEXT) by { assert "1000"[..4][0] != REDIS_PORT_TEXT[0]; }
      assert "51000"[1..] == "1000";
      assert !StartsWith("51000", REDIS_PORT_TEXT) by { assert "51000"[..4][0] != REDIS_PORT_TEXT[0]; }
    }
  }
}
