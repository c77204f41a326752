/** The redis adapter (`TcpDatabase` in src/tcpdb/mod.rs) over the in-memory
    hash store: one hash per flow string. */
module TcpDatabase {
  import opened Wrappers
  import opened HashStore

  /** The hash fields the adapter writes. The last four belong to the
      sequence and acknowledgment setters, which src/tcpdb/mod.rs does not
      define; their names follow the methods. */
  datatype Field =
    | A_IP | Z_IP
    | A_TO_Z_SYN_COUNTER | Z_TO_A_SYN_COUNTER
    | A_Z_SEQ_NUM | A_Z_ACK_NUM | Z_A_SEQ_NUM | Z_A_ACK_NUM

  /** The name of a field in the redis hash. */
  function FieldName(f: Field): string {
    match f
    case A_IP => "a_ip"
    case Z_IP => "z_ip"
    case A_TO_Z_SYN_COUNTER => "a_to_z_syn_counter"
    case Z_TO_A_SYN_COUNTER => "z_to_a_syn_counter"
    case A_Z_SEQ_NUM => "a_z_seq_num"
    case A_Z_ACK_NUM => "a_z_ack_num"
    case Z_A_SEQ_NUM => "z_a_seq_num"
    case Z_A_ACK_NUM => "z_a_ack_num"
  }

  /** Distinct fields have distinct names, so the datatype loses nothing
      against the hash's text field names. */
  lemma FieldNameInjective(f: Field, g: Field)
    ensures FieldName(f) == FieldName(g) <==> f == g
  {
  }

  /** The adapter's view of the store: one hash of fields per flow string. */
  type Db = Store<Field>

  /** The adapter's existence test: the flow's hash has an `a_ip` field. */
  predicate HasConnection(s: Db, flow: string) {
    HGet(s, flow, A_IP).Some?
  }

  /** A hash as `add_tcp_connection` leaves it: both addresses as text and
      both counters as integers. */
  predicate WellFormedHash(h: Hash<Field>) {
    && A_IP in h && h[A_IP].Str?
    && Z_IP in h && h[Z_IP].Str?
    && A_TO_Z_SYN_COUNTER in h && h[A_TO_Z_SYN_COUNTER].Int?
    && Z_TO_A_SYN_COUNTER in h && h[Z_TO_A_SYN_COUNTER].Int?
  }

  /** Every hash in the store is a well-formed connection. */
  predicate WellFormed(s: Db) {
    forall k :: k in s ==> WellFormedHash(s[k])
  }

  /** `add_tcp_connection`: when the flow has no `a_ip` yet, sets both SYN
      counters to 0 and records the two addresses (text only, no ports),
      keeping any other field; returns whether it did so. */
  function AddTcpConnection(s: Db, flow: string, aIp: string, zIp: string): (r: (Db, bool))
    ensures HasConnection(s, flow) ==> r == (s, false)
    ensures !HasConnection(s, flow) ==>
      && r.1
      && HGet(r.0, flow, A_TO_Z_SYN_COUNTER) == Some(Int(0))
      && HGet(r.0, flow, Z_TO_A_SYN_COUNTER) == Some(Int(0))
      && HGet(r.0, flow, A_IP) == Some(Str(aIp))
      && HGet(r.0, flow, Z_IP) == Some(Str(zIp))
      && (forall f :: f !in {A_TO_Z_SYN_COUNTER, Z_TO_A_SYN_COUNTER, A_IP, Z_IP} ==> HGet(r.0, flow, f) == HGet(s, flow, f))
    ensures HasConnection(r.0, flow)
    ensures r.0.Keys == s.Keys + {flow}
    ensures forall k :: k in s && k != flow ==> r.0[k] == s[k]
  {
    match HGet(s, flow, A_IP)
    case Some(_) => (s, false)
    case None =>
      var s1 := HSet(s, flow, A_TO_Z_SYN_COUNTER, Int(0));
      var s2 := HSet(s1, flow, Z_TO_A_SYN_COUNTER, Int(0));
      var s3 := HSet(s2, flow, A_IP, Str(aIp));
      var s4 := HSet(s3, flow, Z_IP, Str(zIp));
      (s4, true)
  }

  /** `increment_z_to_a_syn_counter`: HINCRBY of the Z-to-A counter by one. */
  function IncrementZToASynCounter(s: Db, flow: string): (r: (Db, Option<int>))
    ensures IntField(s, flow, Z_TO_A_SYN_COUNTER).Some? ==>
      && r.1 == Some(IntField(s, flow, Z_TO_A_SYN_COUNTER).value + 1)
      && HGet(r.0, flow, Z_TO_A_SYN_COUNTER) == Some(Int(r.1.value))
    ensures IntField(s, flow, Z_TO_A_SYN_COUNTER).None? ==> r == (s, None)
    ensures forall f :: f != Z_TO_A_SYN_COUNTER ==> HGet(r.0, flow, f) == HGet(s, flow, f)
    ensures forall k :: k in s && k != flow ==> k in r.0 && r.0[k] == s[k]
    ensures r.0.Keys <= s.Keys + {flow}
  {
    HIncrBy(s, flow, Z_TO_A_SYN_COUNTER, 1)
  }

  /** `increment_a_to_z_syn_counter`, which src/tcpdb/mod.rs does not define:
      the same command on the A-to-Z counter. */
  function IncrementAToZSynCounter(s: Db, flow: string): (r: (Db, Option<int>))
    ensures IntField(s, flow, A_TO_Z_SYN_COUNTER).Some? ==>
      && r.1 == Some(IntField(s, flow, A_TO_Z_SYN_COUNTER).value + 1)
      && HGet(r.0, flow, A_TO_Z_SYN_COUNTER) == Some(Int(r.1.value))
    ensures IntField(s, flow, A_TO_Z_SYN_COUNTER).None? ==> r == (s, None)
    ensures forall f :: f != A_TO_Z_SYN_COUNTER ==> HGet(r.0, flow, f) == HGet(s, flow, f)
    ensures forall k :: k in s && k != flow ==> k in r.0 && r.0[k] == s[k]
    ensures r.0.Keys <= s.Keys + {flow}
  {
    HIncrBy(s, flow, A_TO_Z_SYN_COUNTER, 1)
  }

  /** `get_z_to_a_syn_counter`: the stored counter, if it is an integer.
      Being a function of the store, it leaves the store as it was. */
  function GetZToASynCounter(s: Db, flow: string): (r: Option<int>)
    ensures r.Some? <==> HGet(s, flow, Z_TO_A_SYN_COUNTER).Some? && HGet(s, flow, Z_TO_A_SYN_COUNTER).value.Int?
    ensures r.Some? ==> HGet(s, flow, Z_TO_A_SYN_COUNTER) == Some(Int(r.value))
  {
    match HGet(s, flow, Z_TO_A_SYN_COUNTER)
    case Some(Int(n)) => Some(n)
    case _ => None
  }

  /** The sequence and acknowledgment setters, which src/tcpdb/mod.rs does
      not define: each overwrites one field of the flow's hash. */
  function SetAZSeqNum(s: Db, flow: string, n: int): Db { HSet(s, flow, A_Z_SEQ_NUM, Int(n)) }
  function SetAZAckNum(s: Db, flow: string, n: int): Db { HSet(s, flow, A_Z_ACK_NUM, Int(n)) }
  function SetZASeqNum(s: Db, flow: string, n: int): Db { HSet(s, flow, Z_A_SEQ_NUM, Int(n)) }
  function SetZAAckNum(s: Db, flow: string, n: int): Db { HSet(s, flow, Z_A_ACK_NUM, Int(n)) }

  /** A second `add_tcp_connection` for the same flow creates nothing and
      changes nothing, whatever addresses it is given. */
  lemma AddTcpConnectionIdempotent(s: Db, flow: string, aIp: string, zIp: string, aIp': string, zIp': string)
    ensures AddTcpConnection(AddTcpConnection(s, flow, aIp, zIp).0, flow, aIp', zIp')
         == (AddTcpConnection(s, flow, aIp, zIp).0, false)
  {
  }

  /** Creating a connection keeps the store well formed. */
  lemma AddTcpConnectionWellFormed(s: Db, flow: string, aIp: string, zIp: string)
    requires WellFormed(s)
    ensures WellFormed(AddTcpConnection(s, flow, aIp, zIp).0)
  {
  }

  /** Right after creation the first Z-to-A increment returns 1, and a read
      then returns that same value. */
  lemma FirstIncrementAfterCreation(s: Db, flow: string, aIp: string, zIp: string)
    requires !HasConnection(s, flow)
    ensures IncrementZToASynCounter(AddTcpConnection(s, flow, aIp, zIp).0, flow).1 == Some(1)
    ensures GetZToASynCounter(IncrementZToASynCounter(AddTcpConnection(s, flow, aIp, zIp).0, flow).0, flow) == Some(1)
  {
  }
}
