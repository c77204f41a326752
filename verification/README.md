# sawbill flow tracker, modelled in Dafny

sawbill sniffs TCP/IPv4 traffic on one interface and keeps per-conversation
state in redis. It turns each captured segment into a `TcpDatagram` record,
then decides the segment's direction relative to the local address:
`a_to_z` when the local host receives it, `z_to_a` when it sends it. From
that it builds the canonical `TcpConnection`, with A the peer and Z the
local host. It then updates that connection's redis hash: it creates the
hash, records the direction's last sequence and acknowledgment numbers, and
increments the direction's SYN counter, warning when the counter reaches 3.
Despite its name, the counter counts every datagram, whatever its flags.

The capture loop has three tests. It applies a substring filter on the
flow string, with `*` meaning "everything". It skips redis' own traffic
(port 6379). It counts the datagrams it tracks and remembers the latest
connection. A second flow table (`src/tcp_db`, not declared in src/main.rs) keeps connections in
an in-process map keyed by a `parse_flow` string.

The model is functional:

- **Records.** Datagrams and connections are immutable datatypes. IPv4
  addresses are four `u8` octets. Ports are `u16`. Sequence numbers,
  acknowledgment numbers and byte counts are `u32`.
- **Text.** Rust's `format!` of an address, a port and a flow is written
  out character by character. It has a parser, and the rendering is proved
  to round-trip.
- **Redis.** Redis is a map from key to hash, where a hash maps fields to
  integer or text values. HGET, HSET and HINCRBY are total functions on it.
- **The loop.** The loop body is a state-passing `Step` over the store,
  `count`, `latest_tcp` and the warnings logged so far. `Run` folds it over
  a sequence of captured datagrams.

Files:

| file | module | what |
|---|---|---|
| wrappers.dfy | Wrappers | `Option` |
| machine_ints.dfy | MachineInts | `u8`/`u16`/`u32` and the `as u32` cast |
| strings.dfy | Strings | substring search (`str::contains`), split at a character |
| decimal.dfy | Decimal | decimal rendering of naturals and its parser |
| address.dfy | Address | dotted-quad rendering, `ip:port` and flow strings, their parsers |
| datagram.dfy | Datagram | src/datagram/mod.rs |
| connection.dfy | Connection | src/connection/mod.rs |
| hash_store.dfy | HashStore | the redis hash commands |
| tcpdb.dfy | TcpDatabase | src/tcpdb/mod.rs |
| processor.dfy | Processor | src/processor/mod.rs |
| flow_table.dfy | FlowTable | src/tcp_db/mod.rs |

## Model

| member | source | states |
|---|---|---|
| Datagram.New | src/datagram/mod.rs:20-41 | the record takes both addresses from the IPv4 header and ports, sequence, acknowledgment and flags from the TCP header; `bytes` is the payload length whenever that fits in a `u32` |
| Datagram.BytesCountHeaderAndData | src/datagram/mod.rs:23-24 | `bytes` is the TCP header plus the data, so it is strictly larger than the data length |
| Datagram.GetFlowParses | src/datagram/mod.rs:43-45 | `get_flow` is `src:sport->dst:dport`: parsing it at `->` gives back exactly the four addressing fields |
| Datagram.GetFlowInjective | src/datagram/mod.rs:43-45 | two datagrams have the same flow string if and only if their addresses and ports are equal |
| Datagram.ReverseSwapsFlowHalves | src/datagram/mod.rs:43-45 | swapping source and destination exchanges the two `ip:port` halves around `->` |
| Datagram.GettersReturnFields | src/datagram/mod.rs:47-73 | the number getters return the stored fields; the address getters give equal strings exactly for equal addresses |
| Datagram.IsSyn | src/datagram/mod.rs:75-80 | a segment counted as SYN is never a SYN+ACK |
| Datagram.IsSynExactly | src/datagram/mod.rs:75-80 | `is_syn` holds if and only if the flag word is 2, so SYN+ACK (18) is not a SYN |
| Connection.New | src/connection/mod.rs:22-31 | the four endpoint values are stored as given and the Z-to-A SYN counter starts at 0 |
| Connection.GetFlows | src/connection/mod.rs:33-40 | exactly two flow strings |
| Connection.GetFlowsParse | src/connection/mod.rs:33-40 | the first string parses to A-to-Z endpoints and the second to Z-to-A endpoints |
| Connection.GetFlowsOfSwapped | src/connection/mod.rs:33-40 | the connection built with A and Z exchanged lists the same two strings in the opposite order |
| Connection.GetFlowsMatchDatagram | src/connection/mod.rs:35-38 | the two strings are the `get_flow` of an A-to-Z datagram and of its reverse |
| Connection.GettersReturnArguments | src/connection/mod.rs:42-56 | the getters return the constructor's arguments, addresses rendered |
| Connection.Flow | src/processor/mod.rs:63 | the key under which a connection is stored is its A-to-Z flow string |
| Connection.FlowDeterminesEndpoints | src/connection/mod.rs:35 | two connections share a key only if they have the same four endpoint values |
| Decimal.NatToStringInjective | src/datagram/mod.rs:43-45 | distinct port numbers render to distinct decimal texts |
| Address.IpToStringInjective | src/datagram/mod.rs:59-65 | distinct addresses render to distinct strings |
| Address.FlowStringInjective | src/datagram/mod.rs:44 | a flow string determines its four endpoint values |
| HashStore.HGet | src/tcpdb/mod.rs:29-38 | HGET finds a value exactly when the key has a hash holding the field, and returns what is stored |
| HashStore.HSet | src/tcpdb/mod.rs:61-64 | HSET makes the field read back as written; it leaves the hash's other fields and every other key as they were |
| HashStore.HIncrBy | src/tcpdb/mod.rs:17-27 | HINCRBY returns the old integer plus the increment and stores it (a missing field counts as 0); on a text field it changes nothing and returns nothing; nothing else changes |
| TcpDatabase.FieldNameInjective | src/tcpdb/mod.rs:61-64 | the field datatype and the hash's field names (`a_to_z_syn_counter`, `z_to_a_syn_counter`, `a_ip`, `z_ip`, …) are in one-to-one correspondence |
| TcpDatabase.AddTcpConnection | src/tcpdb/mod.rs:50-68 | with `a_ip` present: returns false and leaves the store unchanged; otherwise: returns true, both counters 0, `a_ip`/`z_ip` as given, other fields and keys untouched, the flow's key added if missing |
| TcpDatabase.AddTcpConnectionIdempotent | src/tcpdb/mod.rs:50-68 | a second call for the same flow returns false and leaves the state of the first, whatever addresses it is given |
| TcpDatabase.AddTcpConnectionWellFormed | src/tcpdb/mod.rs:59-66 | creation leaves every hash with text addresses and integer counters |
| TcpDatabase.IncrementZToASynCounter | src/tcpdb/mod.rs:17-27 | on an integer counter it returns the value plus one and stores it; on a text value it changes nothing; no other field changes, other keys keep their hashes, and no key but the flow's is added |
| TcpDatabase.IncrementAToZSynCounter | src/processor/mod.rs:69 | the same contract on the A-to-Z counter |
| TcpDatabase.GetZToASynCounter | src/tcpdb/mod.rs:29-38 | returns the stored counter exactly when it is an integer |
| TcpDatabase.FirstIncrementAfterCreation | src/tcpdb/mod.rs:17-27 | right after creation the first increment returns 1 and a read then gives 1 |
| Processor.IdentifyFlowDirection | src/processor/mod.rs:46-56 | `a_to_z` if and only if the local address is the destination (even when it is the source too); `z_to_a` if and only if it is the source and not the destination; none if and only if it is neither |
| Processor.CanonicalConnection | src/processor/mod.rs:105-118 | a connection exists exactly when the direction is identified; its Z renders as the local address, its counter is 0; on the A-to-Z path (A, Z) is (source, destination), on the Z-to-A path (destination, source), also when both sides are local |
| Processor.CanonicalOfReverse | src/processor/mod.rs:107-115 | with the local host on one side only, a datagram and its reverse go in opposite directions and yield the same connection |
| Processor.BothSidesLocalIsAToZ | src/processor/mod.rs:49-54 | with the local host on both sides, a datagram and its reverse are both A-to-Z, and they share a connection if and only if their ports are equal |
| Processor.ProcessDirected | src/processor/mod.rs:58-92 | after the update the connection exists; a new one has the given addresses; for an existing one every field but this direction's seq, ack and counter keeps its value (`add_tcp_connection` returns early); this direction's seq/ack are the datagram's; the other direction's seq/ack and all other keys are unchanged; on a well-formed store the SYN counter is one higher whatever the flags, the other counter is unchanged, and the warning fires exactly when the counter is now 3 |
| Processor.ProcessTcpDatagram | src/processor/mod.rs:94-123 | an unidentified direction returns none and leaves the store and warnings alone; otherwise it returns the canonical connection and performs that direction's update |
| Processor.ReverseUpdatesSameFlow | src/processor/mod.rs:105-118 | a datagram and its reverse update the same hash and create the same keys |
| Processor.AnswerSameConnection | src/processor/mod.rs:105-115 | an answer (endpoints swapped, any other fields) maps to the same connection in the opposite direction |
| Processor.TwoDirections | src/processor/mod.rs:58-92 | on a well-formed store, one update in each direction adds the connection's key if missing and raises each direction's counter by one |
| Processor.Step | src/processor/mod.rs:158-184 | a datagram that fails the filter, touches port 6379 or has no direction changes nothing; otherwise `count` grows by 1, `latest_tcp` becomes its connection, and the store and log are those of `process_tcp_datagram` |
| Processor.RunCount | src/processor/mod.rs:173-183 | over any capture, `count` grows by exactly the number of tracked datagrams |
| Processor.StepSynCounter | src/processor/mod.rs:58-92 | one pass raises a counter by one exactly when it tracks a datagram for that flow and direction |
| Processor.RunSynCounter | src/processor/mod.rs:58-92 | over any capture, each direction's counter of each flow grows by the number of datagrams tracked for it |
| Processor.StepWarnings | src/processor/mod.rs:69-72 | one pass keeps each flow and direction at one warning once its counter is 3 or more, and none before |
| Processor.RunWarnsAtMostOnce | src/processor/mod.rs:69-90 | from a state whose warnings match its counter (none below the threshold, one at or above it), the counter-at-3 warning is logged at most once per flow and direction, and the match is kept |
| Processor.StepWarningCount | src/processor/mod.rs:69-90 | from any well-formed store, one step logs the warning for a flow and direction exactly when it takes that counter from below 3 to 3 |
| Processor.RunWarningCount | src/processor/mod.rs:69-90 | from any well-formed store, including one holding counters from an earlier process, a run logs the warning once if it takes the counter across 3 and never otherwise |
| Processor.RunAddsAtMostOneWarning | src/processor/mod.rs:69-90 | from any well-formed store a run adds at most one warning per flow and direction, and none when the counter already starts at 3 or more |
| Processor.FilterAdmits | src/processor/mod.rs:160-167 | `*` admits every flow; any other filter admits exactly the flows containing it; no flow string contains `*` |
| Processor.RedisFlowByPorts | src/processor/mod.rs:169-172 | a flow is skipped as redis traffic if and only if one of its ports, in decimal, contains `6379` |
| Processor.IpNeverContainsRedisPort | src/processor/mod.rs:169 | no dotted-quad address contains `6379` |
| Processor.RedisPortNeverTracked | src/processor/mod.rs:169-172 | a datagram to or from port 6379 is never tracked |
| Processor.RedisTestSkipsOtherPorts | src/processor/mod.rs:169-172 | ports 16379 and 63790 are skipped as well |
| Processor.Exchange | src/processor/mod.rs:158-184 | a tracked datagram followed by its tracked answer counts 2, adds at most the connection's key, raises both directions' counters by one and leaves that connection as the latest |
| Processor.HandshakeExample | src/processor/mod.rs:158-184 | for 10.0.0.5:51000 to 93.184.216.34:80 and the answer: both are tracked, the SYN's connection is keyed `93.184.216.34:80->10.0.0.5:51000`, and the answer resolves to that same connection |
| Processor.HandshakeRun | src/processor/mod.rs:158-184 | the same two datagrams through the loop with filter `*`, on any well-formed store: count +2 and the SYN counter of `93.184.216.34:80->10.0.0.5:51000` one higher in each direction |
| FlowTable.New | src/tcp_db/mod.rs:15-18 | no flows, and the local address as given |
| FlowTable.ParseFlow | src/tcp_db/mod.rs:20-34 | as written, every datagram gets the key `unknown` |
| FlowTable.ConnectionOf | src/tcp_db/mod.rs:39-44 | a new entry has A the datagram's source and Z its destination |
| FlowTable.AddUnder | src/tcp_db/mod.rs:36-50 | get-or-create: the key is added; an existing entry gets the per-entry update and is never replaced; a new one starts from the datagram's endpoints; nothing else changes |
| FlowTable.Add | src/tcp_db/mod.rs:36-50 | after `add` the `parse_flow` key is present; the key set grows by at most one; every other entry is unchanged |
| FlowTable.AddMergesAllFlows | src/tcp_db/mod.rs:20-50 | as written, two datagrams of any conversations both update one `unknown` entry |
| FlowTable.AddCanonical | src/tcp_db/mod.rs:36-50 | with the `a:ap<->z:zp` key: that key is present afterwards and nothing else changes |
| FlowTable.CanonicalKeyOfReverse | src/tcp_db/mod.rs:21-32 | a datagram and its reverse have the same canonical key, which names the local host second |
| FlowTable.CanonicalKeySeparatesConversations | src/tcp_db/mod.rs:21-32 | equal canonical keys mean the same pair of endpoints |
| FlowTable.AddCanonicalSharesEntry | src/tcp_db/mod.rs:36-50 | with the canonical key, a datagram and its reverse share one entry, created once |

## Left out

- The HTTP side is not modelled: the Rocket routes, the geolocation lookups and process startup in src/main.rs and src/ip_info. It is I/O and presentation.
- Packet capture is not modelled: interface lookup, the datalink channel, `rx.next()` and its panics, and `parse_tcp_ipv4_datagram`. A datagram is built from already-decoded header fields (`Datagram.New`).
- `get_local_ipv4` is not modelled. It is a regular expression over a library's `to_string()`. The local address is a parameter.
- The `Arc<Mutex<…>>` sharing of `count` and `latest_tcp` is not modelled. Their updates are sequential state changes of `Step`. The `/reset_count` route (src/main.rs:101-107) sets `count` to 0 from another task. Processor.RunCount describes only the capture loop's own writes.
- The redis transport is not modelled: connecting, `KEYS *` (`get_redis_keys`), network errors and `unwrap` panics. HGET/HSET/HINCRBY are total functions on an in-memory map.
- `debug!`/`error!` logging is not modelled. The `get_offset`/`get_options` calls at src/processor/mod.rs:99-100 are left out too: the datagram type does not define them.
- Only IPv4 is modelled, because the datagram constructor only ever builds `IpAddr::V4`.
- `get_flow` on a connection (src/processor/mod.rs:63, 81) is not defined in src/connection/mod.rs. `Connection.Flow` takes it to be the A-to-Z string of `get_flows`.
- Some store methods the processor calls are not defined in src/tcpdb/mod.rs. These are `increment_a_to_z_syn_counter` and the `add_{a_z,z_a}_{seq,ack}_num` setters. They are modelled by analogy: HINCRBY, and HSET on fields named after the methods.
- `connection.add(datagram)` in src/tcp_db/mod.rs:48 is not defined. It is the abstract parameter `record`.
- The `tcp_conn.clone()` calls at src/processor/mod.rs:110, 115 are left out: `TcpConnection` does not derive `Clone`. The model returns the value itself.
- The `String`s from `get_src_ip()`/`get_dst_ip()` that src/processor/mod.rs:101-115 passes to `TcpConnection::new`, which takes `IpAddr` (src/connection/mod.rs:22), are replaced by the addresses themselves. Since address rendering is injective (`Address.IpToStringInjective`), this loses nothing.
- Datagram.New: requires a payload of at least 20 bytes. `TcpPacket::new` rejects anything shorter than a TCP header and the source then panics in `expect`.
- Processor.Step: `count` is a `nat`. The source's `u32` would overflow after 2^32 - 1 tracked datagrams: a panic in debug builds, wrap-around in release.
- TcpDatabase.IncrementZToASynCounter: counters are unbounded integers. Redis keeps 64-bit values and the source reads the HINCRBY reply as `i32`. Past 2^31 - 1, the redis crate's conversion decides between a panic and a wrap-around; it is not part of this model. The same holds for TcpDatabase.IncrementAToZSynCounter.
- Processor.RunWarnsAtMostOnce, Processor.RunWarningCount, Processor.RunAddsAtMostOneWarning and Processor.StepWarningCount describe the source only while counters stay below 2^31. A wrap-around would let the `== 3` test at src/processor/mod.rs:70, 88 hold again and log a second warning.
- Per-direction byte counters are not modelled. The processor never stores `get_bytes`. Under the `get_flow` assumption above, it keys its hashes with `->` flow strings, as the model does.
- src/tcp_db/mod.rs is not reachable from src/main.rs, which declares no `tcp_db` module. It would not compile as written either:
  - it reads the private fields `src_ip`, `src_port`, `dst_ip` and `dst_port` of `TcpDatagram` (src/tcp_db/mod.rs:21-43);
  - `TcpDb` derives `Clone`, `Serialize` and `Deserialize`, which its `TcpConnection` values do not implement.

  It is modelled as written regardless.

## Findings

| source | as written | input that shows it | evidently intended | confidence | as-written member | corrected member |
|---|---|---|---|---|---|---|
| src/tcp_db/mod.rs:20-34 | both `format!` calls are statements ending in `;`, so their strings are dropped and `parse_flow` always returns `"unknown"` | local 10.0.0.5; `add` of 10.0.0.5:51000 to 93.184.216.34:80, then of 10.0.0.5:40000 to 1.1.1.1:443: both update the single `unknown` entry | return `peer:port<->local:port`, so that each conversation gets its own entry and a datagram and its reply share one | not executed | FlowTable.ParseFlow, FlowTable.AddMergesAllFlows | FlowTable.CanonicalKey, FlowTable.AddCanonical, FlowTable.CanonicalKeyOfReverse, FlowTable.CanonicalKeySeparatesConversations, FlowTable.AddCanonicalSharesEntry |
