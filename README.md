# Replicated key-value service: coordinator core in Dafny

This project models the core of a sharded, replicated key-value HTTP service (2019-highload-dht). Each stored value is wrapped in a timestamped record. A node that receives a client request takes the role of coordinator:

- It works out how many replicas to ask (`from`) and how many answers it needs (`ack`), from the `replicas=ack/from` parameter or from the cluster size.
- It walks the ring of nodes, starting from the key's primary.
- It runs the operation on its own store when it is one of the targets, and collects its peers' answers otherwise.
- It answers 504 when too few replicas answered. Otherwise it answers from the newest record.

The model has these modules:

- `JavaTypes` (java_types.dfy): bytes as Java holds them, and big-endian `int`/`long` encodings with their round trips.
- `ByteBuffers` (byte_buffers.dfy): the part of `java.nio.ByteBuffer` the core uses. It is a class over an array, with a position and a limit.
- `TimestampRecords` (timestamp_records.dfy): the record, its binary format, and newest-wins resolution (`latestOf`).
- `RocksUtils` (rocks_utils.dfy): the byte-shifting copies used for keys in the storage engine. It proves that they are a bijection and preserve order.
- `Topologies` (topology.dfy): the node list, key placement and identity.
- `Replicas` (replicas.dfy): the quorum and the parsing of the `replicas` parameter.
- `Coordination` (server_utils.dfy): the coordinator.
  - The ring walk, the local and remote handlers, and the final decision are specification functions.
  - The `ServerUtils` class updates its store, records and counter in place, and is proved against those functions.

Several things sit outside this process, and each becomes an input:

- The clock reading taken when a record is built.
- Whether each call to the local store throws.
- What each peer replies.
- The key's `hashCode`.
- The iteration order of the node set.

Where the documented behaviour of the service and its code differ, the model follows the code:

- **Default quorum.** Without the `replicas` parameter, `ack` is `quorum(size)`, which is `size/2` for an even size. The documented default is a majority, ⌊N/2⌋+1. `Replicas.Quorum` states both cases.
- **Failed local read.** A local GET that misses or fails appends a null record and still counts as an answer.
- **Failed local write.** A local PUT whose upsert throws still appends its record and counts as an answer. A DELETE whose remove throws appends null. A DELETE whose upsert throws still appends the tombstone. Both DELETE cases count as an answer.
- **`from` larger than the cluster.** This is not rejected. The ring walk wraps round and contacts the same node again (`ReplicasWrapAround`). A local target contacted twice contributes two records.
- **Placement API.** `ServerUtils` uses `primaryFor` as an index and then calls `getNode`. `Topology.java` instead returns the node name and has no `getNode`. The model provides all three: `PrimaryIndex`, `GetNode` and `PrimaryFor`, with `PrimaryFor == GetNode(PrimaryIndex)`.

## Model

| member | source | states |
|---|---|---|
| JavaTypes.IntRoundTrip | src/main/java/ru/mail/polis/dao/impl/TimestampRecord.java:53-54 | decoding the four big-endian bytes written for an int gives the int back |
| JavaTypes.IntBytesRoundTrip | src/main/java/ru/mail/polis/dao/impl/TimestampRecord.java:69-70 | any four bytes read as an int and written back are the same bytes |
| JavaTypes.LongRoundTrip | src/main/java/ru/mail/polis/dao/impl/TimestampRecord.java:54 | decoding the eight big-endian bytes written for a long gives the long back |
| JavaTypes.LongBytesRoundTrip | src/main/java/ru/mail/polis/dao/impl/TimestampRecord.java:71 | any eight bytes read as a long and written back are the same bytes |
| TimestampRecords.TimestampRecord.Type | src/main/java/ru/mail/polis/dao/impl/TimestampRecord.java:22-32 | the kind is DELETED iff the value is null, EMPTY iff it is zero-length, and VALUE iff it is non-empty |
| TimestampRecords.Encode | src/main/java/ru/mail/polis/dao/impl/TimestampRecord.java:49-63 | the length is 12 plus the value length; the first 4 bytes decode to the kind, the next 8 to the timestamp, and the rest are the value |
| TimestampRecords.ToByteArray | src/main/java/ru/mail/polis/dao/impl/TimestampRecord.java:49-63 | the buffer filled by putInt, putLong and put holds exactly the encoding |
| TimestampRecords.FromByteArray | src/main/java/ru/mail/polis/dao/impl/TimestampRecord.java:65-84 | null iff the input is null, shorter than 12 bytes, or has an unknown tag; otherwise the timestamp is the decoded header long |
| TimestampRecords.RoundTrip | src/main/java/ru/mail/polis/dao/impl/TimestampRecord.java:49-84 | parsing the serialised record gives back the same value and timestamp, for all three kinds |
| TimestampRecords.FromByteArrayByTag | src/main/java/ru/mail/polis/dao/impl/TimestampRecord.java:70-83 | tag 1 gives a tombstone, tag 0 an empty value, and tag 2 the remaining bytes; trailing bytes are ignored under tags 0 and 1 |
| TimestampRecords.ValueTagWithoutPayloadIsEmpty | src/main/java/ru/mail/polis/dao/impl/TimestampRecord.java:73-83 | a tag-2 header with no payload parses to a record of kind EMPTY, not VALUE |
| TimestampRecords.EncodeOfParsed | src/main/java/ru/mail/polis/dao/impl/TimestampRecord.java:49-84 | re-serialising a parsed record gives the input back iff the input was canonical |
| TimestampRecords.LatestOf | src/main/java/ru/mail/polis/dao/impl/TimestampRecord.java:97-112 | the loop's result is the newest-wins fold of the whole list |
| TimestampRecords.LatestNoneIff | src/main/java/ru/mail/polis/dao/impl/TimestampRecord.java:97-112 | the result is null iff every entry is null |
| TimestampRecords.LatestIsFirstNewest | src/main/java/ru/mail/polis/dao/impl/TimestampRecord.java:97-112 | a non-null result is the first record with the greatest timestamp |
| TimestampRecords.FirstNewestIsLatest | src/main/java/ru/mail/polis/dao/impl/TimestampRecord.java:97-112 | conversely, the first record with the greatest timestamp is the result |
| TimestampRecords.LatestIgnoresOrder | src/main/java/ru/mail/polis/dao/impl/TimestampRecord.java:97-112 | a permutation of the same records gives the same result when no two distinct records share a timestamp |
| RocksUtils.ShiftArrayInplace | src/main/java/ru/mail/polis/dao/impl/RocksUtils.java:54-59 | every element becomes (unsigned byte − shift) mod 256; the length is unchanged |
| RocksUtils.ToArray | src/main/java/ru/mail/polis/dao/impl/RocksUtils.java:20-25 | a fresh array holding the buffer's remaining bytes; the buffer's position is unchanged |
| RocksUtils.ToArrayShifted | src/main/java/ru/mail/polis/dao/impl/RocksUtils.java:34-40 | a fresh array holding the remaining bytes shifted by Byte.MIN_VALUE; the position is unchanged |
| RocksUtils.FromArrayShifted | src/main/java/ru/mail/polis/dao/impl/RocksUtils.java:48-52 | a fresh buffer whose remaining bytes are the argument shifted back by −Byte.MIN_VALUE; the argument is unchanged |
| RocksUtils.ShiftRoundTrip | src/main/java/ru/mail/polis/dao/impl/RocksUtils.java:34-59 | shifting back undoes shifting in, and shifting in undoes shifting back |
| RocksUtils.ShiftedSignedIsUnsignedMinus128 | src/main/java/ru/mail/polis/dao/impl/RocksUtils.java:54-59 | each shifted byte, read signed, is the original byte read unsigned minus 128 |
| RocksUtils.ShiftPreservesOrder | src/main/java/ru/mail/polis/dao/impl/RocksUtils.java:28-38 | unsigned lexicographic order of keys is exactly signed lexicographic order of the shifted keys |
| RocksUtils.StoredOrderIsSignedKeyOrder | src/main/java/ru/mail/polis/dao/impl/RocksUtils.java:34-52 | the engine's byte-wise (unsigned) order of the stored shifted keys is exactly signed lexicographic order of the original keys |
| Topologies.NewTopology | src/main/java/ru/mail/polis/service/impl/Topology.java:19-23 | given a set containing this node, the list has no duplicates, contains this node, and has the set's size |
| Topologies.MaskSign | src/main/java/ru/mail/polis/service/impl/Topology.java:26-27 | `hash & Integer.MAX_VALUE` is in 0..2^31−1: the hash itself when non-negative, and hash + 2^31 otherwise |
| Topologies.GetNode | src/main/java/ru/mail/polis/service/impl/ServerUtils.java:104-105 | the node at a valid position of the list, hence a cluster member |
| Topologies.PrimaryIndex | src/main/java/ru/mail/polis/service/impl/Topology.java:25-29 | the placement index is a valid position in the node list |
| Topologies.PrimaryFor | src/main/java/ru/mail/polis/service/impl/Topology.java:25-29 | the primary node is a cluster member, and the one at the placement index |
| Topologies.GetAll | src/main/java/ru/mail/polis/service/impl/Topology.java:31-33 | the set holds exactly the listed nodes, and its size equals the list's length when the list has no duplicates |
| Topologies.IsMe | src/main/java/ru/mail/polis/service/impl/Topology.java:35-37 | true iff the node is this node |
| Topologies.MeAtExactlyOnePosition | src/main/java/ru/mail/polis/service/impl/Topology.java:19-37 | in a constructed topology, exactly one position of the list is this node |
| Replicas.Quorum | src/main/java/ru/mail/polis/service/impl/ServerUtils.java:55-57 | a strict majority for an odd count, exactly half for an even one, and between 1 and from when from ≥ 1 |
| Replicas.AckFrom | src/main/java/ru/mail/polis/service/impl/ServerUtils.java:76-85 | without the parameter, (quorum(size), size); otherwise the two parsed fields |
| Replicas.DefaultIsAcceptable | src/main/java/ru/mail/polis/service/impl/ServerUtils.java:76-90 | without the parameter, a request to a non-empty cluster is never refused, and from is the cluster size |
| Replicas.ParseRoundTrip | src/main/java/ru/mail/polis/service/impl/ServerUtils.java:80-85 | `ack/from` written in decimal is well formed and parses back to (ack, from) |
| Coordination.Target | src/main/java/ru/mail/polis/service/impl/ServerUtils.java:103-105 | the i-th target is the cluster node at position (primary + i) mod size |
| Coordination.ReplicasFor | src/main/java/ru/mail/polis/service/impl/ServerUtils.java:92-105 | the from targets in ring order; the first is the key's primary |
| Coordination.ReplicasAreDistinct | src/main/java/ru/mail/polis/service/impl/ServerUtils.java:103-105 | with from ≤ size, no node is contacted twice |
| Coordination.ReplicasWrapAround | src/main/java/ru/mail/polis/service/impl/ServerUtils.java:103-105 | with from > size, target i + size is target i again |
| Coordination.LocalPut | src/main/java/ru/mail/polis/service/impl/ServerUtils.java:201-212 | a local PUT appends the record (body, now) and stores its encoding, unless the upsert throws |
| Coordination.LocalGetStored | src/main/java/ru/mail/polis/service/impl/ServerUtils.java:188-200 | a local GET of a key holding a serialised record, with no store fault, appends exactly that record and leaves the store as it was |
| Coordination.LocalDelete | src/main/java/ru/mail/polis/service/impl/ServerUtils.java:213-222 | a failed remove appends null and leaves the store; otherwise the tombstone stamped now is appended, and the new store is the old one without the key, plus the tombstone's encoding unless the upsert throws; no other entry changes |
| Coordination.DispatchCounts | src/main/java/ru/mail/polis/service/impl/ServerUtils.java:100-112 | the fan-out keeps counter = number of records, appends one record per successful target and none per failed one, and keeps earlier records |
| Coordination.Decide | src/main/java/ru/mail/polis/service/impl/ServerUtils.java:120-142 | 504 iff fewer than ack records; otherwise GET gives 200 or 404, PUT gives 201, DELETE gives 202, and any other method sends nothing |
| Coordination.GetDecision | src/main/java/ru/mail/polis/service/impl/ServerUtils.java:125-133 | 200 with v iff the first newest record holds v; 404 iff all records are null or the first newest is a tombstone |
| Coordination.NewestValueIsFound | src/main/java/ru/mail/polis/service/impl/ServerUtils.java:125-133 | a value v strictly newer than every other answer makes a GET with enough answers return 200 with v |
| Coordination.NewestTombstoneIsNotFound | src/main/java/ru/mail/polis/service/impl/ServerUtils.java:125-131 | a tombstone strictly newer than every other answer makes a GET answer 404 |
| Coordination.BadReplicasContactNobody | src/main/java/ru/mail/polis/service/impl/ServerUtils.java:87-90 | an (ack, from) outside 1 ≤ ack ≤ from sends 400 and changes neither the store, the records nor the counter |
| Coordination.QuorumDecides | src/main/java/ru/mail/polis/service/impl/ServerUtils.java:100-142 | records = counter = successful targets; 504 iff fewer than ack succeeded; PUT gives 201 and DELETE 202 iff at least ack succeeded |
| Coordination.SingleNodeRequest | src/main/java/ru/mail/polis/service/impl/ServerUtils.java:73-143 | on one node with default replicas, a request is one local step followed by the decision with ack = 1 |
| Coordination.SingleNodeReadsStored | src/main/java/ru/mail/polis/service/impl/ServerUtils.java:125-133 | on a one-node cluster with default replicas and a healthy store, a GET of a key whose stored bytes encode a record answers 200 with its value, or 404 if it is a tombstone |
| Coordination.PutThenGet | src/main/java/ru/mail/polis/service/impl/ServerUtils.java:73-240 | on a one-node cluster with default replicas and a healthy store: a PUT of v answers 201, and a following GET answers 200 with v, an empty v included |
| Coordination.DeleteThenGet | src/main/java/ru/mail/polis/service/impl/ServerUtils.java:73-240 | on a one-node cluster with default replicas and a healthy store: a DELETE answers 202, and a following GET answers 404, whatever was stored before |
| Coordination.ServerUtils.constructor | src/main/java/ru/mail/polis/service/impl/ServerUtils.java:42-53 | the coordinator starts with the given topology and store, no records, and a zero counter |
| Coordination.ServerUtils.HandleLocal | src/main/java/ru/mail/polis/service/impl/ServerUtils.java:184-240 | the store, records, counter and sent responses become exactly the local step of the specification; counter = records is kept |
| Coordination.ServerUtils.HandleRemote | src/main/java/ru/mail/polis/service/impl/ServerUtils.java:164-182 | a reply with status in {200, 201, 202, 404} appends its parsed body and counts; any other reply or a failed call changes nothing |
| Coordination.ServerUtils.FanOut | src/main/java/ru/mail/polis/service/impl/ServerUtils.java:103-112 | after the loop, the state is the dispatch of the from targets in ring order |
| Coordination.ServerUtils.Respond | src/main/java/ru/mail/polis/service/impl/ServerUtils.java:120-142 | sends exactly the decision on the collected records and changes nothing else |
| Coordination.ServerUtils.ProcessDirect | src/main/java/ru/mail/polis/service/impl/ServerUtils.java:73-143 | the new state is the specification of the whole request: 400 when refused, otherwise fan-out from a reset record list, then the decision |

## Left out

- Concurrency: the handlers run on worker threads, share `records` and the counter, and `allFutures.complete` may finish the wait as soon as ack answers arrive. The model runs the from sub-requests one after another, in ring order, each to completion. Because `LatestIgnoresOrder` holds, the response does not depend on that order unless two distinct records share a timestamp. Early completion, and records that arrive after the decision, are not modelled. Client requests are also modelled one at a time. In the source, `records` and `numberRequestsAccepted` are fields of the one `ServerUtils` object (ServerUtils.java:30-32), reset for every request (lines 100-102). Two requests in flight at once can therefore overwrite each other's records and counter. The model does not capture that interference.
- HTTP transport: building the proxied URI and copying headers and body into the peer request (ServerUtils.java:94-98, 145-169) are not modelled. A peer's behaviour is an input: its reply, or None when the call threw or timed out.
- Error messages: `sendError` texts, `executeAsync` and the 500 it sends when writing a response fails are not modelled. A response is its status and body only.
- The clock: `System.currentTimeMillis()` in the one-argument `TimestampRecord` constructor (TimestampRecord.java:18-20) is the `now` parameter of each local step.
- `ByteBuffer.hashCode`: its value is taken as the `hash` parameter and is not computed.
- `HashSet` iteration order: `new ArrayList<>(nodes)` copies a set in an order the model takes as a parameter of `NewTopology`.
- Topologies.NewTopology: the Java `assert nodes.contains(me)` is a precondition. With assertions disabled, Java would build a topology without this node; the model does not cover that case.
- Replicas.AckFrom: a `replicas` value that `split`/`parseInt` would reject (a missing field, not a number, out of int range) throws in the source; in the model it is excluded by a precondition. Only ASCII digits are accepted, while `Integer.parseInt` also accepts other Unicode decimal digits.
- Replicas.Quorum: it takes a `nat`, because its only caller passes a cluster size.
- The DAO and its storage engine: RocksDAO.java and RocksRecordIterator.java are not part of this model. The local store is a map from keys to stored bytes. Its `get`, `upsert` and `remove` either behave like a map or throw, as `StoreFaults` says. `handleLocal` reads a stored value through `RocksUtils.toArray`. The model takes the stored bytes directly, since `ToArray` is proved to return exactly the remaining bytes. The engine orders keys with the byte-wise unsigned comparator it is opened with (RocksDAO.java:29); `StoredOrderIsSignedKeyOrder` takes that order as given.
- The HTTP server classes (AsyncHttpServer.java, MyHttpServer.java, ShardedHttpServer.java) and the load-testing scripts are not part of this model.
- The HTTP client map built in the `ServerUtils` constructor (ServerUtils.java:47-52) is not modelled. The peer replies it would carry are inputs.
- Coordination.ServerUtils.ProcessDirect: the source's `processDirect` takes its own `topology` argument (ServerUtils.java:73-74), which shadows the field and is used for placement and the ring walk. The model always uses the coordinator's own topology, the one the peer clients were built from (lines 48-52). It assumes callers pass that same topology.
- Coordination.PutThenGet: read-after-write is stated only on a one-node cluster with default replicas and a healthy store. On several nodes the outcome depends on the peers' replies, which are inputs. For any cluster, `NewestValueIsFound` and `GetDecision` state what a GET returns given the collected answers.
- Coordination.DeleteThenGet: delete-then-read is stated only on a one-node cluster with default replicas and a healthy store, for the same reason. For any cluster, `NewestTombstoneIsNotFound` states that the newest tombstone among the collected answers gives 404.
