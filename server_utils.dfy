/**
 * ServerUtils: the replica coordinator. For one client request it works out
 * (ack, from), refuses the request unless 1 <= ack <= from, walks the ring
 * of nodes from the key's primary for `from` targets, runs the operation
 * locally on this node's store or collects the answer a peer sent, and
 * decides the response from the collected records: 504 when fewer than ack
 * answered, otherwise by the newest record.
 *
 * The source runs the per-target handlers concurrently; here they run one
 * after another, target 0 first. Everything outside this process is an
 * input: the clock reading and the storage faults each local handler meets
 * and the reply each peer gives are `env(i)` for the i-th target.
 */
module Coordination {
  import opened JavaTypes
  import opened TimestampRecords
  import opened Topologies
  import opened Replicas

  // Ring walk.

  /** The node `processDirect` sends its i-th sub-request to. */
  function Target(t: Topology, hash: Int32, i: nat): (n: NodeId)
    requires t.Valid()
    ensures n in t.nodes
    ensures n == t.nodes[(PrimaryIndex(t, hash) + i) % |t.nodes|]
  {
    var size := |GetAll(t)|;
    GetNode(t, (PrimaryIndex(t, hash) + i) % size)
  }

  lemma ModOfSmall(x: nat, n: nat)
    requires 0 < n && x < 2 * n
    ensures x % n == if x < n then x else x - n
  {
    if x >= n {
      assert x == n + (x - n);
    }
  }

  /** The whole replica set of a key: `count` targets in ring order. */
  function ReplicasFor(t: Topology, hash: Int32, count: nat): (r: seq<NodeId>)
    requires t.Valid()
    ensures |r| == count
    ensures count > 0 ==> r[0] == PrimaryFor(t, hash)
    ensures forall i :: 0 <= i < count ==> r[i] == Target(t, hash, i)
  {
    ModOfSmall(PrimaryIndex(t, hash), |t.nodes|);
    seq(count, i requires 0 <= i < count => Target(t, hash, i))
  }

  /** Asking for at most as many replicas as there are nodes reaches each node at most once. */
  lemma ReplicasAreDistinct(t: Topology, hash: Int32, count: nat)
    requires t.Valid() && count <= |t.nodes|
    ensures Distinct(ReplicasFor(t, hash, count))
  {
    var r, n, p := ReplicasFor(t, hash, count), |t.nodes|, PrimaryIndex(t, hash);
    forall i, j | 0 <= i < j < count ensures r[i] != r[j] {
      ModOfSmall(p + i, n);
      ModOfSmall(p + j, n);
    }
  }

  lemma MultipleBounds(k: int, n: int)
    requires n > 0
    ensures k >= 1 ==> k * n >= n
    ensures k <= -1 ==> k * n <= -n
  {
    if k >= 1 {
      assert k * n == (k - 1) * n + n;
    } else if k <= -1 {
      assert k * n == (k + 1) * n - n;
    }
  }

  lemma ModAddPeriod(x: nat, n: nat)
    requires n > 0
    ensures (x + n) % n == x % n
  {
    var q, r := x / n, x % n;
    var d, m := (x + n) / n, (x + n) % n;
    assert (d - q - 1) * n == r - m by {
      assert d * n + m == (q + 1) * n + r;
    }
    MultipleBounds(d - q - 1, n);
  }

  /** Asking for more replicas than there are nodes wraps round: targets repeat every |nodes|. */
  lemma ReplicasWrapAround(t: Topology, hash: Int32, count: nat, i: nat)
    requires t.Valid() && i + |t.nodes| < count
    ensures ReplicasFor(t, hash, count)[i + |t.nodes|] == ReplicasFor(t, hash, count)[i]
  {
    ModAddPeriod(PrimaryIndex(t, hash) + i, |t.nodes|);
  }

  // Requests, responses, and what the outside world contributes.

  datatype HttpMethod = GET | PUT | DELETE | OtherMethod

  /** The parts of the client request the coordinator looks at. */
  datatype Request = Request(httpMethod: HttpMethod, body: Option<Bytes>)

  /** A response sent on the client session (error messages are not modelled). */
  datatype Response = Response(status: int, body: Bytes)

  const OK := 200
  const CREATED := 201
  const ACCEPTED := 202
  const BAD_REQUEST := 400
  const NOT_FOUND := 404
  const METHOD_NOT_ALLOWED := 405
  const GATEWAY_TIMEOUT := 504

  /** `successCodes`: the peer statuses that count as an answer. */
  const SUCCESS_CODES: set<int> := {200, 201, 202, 404}

  /** A peer's reply to a proxied request: a status and a (possibly null) body. */
  datatype Reply = Reply(status: int, body: Option<Bytes>)

  /** Which of the store calls made by a local handler throw an IOException. */
  datatype StoreFaults = StoreFaults(getFails: bool, upsertFails: bool, removeFails: bool)

  const NO_FAULTS := StoreFaults(false, false, false)

  /**
   * What the world supplies to the i-th sub-request: the clock reading of a
   * local write, the faults of the local store, and the peer's reply (None
   * when the call failed or timed out).
   */
  datatype TargetEnv = TargetEnv(now: Int64, faults: StoreFaults, reply: Option<Reply>)

  /** The local DAO: keys to stored bytes. */
  type Store = map<Bytes, Bytes>

  // The handlers, as functions of the state they change.

  /**
   * What `handleLocal` does to the store, and the entry it appends to
   * `records` (None when it appends nothing: an unsupported method).
   */
  datatype LocalEffect = LocalEffect(store: Store, appended: Option<Option<TimestampRecord>>)

  function Local(httpMethod: HttpMethod, store: Store, key: Bytes, body: Option<Bytes>,
                 now: Int64, faults: StoreFaults): LocalEffect
  {
    match httpMethod
    case GET =>
      var read := if faults.getFails || key !in store then None else Some(store[key]);
      LocalEffect(store, Some(if read.None? then None else FromByteArray(read)))
    case PUT =>
      var bytes := Encode(TimestampRecord(body, now));
      LocalEffect(if faults.upsertFails then store else store[key := bytes],
                  Some(FromByteArray(Some(bytes))))
    case DELETE =>
      if faults.removeFails then LocalEffect(store, Some(FromByteArray(None)))
      else
        var removed := store - {key};
        var bytes := Encode(TimestampRecord(None, now));
        LocalEffect(if faults.upsertFails then removed else removed[key := bytes],
                    Some(FromByteArray(Some(bytes))))
    case OtherMethod => LocalEffect(store, None)
  }

  /** The entry `handleRemote` appends for a peer's reply, if the reply counts. */
  function Remote(reply: Option<Reply>): Option<Option<TimestampRecord>>
  {
    if reply.Some? && reply.value.status in SUCCESS_CODES then Some(FromByteArray(reply.value.body))
    else None
  }

  /** A local PUT stores the serialised record and answers with exactly that record. */
  lemma LocalPut(store: Store, key: Bytes, body: Option<Bytes>, now: Int64, faults: StoreFaults)
    ensures var e := Local(PUT, store, key, body, now, faults);
            && e.appended == Some(Some(TimestampRecord(body, now)))
            && e.store == if faults.upsertFails then store else store[key := Encode(TimestampRecord(body, now))]
  {
    RoundTrip(TimestampRecord(body, now));
  }

  /**
   * A local DELETE removes the key and stores a tombstone stamped now; it
   * answers with that tombstone unless the removal itself failed, and no
   * other entry of the store changes.
   */
  lemma LocalDelete(store: Store, key: Bytes, now: Int64, faults: StoreFaults)
    ensures var e := Local(DELETE, store, key, None, now, faults);
            && (faults.removeFails ==> e == LocalEffect(store, Some(None)))
            && (!faults.removeFails ==>
                  && e.appended == Some(Some(TimestampRecord(None, now)))
                  && (key !in e.store <==> faults.upsertFails))
            && e.store == if faults.removeFails then store
                          else if faults.upsertFails then store - {key}
                          else (store - {key})[key := Encode(TimestampRecord(None, now))]
  {
    RoundTrip(TimestampRecord(None, now));
  }

  /**
   * The coordinator's state during one request: the store, the collected
   * records, the success counter, and the responses written to the client
   * session so far.
   */
  datatype Pending = Pending(store: Store, records: seq<Option<TimestampRecord>>, accepted: int,
                             sent: seq<Response>)

  /** `handleLocal`: a known method appends its record and counts; any other sends 405. */
  function LocalStep(p: Pending, request: Request, key: Bytes, now: Int64, faults: StoreFaults): Pending
  {
    var e := Local(request.httpMethod, p.store, key, request.body, now, faults);
    if e.appended.Some? then Pending(e.store, p.records + [e.appended.value], p.accepted + 1, p.sent)
    else Pending(e.store, p.records, p.accepted, p.sent + [Response(METHOD_NOT_ALLOWED, [])])
  }

  /** `handleRemote`: a counted reply appends its record and counts; any other changes nothing. */
  function RemoteStep(p: Pending, reply: Option<Reply>): Pending
  {
    var r := Remote(reply);
    if r.Some? then p.(records := p.records + [r.value], accepted := p.accepted + 1) else p
  }

  /** One sub-request, to `node`. */
  function Step(p: Pending, t: Topology, node: NodeId, request: Request, key: Bytes,
                env: TargetEnv): Pending
  {
    if IsMe(t, node) then LocalStep(p, request, key, env.now, env.faults)
    else RemoteStep(p, env.reply)
  }

  /** The first n sub-requests, in ring order. */
  function Dispatch(p: Pending, t: Topology, hash: Int32, request: Request, key: Bytes,
                    env: nat -> TargetEnv, n: nat): Pending
    requires t.Valid()
  {
    if n == 0 then p
    else Step(Dispatch(p, t, hash, request, key, env, n - 1), t, Target(t, hash, n - 1), request, key, env(n - 1))
  }

  /** Whether the i-th sub-request succeeds: a local one always does, a remote one on a counted reply. */
  predicate Succeeds(t: Topology, hash: Int32, request: Request, env: nat -> TargetEnv, i: nat)
    requires t.Valid()
  {
    if IsMe(t, Target(t, hash, i)) then request.httpMethod != OtherMethod
    else Remote(env(i).reply).Some?
  }

  /** How many of the first n sub-requests succeed. */
  function Successes(t: Topology, hash: Int32, request: Request, env: nat -> TargetEnv, n: nat): (c: nat)
    requires t.Valid()
    ensures c <= n
  {
    if n == 0 then 0
    else Successes(t, hash, request, env, n - 1) + (if Succeeds(t, hash, request, env, n - 1) then 1 else 0)
  }

  /**
   * Every successful sub-request appends exactly one record and bumps the
   * counter once; a failed one leaves both alone.
   */
  lemma {:induction false} DispatchCounts(p: Pending, t: Topology, hash: Int32, request: Request,
                                          key: Bytes, env: nat -> TargetEnv, n: nat)
    requires t.Valid() && p.accepted == |p.records|
    ensures var q := Dispatch(p, t, hash, request, key, env, n);
            && q.accepted == |q.records|
            && |q.records| == |p.records| + Successes(t, hash, request, env, n)
            && q.records[..|p.records|] == p.records
  {
    if n > 0 {
      DispatchCounts(p, t, hash, request, key, env, n - 1);
      var q := Dispatch(p, t, hash, request, key, env, n - 1);
      assert Dispatch(p, t, hash, request, key, env, n) ==
             Step(q, t, Target(t, hash, n - 1), request, key, env(n - 1));
    }
  }

  // The decision.

  /**
   * The response after the fan-out: 504 below ack records; otherwise the
   * newest record decides a GET, and PUT and DELETE succeed whatever it holds.
   * None for an unsupported method, for which nothing more is sent.
   */
  function Decide(httpMethod: HttpMethod, records: seq<Option<TimestampRecord>>, ack: int): (r: Option<Response>)
    ensures r == Some(Response(GATEWAY_TIMEOUT, [])) <==> |records| < ack
    ensures |records| >= ack ==>
              match httpMethod
              case GET => r.Some? && (r.value.status == OK || r.value.status == NOT_FOUND)
              case PUT => r == Some(Response(CREATED, []))
              case DELETE => r == Some(Response(ACCEPTED, []))
              case OtherMethod => r.None?
  {
    if |records| < ack then Some(Response(GATEWAY_TIMEOUT, []))
    else
      var latest := Latest(records);
      match httpMethod
      case GET =>
        if latest.None? || latest.value.value.None? then Some(Response(NOT_FOUND, []))
        else Some(Response(OK, latest.value.value.value))
      case PUT => Some(Response(CREATED, []))
      case DELETE => Some(Response(ACCEPTED, []))
      case OtherMethod => None
  }

  /**
   * A GET with enough answers returns 200 with value v exactly when the first
   * of the newest non-null answers holds v; it returns 404 exactly when all
   * answers are null or that record is a tombstone.
   */
  lemma GetDecision(records: seq<Option<TimestampRecord>>, ack: int)
    requires |records| >= ack
    ensures forall v :: Decide(GET, records, ack) == Some(Response(OK, v)) <==>
              exists k :: FirstNewestAt(records, k) && records[k].value.value == Some(v)
    ensures Decide(GET, records, ack) == Some(Response(NOT_FOUND, [])) <==>
              (forall i :: 0 <= i < |records| ==> records[i].None?) ||
              (exists k :: FirstNewestAt(records, k) && records[k].value.value.None?)
  {
    LatestNoneIff(records);
    LatestIsFirstNewest(records);
    forall k | FirstNewestAt(records, k) ensures Latest(records) == records[k] {
      FirstNewestIsLatest(records, k);
    }
  }

  /**
   * A tombstone newer than every other answer hides the key: a delete that
   * out-races a write makes a later read of enough replicas answer 404.
   */
  lemma NewestTombstoneIsNotFound(records: seq<Option<TimestampRecord>>, ack: int, k: nat, now: Int64)
    requires |records| >= ack && k < |records| && records[k] == Some(TimestampRecord(None, now))
    requires forall j :: 0 <= j < |records| && j != k && records[j].Some? ==> records[j].value.timestamp < now
    ensures Decide(GET, records, ack) == Some(Response(NOT_FOUND, []))
  {
    FirstNewestIsLatest(records, k);
  }

  /**
   * A value newer than every other answer is what a read of enough replicas
   * returns: the write that wins by timestamp is the one read back.
   */
  lemma NewestValueIsFound(records: seq<Option<TimestampRecord>>, ack: int, k: nat, v: Bytes, now: Int64)
    requires |records| >= ack && k < |records| && records[k] == Some(TimestampRecord(Some(v), now))
    requires forall j :: 0 <= j < |records| && j != k && records[j].Some? ==> records[j].value.timestamp < now
    ensures Decide(GET, records, ack) == Some(Response(OK, v))
  {
    FirstNewestIsLatest(records, k);
  }

  /** The complete effect of `processDirect`, starting from the coordinator's state p. */
  function ProcessDirectSpec(p: Pending, t: Topology, key: Bytes, hash: Int32, replicas: Option<string>,
                             request: Request, env: nat -> TargetEnv): Pending
    requires t.Valid() && (replicas.Some? ==> WellFormedReplicas(replicas.value))
  {
    var (ack, from) := AckFrom(replicas, |GetAll(t)|);
    if !Acceptable(ack, from) then p.(sent := p.sent + [Response(BAD_REQUEST, [])])
    else
      var q := Dispatch(Pending(p.store, [], 0, p.sent), t, hash, request, key, env, from);
      var decision := Decide(request.httpMethod, q.records, ack);
      q.(sent := q.sent + if decision.Some? then [decision.value] else [])
  }

  /** A refused (ack, from) answers 400 and touches neither a replica nor the records. */
  lemma BadReplicasContactNobody(p: Pending, t: Topology, key: Bytes, hash: Int32, replicas: Option<string>,
                                 request: Request, env: nat -> TargetEnv)
    requires t.Valid() && (replicas.Some? ==> WellFormedReplicas(replicas.value))
    requires !Acceptable(AckFrom(replicas, |GetAll(t)|).0, AckFrom(replicas, |GetAll(t)|).1)
    ensures ProcessDirectSpec(p, t, key, hash, replicas, request, env) == p.(sent := p.sent + [Response(BAD_REQUEST, [])])
  {
  }

  /**
   * For GET, PUT and DELETE, an acceptable request ends in 504 exactly when
   * fewer than ack of the from sub-requests succeed, and a write is
   * acknowledged (201 or 202) exactly when at least ack succeed.
   */
  lemma QuorumDecides(p: Pending, t: Topology, key: Bytes, hash: Int32, replicas: Option<string>,
                      request: Request, env: nat -> TargetEnv)
    requires t.Valid() && (replicas.Some? ==> WellFormedReplicas(replicas.value))
    requires Acceptable(AckFrom(replicas, |GetAll(t)|).0, AckFrom(replicas, |GetAll(t)|).1)
    requires request.httpMethod != OtherMethod
    ensures var (ack, from) := AckFrom(replicas, |GetAll(t)|);
            var q := ProcessDirectSpec(p, t, key, hash, replicas, request, env);
            && |q.records| == q.accepted == Successes(t, hash, request, env, from)
            && |q.sent| > 0
            && (q.sent[|q.sent| - 1] == Response(GATEWAY_TIMEOUT, []) <==>
                  Successes(t, hash, request, env, from) < ack)
            && (request.httpMethod == PUT ==>
                  (q.sent[|q.sent| - 1] == Response(CREATED, []) <==> Successes(t, hash, request, env, from) >= ack))
            && (request.httpMethod == DELETE ==>
                  (q.sent[|q.sent| - 1] == Response(ACCEPTED, []) <==> Successes(t, hash, request, env, from) >= ack))
  {
    var (ack, from) := AckFrom(replicas, |GetAll(t)|);
    DispatchCounts(Pending(p.store, [], 0, p.sent), t, hash, request, key, env, from);
  }

  // Scenarios on a one-node cluster with the default replicas (1/1).

  /** A one-node cluster: this node holds every key. */
  function SingleNode(me: NodeId): (t: Topology)
    ensures t.Valid() && |GetAll(t)| == 1
  {
    assert GetAll(Topology([me], me)) == {me};
    Topology([me], me)
  }

  /** Every sub-request meets a healthy store and the clock reads now. */
  function Healthy(now: Int64): nat -> TargetEnv
  {
    _ => TargetEnv(now, NO_FAULTS, None)
  }

  /** On a one-node cluster with the default replicas, a request is one local step and the decision on ack = 1. */
  lemma SingleNodeRequest(me: NodeId, p: Pending, key: Bytes, hash: Int32, request: Request,
                          env: nat -> TargetEnv)
    ensures var q := LocalStep(Pending(p.store, [], 0, p.sent), request, key, env(0).now, env(0).faults);
            var d := Decide(request.httpMethod, q.records, 1);
            ProcessDirectSpec(p, SingleNode(me), key, hash, None, request, env) ==
              q.(sent := q.sent + if d.Some? then [d.value] else [])
  {
    var t := SingleNode(me);
    var p0 := Pending(p.store, [], 0, p.sent);
    assert AckFrom(None, |GetAll(t)|) == (1, 1);
    assert Target(t, hash, 0) == me;
    assert Dispatch(p0, t, hash, request, key, env, 1) == Step(p0, t, me, request, key, env(0));
  }

  /** A healthy local GET of a key holding a serialised record answers with that record and changes nothing. */
  lemma LocalGetStored(store: Store, key: Bytes, record: TimestampRecord, now: Int64)
    requires key in store && store[key] == Encode(record)
    ensures Local(GET, store, key, None, now, NO_FAULTS) == LocalEffect(store, Some(Some(record)))
  {
    RoundTrip(record);
  }

  /** On one healthy node, a GET answers from the record stored under the key: 200 with its value, or 404 for a tombstone. */
  lemma SingleNodeReadsStored(me: NodeId, p: Pending, key: Bytes, hash: Int32, record: TimestampRecord, now: Int64)
    requires key in p.store && p.store[key] == Encode(record)
    ensures ProcessDirectSpec(p, SingleNode(me), key, hash, None, Request(GET, None), Healthy(now)).sent ==
            p.sent + [if record.value.None? then Response(NOT_FOUND, []) else Response(OK, record.value.value)]
  {
    LocalGetStored(p.store, key, record, now);
    var q := LocalStep(Pending(p.store, [], 0, p.sent), Request(GET, None), key, now, NO_FAULTS);
    assert q == Pending(p.store, [Some(record)], 1, p.sent);
    assert Latest(q.records) == Some(record);
    var answer := if record.value.None? then Response(NOT_FOUND, []) else Response(OK, record.value.value);
    assert Decide(GET, q.records, 1) == Some(answer);
    assert Healthy(now)(0) == TargetEnv(now, NO_FAULTS, None);
    SingleNodeRequest(me, p, key, hash, Request(GET, None), Healthy(now));
  }

  /** Write then read: a GET after a PUT of v answers 200 with v (an empty v included). */
  lemma PutThenGet(me: NodeId, store: Store, key: Bytes, hash: Int32, v: Bytes, t1: Int64, t2: Int64)
    ensures var t := SingleNode(me);
            var put := ProcessDirectSpec(Pending(store, [], 0, []), t, key, hash, None,
                                         Request(PUT, Some(v)), Healthy(t1));
            var get := ProcessDirectSpec(put.(sent := []), t, key, hash, None,
                                         Request(GET, None), Healthy(t2));
            put.sent == [Response(CREATED, [])] && get.sent == [Response(OK, v)]
  {
    var t, record := SingleNode(me), TimestampRecord(Some(v), t1);
    var p0 := Pending(store, [], 0, []);
    SingleNodeRequest(me, p0, key, hash, Request(PUT, Some(v)), Healthy(t1));
    assert Healthy(t1)(0) == TargetEnv(t1, NO_FAULTS, None);
    LocalPut(store, key, Some(v), t1, NO_FAULTS);
    var q := LocalStep(p0, Request(PUT, Some(v)), key, t1, NO_FAULTS);
    assert q == Pending(store[key := Encode(record)], [Some(record)], 1, []);
    var put := ProcessDirectSpec(p0, t, key, hash, None, Request(PUT, Some(v)), Healthy(t1));
    assert put == q.(sent := [Response(CREATED, [])]);
    SingleNodeReadsStored(me, put.(sent := []), key, hash, record, t2);
  }

  /** Delete then read: a GET after a DELETE answers 404, whatever the store held before. */
  lemma DeleteThenGet(me: NodeId, store: Store, key: Bytes, hash: Int32, t1: Int64, t2: Int64)
    ensures var t := SingleNode(me);
            var del := ProcessDirectSpec(Pending(store, [], 0, []), t, key, hash, None,
                                         Request(DELETE, None), Healthy(t1));
            var get := ProcessDirectSpec(del.(sent := []), t, key, hash, None,
                                         Request(GET, None), Healthy(t2));
            del.sent == [Response(ACCEPTED, [])] && get.sent == [Response(NOT_FOUND, [])]
  {
    var t, tombstone := SingleNode(me), TimestampRecord(None, t1);
    var p0 := Pending(store, [], 0, []);
    SingleNodeRequest(me, p0, key, hash, Request(DELETE, None), Healthy(t1));
    assert Healthy(t1)(0) == TargetEnv(t1, NO_FAULTS, None);
    LocalDelete(store, key, t1, NO_FAULTS);
    var q := LocalStep(p0, Request(DELETE, None), key, t1, NO_FAULTS);
    assert q.records == [Some(tombstone)] && q.sent == [];
    assert q.store[key] == Encode(tombstone);
    var del := ProcessDirectSpec(p0, t, key, hash, None, Request(DELETE, None), Healthy(t1));
    assert del == q.(sent := [Response(ACCEPTED, [])]);
    SingleNodeReadsStored(me, del.(sent := []), key, hash, tombstone, t2);
  }

  // The coordinator object.

  class ServerUtils {
    const topology: Topology
    /** The contents of the local DAO. */
    var store: Store
    var records: seq<Option<TimestampRecord>>
    var numberRequestsAccepted: int
    /** The responses written to the client session. */
    var sent: seq<Response>

    /** Every handler appends one record per counted success. */
    ghost predicate Valid()
      reads this
    {
      topology.Valid() && numberRequestsAccepted == |records|
    }

    ghost function State(): Pending
      reads this
    {
      Pending(store, records, numberRequestsAccepted, sent)
    }

    constructor (topology: Topology, store: Store)
      requires topology.Valid()
      ensures Valid() && this.topology == topology
      ensures State() == Pending(store, [], 0, [])
    {
      this.topology := topology;
      this.store := store;
      records := [];
      numberRequestsAccepted := 0;
      sent := [];
    }

    /** `handleLocal`: runs the operation on the local store and counts it, or sends 405. */
    method HandleLocal(request: Request, key: Bytes, now: Int64, faults: StoreFaults)
      requires Valid()
      modifies this
      ensures Valid()
      ensures State() == LocalStep(old(State()), request, key, now, faults)
    {
      var body: Option<Bytes> := None;
      match request.httpMethod {
        case GET =>
          if !faults.getFails && key in store {
            body := Some(store[key]);
          }
          if body.None? {
            records := records + [None];
          } else {
            records := records + [FromByteArray(body)];
          }
        case PUT =>
          var bytes := ToByteArray(TimestampRecord(request.body, now));
          body := Some(bytes[..]);
          if !faults.upsertFails {
            store := store[key := bytes[..]];
          }
          records := records + [FromByteArray(body)];
        case DELETE =>
          if !faults.removeFails {
            store := store - {key};
            var bytes := ToByteArray(TimestampRecord(None, now));
            body := Some(bytes[..]);
            if !faults.upsertFails {
              store := store[key := bytes[..]];
            }
          }
          records := records + [FromByteArray(body)];
        case OtherMethod =>
          sent := sent + [Response(METHOD_NOT_ALLOWED, [])];
          return;
      }
      numberRequestsAccepted := numberRequestsAccepted + 1;
    }

    /** `handleRemote`: counts the peer's reply when its status is a success code. */
    method HandleRemote(reply: Option<Reply>)
      requires Valid()
      modifies this
      ensures Valid()
      ensures State() == RemoteStep(old(State()), reply)
    {
      if reply.Some? && reply.value.status in SUCCESS_CODES {
        records := records + [FromByteArray(reply.value.body)];
        numberRequestsAccepted := numberRequestsAccepted + 1;
      }
    }

    /** `processDirect`: the whole coordination of one request. */
    method ProcessDirect(key: Bytes, keyHash: Int32, replicas: Option<string>, request: Request,
                         env: nat -> TargetEnv)
      requires Valid() && (replicas.Some? ==> WellFormedReplicas(replicas.value))
      modifies this
      ensures Valid()
      ensures State() == ProcessDirectSpec(old(State()), topology, key, keyHash, replicas, request, env)
    {
      var ack, from;
      if replicas.None? {
        var clusterSize := |GetAll(topology)|;
        ack := Quorum(clusterSize);
        from := clusterSize;
      } else {
        var replicasSplitted := Fields(replicas.value);
        ack := ParseInt(replicasSplitted[0]);
        from := ParseInt(replicasSplitted[1]);
      }
      assert (ack, from) == AckFrom(replicas, |GetAll(topology)|);
      if !Acceptable(ack, from) {
        sent := sent + [Response(BAD_REQUEST, [])];
        return;
      }
      records := [];
      numberRequestsAccepted := 0;
      FanOut(key, keyHash, request, env, from);
      Respond(request.httpMethod, ack);
    }

    /** The loop of `processDirect`: the sub-requests to the `from` targets of the ring walk, in order. */
    method FanOut(key: Bytes, keyHash: Int32, request: Request, env: nat -> TargetEnv, from: nat)
      requires Valid()
      modifies this
      ensures Valid()
      ensures State() == Dispatch(old(State()), topology, keyHash, request, key, env, from)
    {
      var fromNode := PrimaryIndex(topology, keyHash);
      ghost var start := State();
      for i := 0 to from
        invariant Valid()
        invariant State() == Dispatch(start, topology, keyHash, request, key, env, i)
      {
        var idxNode := (fromNode + i) % |GetAll(topology)|;
        var nodeName := GetNode(topology, idxNode);
        assert nodeName == Target(topology, keyHash, i);
        ghost var before := State();
        if IsMe(topology, nodeName) {
          HandleLocal(request, key, env(i).now, env(i).faults);
        } else {
          HandleRemote(env(i).reply);
        }
        assert State() == Step(before, topology, nodeName, request, key, env(i));
      }
    }

    /** The end of `processDirect`: 504 below ack records, otherwise the answer the newest record gives. */
    method Respond(httpMethod: HttpMethod, ack: int)
      modifies this
      ensures store == old(store) && records == old(records) &&
              numberRequestsAccepted == old(numberRequestsAccepted)
      ensures var d := Decide(httpMethod, records, ack);
              sent == old(sent) + if d.Some? then [d.value] else []
    {
      if |records| < ack {
        sent := sent + [Response(GATEWAY_TIMEOUT, [])];
        return;
      }
      var latestRecord := LatestOf(records);
      match httpMethod {
        case GET =>
          if latestRecord.None? || latestRecord.value.value.None? {
            sent := sent + [Response(NOT_FOUND, [])];
          } else {
            sent := sent + [Response(OK, latestRecord.value.value.value)];
          }
        case PUT =>
          sent := sent + [Response(CREATED, [])];
        case DELETE =>
          sent := sent + [Response(ACCEPTED, [])];
        case OtherMethod =>
      }
    }
  }
}
