/**
 * Topology: the fixed list of node identifiers of the cluster and the
 * identity of this node. A key is placed on the node at index
 * `(hash & Integer.MAX_VALUE) % size` of the list, where `hash` is the key
 * buffer's hashCode. The list is copied from a set, so it holds no
 * duplicates, and this node is one of its elements.
 */
module Topologies {
  import opened JavaTypes

  type NodeId = string

  /** No element occurs twice. */
  predicate Distinct<T(==)>(s: seq<T>)
  {
    forall i, j :: 0 <= i < j < |s| ==> s[i] != s[j]
  }

  /** A list without duplicates has as many elements as the set of its elements. */
  lemma {:induction false} DistinctCardinality<T>(s: seq<T>)
    requires Distinct(s)
    ensures |set x | x in s| == |s|
  {
    if |s| > 0 {
      var n := |s| - 1;
      var prefix := s[..n];
      assert Distinct(prefix);
      DistinctCardinality(prefix);
      assert (set x | x in s) == (set x | x in prefix) + {s[n]};
      assert s[n] !in prefix;
    }
  }

  datatype Topology = Topology(nodes: seq<NodeId>, me: NodeId)
  {
    /** What the constructor establishes: a duplicate-free list that contains this node. */
    ghost predicate Valid()
    {
      me in nodes && Distinct(nodes)
    }
  }

  /**
   * `new Topology(nodes, me)`. The list is `new ArrayList<>(nodes)`, whose
   * order is the set's iteration order; that order is passed in.
   */
  function NewTopology(nodeSet: set<NodeId>, order: seq<NodeId>, me: NodeId): (t: Topology)
    requires me in nodeSet
    requires Distinct(order) && forall n :: n in order <==> n in nodeSet
    ensures t.Valid() && t.me == me
    ensures |t.nodes| == |nodeSet| > 0
  {
    DistinctCardinality(order);
    assert (set x | x in order) == nodeSet;
    Topology(order, me)
  }

  /** `hash & Integer.MAX_VALUE`: clears the sign bit. */
  function MaskSign(hash: Int32): (r: int)
    ensures 0 <= r <= INT_MAX
    ensures hash >= 0 ==> r == hash
    ensures hash < 0 ==> r == hash + 0x8000_0000
  {
    hash % 0x8000_0000
  }

  /** The index of the primary node of a key whose hashCode is `hash`. */
  function PrimaryIndex(t: Topology, hash: Int32): (i: nat)
    requires |t.nodes| > 0
    ensures i < |t.nodes|
  {
    MaskSign(hash) % |t.nodes|
  }

  /** The node at a position of the list. */
  function GetNode(t: Topology, i: nat): (n: NodeId)
    requires i < |t.nodes|
    ensures n in t.nodes
  {
    t.nodes[i]
  }

  /**
   * `primaryFor(key)`: the node the key is placed on. It depends on the key
   * only through its hashCode, so equal keys land on the same node.
   */
  function PrimaryFor(t: Topology, hash: Int32): (n: NodeId)
    requires |t.nodes| > 0
    ensures n in t.nodes
    ensures n == t.nodes[PrimaryIndex(t, hash)]
  {
    GetNode(t, PrimaryIndex(t, hash))
  }

  /** `getAll()`: a new set holding exactly the listed nodes. */
  function GetAll(t: Topology): (all: set<NodeId>)
    ensures forall n :: n in all <==> n in t.nodes
    ensures Distinct(t.nodes) ==> |all| == |t.nodes|
  {
    if Distinct(t.nodes) then DistinctCardinality(t.nodes); set n | n in t.nodes
    else set n | n in t.nodes
  }

  /** `isMe(node)`. */
  function IsMe(t: Topology, node: NodeId): (r: bool)
    ensures r <==> node == t.me
  {
    t.me == node
  }

  /** In a valid topology exactly one position of the list is this node. */
  lemma MeAtExactlyOnePosition(t: Topology)
    requires t.Valid()
    ensures exists i :: 0 <= i < |t.nodes| && IsMe(t, t.nodes[i])
    ensures forall i, j :: (0 <= i < |t.nodes| && 0 <= j < |t.nodes| &&
              IsMe(t, t.nodes[i]) && IsMe(t, t.nodes[j])) ==> i == j
  {
    var i :| 0 <= i < |t.nodes| && t.nodes[i] == t.me;
    assert IsMe(t, t.nodes[i]);
  }
}
