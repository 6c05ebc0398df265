/**
 The weighted consistent-hashing ring of main.go, the `Consistent` type.

 Its state is a map from 32-bit hash to a copy of a `Node` (one entry per
 virtual node), the set of registered node IDs, and the ascending list of the
 map's keys. Each node occupies `numReps * Weight` virtual positions, whose
 keys are the hashes of strings derived from the node and a replica index;
 `Remove` finds them again by recomputing those strings.

 The CRC-32 hash of the source is a parameter (`hash`) of the ring: nothing
 proved here depends on its values.
 */
module ConsistentHashing {
  import opened HashRing
  import opened Decimal

  /** Virtual positions per unit of weight. */
  const DefaultReplicas: int := 160

  /** A physical endpoint; the ring stores copies of it. */
  datatype Node = Node(id: int, ip: string, port: int, hostName: string, weight: int)

  /** The string hashed for replica `i` of `node`: IP*Weight-i-ID. */
  function JoinStr(i: int, node: Node): (s: string)
    ensures |s| == |node.ip| + |Itoa(node.weight)| + |Itoa(i)| + |Itoa(node.id)| + 3
    ensures s[..|node.ip|] == node.ip && s[|node.ip|] == '*'
    ensures s[|s| - |Itoa(node.id)|..] == Itoa(node.id)
  {
    node.ip + "*" + Itoa(node.weight) + "-" + Itoa(i) + "-" + Itoa(node.id)
  }

  lemma Regroup(a: string, b: string, c: string, d: string, x: string, e: string, f: string)
    ensures a + b + c + d + x + e + f == (a + b + c + d) + x + (e + f)
  {
  }

  lemma MiddleEqual(p: string, x: string, y: string, q: string)
    requires p + x + q == p + y + q
    ensures x == y
  {
    assert |x| == |y|;
    assert x == (p + x + q)[|p|..|p| + |x|];
    assert y == (p + y + q)[|p|..|p| + |y|];
  }

  /** Distinct replica indices of one node give distinct strings. */
  lemma JoinStrInjective(i: int, j: int, node: Node)
    requires JoinStr(i, node) == JoinStr(j, node)
    ensures i == j
  {
    var prefix := node.ip + "*" + Itoa(node.weight) + "-";
    var suffix := "-" + Itoa(node.id);
    Regroup(node.ip, "*", Itoa(node.weight), "-", Itoa(i), "-", Itoa(node.id));
    Regroup(node.ip, "*", Itoa(node.weight), "-", Itoa(j), "-", Itoa(node.id));
    MiddleEqual(prefix, Itoa(i), Itoa(j), suffix);
    ItoaInjective(i, j);
  }

  /** The position of replica `i` of `node`: the hash of its key string. */
  function ReplicaHash(hash: string -> uint32, node: Node): int -> uint32 {
    i => hash(JoinStr(i, node))
  }

  /** The positions `key(0)`, ..., `key(count - 1)`, as the replica loops visit them. */
  function Positions(key: int -> uint32, count: int): set<uint32>
    decreases count
  {
    if count <= 0 then {} else Positions(key, count - 1) + {key(count - 1)}
  }

  /** The positions are exactly the values of `key` on the indices below `count`. */
  lemma {:induction false} PositionsMembers(key: int -> uint32, count: int)
    ensures forall i :: 0 <= i < count ==> key(i) in Positions(key, count)
    ensures forall h :: h in Positions(key, count) ==> exists i :: 0 <= i < count && h == key(i)
    decreases count
  {
    if count > 0 {
      PositionsMembers(key, count - 1);
      forall h | h in Positions(key, count)
        ensures exists i :: 0 <= i < count && h == key(i)
      {
        if h !in Positions(key, count - 1) {
          assert h == key(count - 1);
        }
      }
    }
  }

  /** A `for i := 0; i < count; i++` loop has visited exactly the indices below `count`. */
  lemma PositionsDone(key: int -> uint32, i: int, count: int)
    requires 0 <= i && (i <= count || i == 0) && count <= i
    ensures Positions(key, i) == Positions(key, count)
  {
  }

  lemma CardinalityStep(s: set<uint32>, k: uint32)
    ensures |s + {k}| <= |s| + 1
    ensures k !in s ==> |s + {k}| == |s| + 1
  {
  }

  /** Collisions can only shrink a node's share: `count` replicas take at most `count` positions. */
  lemma {:induction false} PositionsCountBound(key: int -> uint32, count: nat)
    ensures |Positions(key, count)| <= count
    decreases count
  {
    if count > 0 {
      PositionsCountBound(key, count - 1);
      CardinalityStep(Positions(key, count - 1), key(count - 1));
    }
  }

  /** Without collisions, `count` replicas take exactly `count` positions. */
  lemma {:induction false} PositionsCountExact(key: int -> uint32, count: nat)
    requires forall i, j :: 0 <= i < j < count ==> key(i) != key(j)
    ensures |Positions(key, count)| == count
    decreases count
  {
    if count > 0 {
      PositionsCountExact(key, count - 1);
      PositionsMembers(key, count - 1);
      CardinalityStep(Positions(key, count - 1), key(count - 1));
    }
  }

  /** The positions `Add` and `Remove` compute for `node`. */
  function VirtualKeys(hash: string -> uint32, numReps: int, node: Node): (keys: set<uint32>)
    ensures |keys| <= if numReps * node.weight <= 0 then 0 else numReps * node.weight
  {
    if numReps * node.weight <= 0 then
      Positions(ReplicaHash(hash, node), numReps * node.weight)
    else
      PositionsCountBound(ReplicaHash(hash, node), numReps * node.weight);
      Positions(ReplicaHash(hash, node), numReps * node.weight)
  }

  /** The positions of `node` are exactly the hashes of its replica strings 0 .. numReps * Weight - 1. */
  lemma VirtualKeysMembers(hash: string -> uint32, numReps: int, node: Node)
    ensures forall i :: 0 <= i < numReps * node.weight ==> hash(JoinStr(i, node)) in VirtualKeys(hash, numReps, node)
    ensures forall h :: h in VirtualKeys(hash, numReps, node) ==>
              exists i :: 0 <= i < numReps * node.weight && h == hash(JoinStr(i, node))
  {
    var key := ReplicaHash(hash, node);
    var count := numReps * node.weight;
    assert VirtualKeys(hash, numReps, node) == Positions(key, count);
    PositionsMembers(key, count);
    forall i | 0 <= i < count ensures hash(JoinStr(i, node)) in Positions(key, count) {
      assert key(i) == hash(JoinStr(i, node));
    }
    forall h | h in Positions(key, count) ensures exists i :: 0 <= i < count && h == hash(JoinStr(i, node)) {
      var i :| 0 <= i < count && h == key(i);
      assert key(i) == hash(JoinStr(i, node));
    }
  }

  /** No two different replica strings of `node` below `count` share a hash. */
  ghost predicate NoCollision(hash: string -> uint32, node: Node, count: int) {
    forall i, j :: 0 <= i < count && 0 <= j < count && JoinStr(i, node) != JoinStr(j, node) ==>
      hash(JoinStr(i, node)) != hash(JoinStr(j, node))
  }

  /**
   When no two different replica strings of a node collide under the hash,
   the node's first `count` replicas take exactly `count` positions.
   */
  lemma ReplicaCountExact(hash: string -> uint32, node: Node, count: nat)
    requires NoCollision(hash, node, count)
    ensures |Positions(ReplicaHash(hash, node), count)| == count
  {
    var key := ReplicaHash(hash, node);
    forall i, j | 0 <= i < j < count ensures key(i) != key(j) {
      if JoinStr(i, node) == JoinStr(j, node) {
        JoinStrInjective(i, j, node);
      }
    }
    PositionsCountExact(key, count);
  }

  /** `m` with every key of `keys` bound to `node`. */
  function Place(m: map<uint32, Node>, keys: set<uint32>, node: Node): map<uint32, Node> {
    m + map h | h in keys :: node
  }

  lemma PlaceStep(m: map<uint32, Node>, keys: set<uint32>, k: uint32, node: Node)
    ensures Place(m, keys, node)[k := node] == Place(m, keys + {k}, node)
  {
  }

  lemma DeleteStep(m: map<uint32, Node>, keys: set<uint32>, k: uint32)
    ensures (m - keys) - {k} == m - (keys + {k})
  {
  }

  // ---------------------------------------------------------------------------
  // The registry (Nodes and Resources) and its transitions

  datatype Registry = Registry(nodes: map<uint32, Node>, resources: set<int>)

  /**
   The registry after `Add(node)`: unchanged for a registered ID; otherwise
   every virtual position of `node` is bound to a copy of it (replacing what
   was there) and its ID is registered.
   */
  function Added(hash: string -> uint32, numReps: int, r: Registry, node: Node): (r': Registry)
    ensures node.id in r.resources ==> r' == r
    ensures node.id in r'.resources
    ensures node.id !in r.resources ==> r'.resources == r.resources + {node.id}
    ensures node.id !in r.resources ==>
              forall i :: 0 <= i < numReps * node.weight ==>
                ReplicaHash(hash, node)(i) in r'.nodes && r'.nodes[ReplicaHash(hash, node)(i)] == node
    ensures node.id !in r.resources ==>
              r'.nodes.Keys == r.nodes.Keys + VirtualKeys(hash, numReps, node)
    ensures forall h :: h in r.nodes && h !in VirtualKeys(hash, numReps, node) ==>
              h in r'.nodes && r'.nodes[h] == r.nodes[h]
  {
    if node.id in r.resources then r
    else
      PositionsMembers(ReplicaHash(hash, node), numReps * node.weight);
      Registry(Place(r.nodes, VirtualKeys(hash, numReps, node), node), r.resources + {node.id})
  }

  /**
   The registry after `Remove(node)`: unchanged for an unregistered ID;
   otherwise the ID is unregistered and exactly the positions recomputed from
   the node passed in (with its weight) are deleted.
   */
  function Removed(hash: string -> uint32, numReps: int, r: Registry, node: Node): (r': Registry)
    ensures node.id !in r.resources ==> r' == r
    ensures node.id !in r'.resources
    ensures node.id in r.resources ==> r'.resources == r.resources - {node.id}
    ensures node.id in r.resources ==>
              r'.nodes.Keys == r.nodes.Keys - VirtualKeys(hash, numReps, node)
    ensures forall h :: h in r'.nodes ==> h in r.nodes && r'.nodes[h] == r.nodes[h]
  {
    if node.id !in r.resources then r
    else Registry(r.nodes - VirtualKeys(hash, numReps, node), r.resources - {node.id})
  }

  /** A second `Remove` of the same node changes nothing. */
  lemma RemoveIdempotent(hash: string -> uint32, numReps: int, r: Registry, node: Node)
    ensures Removed(hash, numReps, Removed(hash, numReps, r, node), node) == Removed(hash, numReps, r, node)
  {
  }

  /**
   `Add` then `Remove` of the same node restores the registry, provided the ID
   was unregistered and none of the node's positions was already taken.
   */
  lemma AddRemoveInverse(hash: string -> uint32, numReps: int, r: Registry, node: Node)
    requires node.id !in r.resources
    requires VirtualKeys(hash, numReps, node) !! r.nodes.Keys
    ensures Removed(hash, numReps, Added(hash, numReps, r, node), node) == r
  {
  }

  // ---------------------------------------------------------------------------
  // The ring object

  /**
   The map's keys appended one at a time to a fresh list, in whatever order the
   map is iterated: every key exactly once.
   */
  method ListKeys(keys: set<uint32>) returns (a: array<uint32>)
    ensures fresh(a)
    ensures multiset(a[..]) == multiset(keys)
  {
    a := new uint32[|keys|];
    var rest := keys;
    var i := 0;
    while rest != {}
      invariant rest <= keys
      invariant i + |rest| == a.Length
      invariant multiset(a[..i]) + multiset(rest) == multiset(keys)
      decreases rest
    {
      var k :| k in rest;
      a[i] := k;
      assert a[..i + 1] == a[..i] + [k];
      assert multiset(rest) == multiset(rest - {k}) + multiset{k};
      rest := rest - {k};
      i := i + 1;
    }
    assert a[..i] == a[..];
  }

  class Consistent {
    var nodes: map<uint32, Node>
    const numReps: int
    var resources: set<int>
    var ring: seq<uint32>
    /** `hashStr`: CRC-32 (IEEE) of the key's bytes in the source. */
    const hash: string -> uint32

    /** The sorted list is always the ring of the map's keys. */
    ghost predicate Valid()
      reads this
    {
      IsRingOf(ring, nodes.Keys)
    }

    function State(): Registry
      reads this
    {
      Registry(nodes, resources)
    }

    /** `NewConsistent`. */
    constructor (hash: string -> uint32)
      ensures Valid()
      ensures nodes == map[] && resources == {} && ring == []
      ensures numReps == DefaultReplicas && this.hash == hash
    {
      nodes := map[];
      numReps := DefaultReplicas;
      resources := {};
      ring := [];
      this.hash := hash;
    }

    /**
     Registers `node` unless its ID is already registered; returns whether it
     did. On success the sorted list is rebuilt.
     */
    method Add(node: Node) returns (added: bool)
      requires Valid()
      modifies this
      ensures Valid()
      ensures added <==> node.id !in old(resources)
      ensures State() == Added(hash, numReps, old(State()), node)
      ensures !added ==> ring == old(ring)
    {
      if node.id in resources {
        return false;
      }
      ghost var before := nodes;
      ghost var key := ReplicaHash(hash, node);
      var count := numReps * node.weight;
      var i := 0;
      while i < count
        invariant 0 <= i && (i <= count || i == 0)
        invariant nodes == Place(before, Positions(key, i), node)
        invariant resources == old(resources)
      {
        PlaceStep(before, Positions(key, i), key(i), node);
        nodes := nodes[hash(JoinStr(i, node)) := node];
        i := i + 1;
      }
      PositionsDone(key, i, count);
      resources := resources + {node.id};
      SortHashRing();
      return true;
    }

    /** Rebuilds the sorted list from the map's keys. */
    method SortHashRing()
      modifies this
      ensures Valid()
      ensures nodes == old(nodes) && resources == old(resources)
    {
      var keys := nodes.Keys;
      var a := ListKeys(keys);
      SortAscending(a);
      ring := a[..];
      SortedListingIsRing(ring, keys);
    }

    /**
     The ring position that owns hash `h`, by the rule of main.go; -1 on an
     empty ring.
     */
    method Search(h: uint32) returns (i: int)
      requires Valid()
      ensures i == SearchIndex(ring, h)
    {
      i := LowerBound(ring, h);
      if i < |ring| {
        if i == |ring| - 1 {
          return 0;
        } else {
          return i;
        }
      } else {
        return |ring| - 1;
      }
    }

    /** The node owning `key`. The source panics on an empty ring. */
    method Get(key: string) returns (n: Node)
      requires Valid()
      requires |ring| > 0
      ensures ring[SearchIndex(ring, hash(key))] in nodes
      ensures n == nodes[ring[SearchIndex(ring, hash(key))]]
      ensures n in nodes.Values
    {
      var h := hash(key);
      var i := Search(h);
      assert ring[i] in Elements(ring);
      n := nodes[ring[i]];
    }

    /**
     Unregisters `node` and deletes the positions recomputed from it; a node
     whose ID is not registered is ignored.
     */
    method Remove(node: Node)
      requires Valid()
      modifies this
      ensures Valid()
      ensures State() == Removed(hash, numReps, old(State()), node)
      ensures node.id !in old(resources) ==> ring == old(ring)
    {
      if node.id !in resources {
        return;
      }
      resources := resources - {node.id};
      var count := numReps * node.weight;
      var i := 0;
      while i < count
        invariant 0 <= i && (i <= count || i == 0)
        invariant nodes == old(nodes) - Positions(ReplicaHash(hash, node), i)
        invariant resources == old(resources) - {node.id}
      {
        DeleteStep(old(nodes), Positions(ReplicaHash(hash, node), i), hash(JoinStr(i, node)));
        nodes := nodes - {hash(JoinStr(i, node))};
        i := i + 1;
      }
      PositionsDone(ReplicaHash(hash, node), i, count);
      assert nodes == old(nodes) - VirtualKeys(hash, numReps, node);
      SortHashRing();
    }
  }

  // ---------------------------------------------------------------------------
  // Properties of whole call sequences

  /** `Add(n); Remove(n)` restores the map, the registry and the sorted list. */
  method AddThenRemove(c: Consistent, node: Node)
    requires c.Valid()
    requires node.id !in c.resources
    requires VirtualKeys(c.hash, c.numReps, node) !! c.nodes.Keys
    modifies c
    ensures c.Valid()
    ensures c.nodes == old(c.nodes) && c.resources == old(c.resources) && c.ring == old(c.ring)
  {
    ghost var before := c.State();
    ghost var ringBefore := c.ring;
    var added := c.Add(node);
    c.Remove(node);
    AddRemoveInverse(c.hash, c.numReps, before, node);
    RingUnique(c.ring, ringBefore, c.nodes.Keys);
  }

  /** On a ring holding one node of positive weight, every key maps to it. */
  method OneNodeOwnsEveryKey(hash: string -> uint32, node: Node, key: string) returns (owner: Node)
    requires node.weight >= 1
    ensures owner == node
  {
    var c := new Consistent(hash);
    var added := c.Add(node);
    assert ReplicaHash(hash, node)(0) in c.nodes;
    assert c.ring != [] by {
      NoElementsIsEmpty(c.ring);
    }
    owner := c.Get(key);
  }
}
