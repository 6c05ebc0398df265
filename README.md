# Weighted consistent-hashing ring

A Dafny model of the `Consistent` type of `main.go`. The type maps string keys
onto a changing set of weighted nodes.

- Each node (`Node`: ID, IP, port, host name, weight) occupies
  `numReps * Weight` virtual positions on a 32-bit hash ring. `numReps` is
  `DEFAULT_REPLICAS`, 160.
- A position is the hash of the string `IP*Weight-i-ID`, where `i` is the
  replica index (`joinStr`).
- `Nodes` maps each position to a copy of its node. `Resources` holds the
  registered IDs. `ring` is the ascending list of the positions.
- `Add` rejects an ID that is already registered. Otherwise it binds all the
  node's positions, overwriting any entry already there. It then registers the
  ID and rebuilds the sorted list (`sortHashRing`).
- `Remove` ignores an unregistered ID. Otherwise it recomputes the positions
  from the node it is given, deletes them, unregisters the ID and rebuilds the
  list.
- `Get` hashes the key, finds the lower bound of the hash in the list
  (`sort.Search`), maps that to a ring index with the rule of `search`, and
  returns the node stored at that position.

Files:

- `decimal.dfy` (module `Decimal`): the decimal rendering of integers used in
  the replica strings (`strconv.Itoa`), with a parser and a round-trip proof.
- `hash_ring.dfy` (module `HashRing`): `uint32`, the ordering of `HashRing`,
  `Swap`, an in-place sort, the lower-bound search, the index rule of
  `search`, and the clockwise-successor rule it departs from.
- `consistent.dfy` (module `ConsistentHashing`): `Node`, `joinStr`, the
  virtual positions, the pure registry transitions `Added` and `Removed`, the
  class `Consistent` with `Add`, `Remove`, `SortHashRing`, `Search` and
  `Get`, and two client methods.

The class keeps one invariant, `Valid()`. It says that `ring` is strictly
increasing and that its elements are exactly the keys of `nodes`.
`HashRing.RingUnique` shows that this fixes `ring` once `nodes` is known.
`Add` and `Remove` each state their new `(nodes, resources)` as `Added` or
`Removed` of the old value. The lemmas about the two transitions therefore
describe the class as well.

The hash function (`hashStr`, CRC-32 in the source) is a parameter of the
class's constructor, `hash: string -> uint32`. No proof depends on its values.

Behaviour of the code that the model keeps:

- The ID and the weight may be any integer. A weight of zero or less gives a
  node no positions.
- A registered ID and the presence of its positions can diverge. A colliding
  position is taken over by a later node, and `Remove` with another weight
  than the one added leaves stale entries. The model makes no claim that ties
  the two together.
- `Get` on an empty ring indexes `ring[-1]`, which panics in Go. The model
  makes a non-empty ring a precondition of `Get`.

## Model

| member | source | states |
|---|---|---|
| `Decimal.NatToDecimal` | main.go:101-103 | the rendering of a natural is a non-empty string of digits, is "0" exactly for 0, and has no leading zero |
| `Decimal.Itoa` | main.go:101-103 | the rendering is non-empty and starts with '-' exactly for negative numbers |
| `Decimal.DecimalRoundTrip` | main.go:101-103 | reading back the digits of a natural gives the natural |
| `Decimal.NatToDecimalInjective` | main.go:101-103 | two naturals with the same digit string are equal |
| `Decimal.ItoaInjective` | main.go:101-103 | two integers with the same rendering are equal |
| `ConsistentHashing.JoinStr` | main.go:100-104 | the key string of replica i is IP*Weight-i-ID with the numbers rendered by Itoa: it starts with the IP followed by '*', ends with the rendered ID, and is as long as its four parts (IP, weight, index, ID) and three separators together |
| `ConsistentHashing.ReplicaHash` | main.go:82-83 | the position of replica i: the hash of its key string (a definition; its content is stated by `VirtualKeysMembers`) |
| `ConsistentHashing.VirtualKeys` | main.go:80-84 | the set of positions that the replica loops of Add and Remove visit, at most numReps*Weight of them and none for a weight of zero or less |
| `ConsistentHashing.VirtualKeysMembers` | main.go:150-155 | a hash is one of the node's positions exactly when it is the hash of joinStr(i, node) for some 0 <= i < numReps*Weight |
| `ConsistentHashing.JoinStrInjective` | main.go:100-104 | for one node, two replica indices that give the same key string are equal |
| `ConsistentHashing.PositionsMembers` | main.go:80-84 | the positions visited by the replica loop are exactly the values of the position function on the indices in [0, count) |
| `ConsistentHashing.PositionsCountBound` | main.go:80-84 | count replicas take at most count positions (collisions only merge them) |
| `ConsistentHashing.PositionsCountExact` | main.go:80-84 | count replicas with pairwise different positions take exactly count positions |
| `ConsistentHashing.ReplicaCountExact` | main.go:80-84 | if no two different key strings of the node share a hash, its first count replicas take exactly count positions |
| `ConsistentHashing.Added` | main.go:76-87 | a registered ID leaves the registry unchanged; otherwise the ID is registered, every hash of replica i < numReps*Weight maps to the node, colliding entries are overwritten, the key set grows by exactly the node's positions, and every other entry is unchanged |
| `ConsistentHashing.Removed` | main.go:145-156 | an unregistered ID leaves the registry unchanged; otherwise the ID is unregistered, exactly the positions recomputed from the given node (with its weight) leave the key set, and every remaining entry keeps its node |
| `ConsistentHashing.RemoveIdempotent` | main.go:145-147 | removing a node twice has the same effect as removing it once |
| `ConsistentHashing.AddRemoveInverse` | main.go:80-156 | when the ID is unregistered and none of the node's positions is taken, adding then removing the node restores the registry |
| `ConsistentHashing.ListKeys` | main.go:92-95 | the list built from the map's keys holds every key exactly once |
| `ConsistentHashing.Consistent.constructor` | main.go:61-68 | a new ring is empty, has 160 replicas per unit of weight, and satisfies the invariant |
| `ConsistentHashing.Consistent.Add` | main.go:71-88 | returns true exactly when the ID was unregistered; the new map and registry are `Added` of the old ones; a rejected Add leaves the sorted list unchanged; the invariant is kept |
| `ConsistentHashing.Consistent.SortHashRing` | main.go:91-97 | the list becomes strictly ascending with exactly the map's keys; the map and the registry are unchanged |
| `ConsistentHashing.Consistent.Remove` | main.go:141-157 | the new map and registry are `Removed` of the old ones; the sorted list is unchanged for an unknown ID; the invariant is kept |
| `ConsistentHashing.Consistent.Search` | main.go:122-138 | returns the index of the as-written rule `SearchIndex` applied to the current list |
| `ConsistentHashing.Consistent.Get` | main.go:112-120 | on a non-empty ring, returns the node stored at list position `SearchIndex(ring, hash(key))`, which is a key of the map |
| `ConsistentHashing.AddThenRemove` | main.go:71-157 | calling Add then Remove with the same node, under the same conditions as `AddRemoveInverse`, restores the map, the registry and the sorted list |
| `ConsistentHashing.OneNodeOwnsEveryKey` | main.go:112-120 | on a new ring holding one node of positive weight, Get returns that node for every key |
| `HashRing.Swap` | main.go:26-29 | exchanges two positions, leaves the others unchanged and keeps the multiset of entries |
| `HashRing.SortAscending` | main.go:16-29 | sorting with Less and Swap leaves the list ascending and a permutation of its input |
| `HashRing.SortedListingIsRing` | main.go:91-97 | an ascending list that holds every key of a set exactly once is strictly increasing and has exactly the set's elements |
| `HashRing.RingUnique` | main.go:91-97 | two strictly increasing lists with the same elements are equal, so the sorted list depends only on the map's keys |
| `HashRing.FirstAtLeast` | main.go:124 | the lower bound is at most the length; every entry before it is below the hash, and the entry at it, if any, is at least the hash |
| `HashRing.LowerBound` | main.go:124 | the binary search of `sort.Search` over a sorted list returns the smallest index whose entry is at least the hash, or the length if there is none |
| `HashRing.SearchIndex` | main.go:122-138 | the index is -1 exactly on an empty list and otherwise lies in [0, len) |
| `HashRing.SuccessorIndex` | main.go:129-137 | the corrected rule: the index of the smallest entry at or above the hash, or of the smallest entry when every entry is below the hash |
| `HashRing.SearchIndexVersusSuccessor` | main.go:129-137 | search agrees with the successor for hashes up to the second-to-last entry. A hash above that and at most the last entry goes to index 0 instead of len-1. A hash above every entry goes to len-1 instead of 0 |
| `HashRing.SearchIndexMisroutes` | main.go:129-137 | on the list [10, 20], hash 15 goes to index 0 where the successor is 1, and hash 25 goes to index 1 where the successor is 0 |

## Findings

| source | as written | input that shows it | evidently intended | confidence | as-written member | corrected member |
|---|---|---|---|---|---|---|
| main.go:129-137 | a lower bound equal to the last index is sent to index 0, and "no entry at or above the hash" is sent to the last index | list [10, 20]: hash 15 is routed to 10 instead of 20, and hash 25 is routed to 20 instead of wrapping to 10 | the clockwise successor: the lower bound when it exists, else index 0 | not executed; medium (the routing is still deterministic, but the last two arcs of the ring swap owners) | `HashRing.SearchIndexMisroutes` | `HashRing.SuccessorIndex` |

`Get` and `Search` keep the as-written rule so that the model routes keys as
the program does. `HashRing.SearchIndexVersusSuccessor` states exactly where
the two rules differ.

## Left out

- The `sync.RWMutex` and its `Lock`/`RLock` calls are not modelled. Each
  operation is atomic in the model.
- The `main` driver is not modelled. It seeds sample nodes, prints hashes and
  counts keys per IP, which is only I/O and reporting.
- The CRC-32 (IEEE) checksum behind `hashStr` is not modelled. The hash is an
  arbitrary deterministic `string -> uint32` given to the constructor. Go
  hashes the UTF-8 bytes of the string; the model never looks inside the hash.
- The statistical properties are not modelled: load in proportion to weight,
  and the bounded share of keys that move when a node joins. They depend on the
  distribution of CRC-32 values.
- `NewNode` is not modelled; it only builds the record. `Port` and `HostName`
  are carried in `Node` and are never read.
- Go's `sort.Sort` algorithm is not modelled. `HashRing.SortAscending` is an
  insertion sort over `Less` and `Swap` with the same contract.
- The order of Go's map iteration is not modelled. `ListKeys` picks the keys in
  an arbitrary order, and the sorted result does not depend on it.
- `ConsistentHashing.Consistent.Add` does not model the wrap-around of Go's
  64-bit `int` in `numReps * Weight`. Integers are unbounded here.
- `ConsistentHashing.Consistent.Remove` does not model that wrap-around either.
- `ConsistentHashing.Consistent.Get` requires a non-empty ring. On an empty
  ring the source indexes `ring[-1]` and panics.
- The model does not capture the aliasing of the `ring` slice.
  `SortHashRing` sorts a fresh array and stores its contents as a sequence.
- A Go map lookup of a missing key yields a zero `Node`. `Get` never reaches
  this case, because the invariant puts every list entry in the map.
