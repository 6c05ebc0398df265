/**
 The sorted ring of 32-bit virtual-node positions (`HashRing` in main.go):
 its ordering (`Less` is `<` on the hash values), the in-place sort built on
 `Swap`, the lower-bound binary search of `sort.Search`, and the index rule of
 `search` that turns a lower bound into the ring position owning a key.
 */
module HashRing {

  /** Go's `uint32`. */
  newtype uint32 = x: int | 0 <= x < 0x1_0000_0000

  predicate Sorted(s: seq<uint32>) {
    forall p, q :: 0 <= p < q < |s| ==> s[p] <= s[q]
  }

  predicate StrictlyIncreasing(s: seq<uint32>) {
    forall p, q :: 0 <= p < q < |s| ==> s[p] < s[q]
  }

  function Elements(s: seq<uint32>): set<uint32> {
    set x | x in s
  }

  /** `ring` is the ascending listing of the key set `keys`, each key once. */
  predicate IsRingOf(ring: seq<uint32>, keys: set<uint32>) {
    StrictlyIncreasing(ring) && Elements(ring) == keys
  }

  // ---------------------------------------------------------------------------
  // The ring determined by a key set

  lemma RingHead(ring: seq<uint32>, keys: set<uint32>)
    requires IsRingOf(ring, keys)
    requires ring != []
    ensures ring[0] in keys
    ensures forall x :: x in keys ==> ring[0] <= x
    ensures IsRingOf(ring[1..], keys - {ring[0]})
  {
  }

  lemma NoElementsIsEmpty(s: seq<uint32>)
    ensures Elements(s) == {} ==> s == []
  {
    if s != [] {
      assert s[0] in Elements(s);
    }
  }

  /** A repeated entry occurs at least twice in the multiset of the sequence. */
  lemma RepeatCountsTwice(s: seq<uint32>, p: int, q: int)
    requires 0 <= p < q < |s|
    requires s[p] == s[q]
    ensures multiset(s)[s[p]] >= 2
  {
    var x := s[p];
    assert s == s[..q] + s[q..];
    assert multiset(s) == multiset(s[..q]) + multiset(s[q..]);
    assert s[..q][p] == x;
    assert s[q..][0] == x;
  }

  /** A key set has exactly one ring: sorting is deterministic. */
  lemma {:induction false} RingUnique(a: seq<uint32>, b: seq<uint32>, keys: set<uint32>)
    requires IsRingOf(a, keys) && IsRingOf(b, keys)
    ensures a == b
    decreases |a|
  {
    if a == [] {
      NoElementsIsEmpty(b);
    } else {
      assert a[0] in Elements(a);
      assert b != [];
      RingHead(a, keys);
      RingHead(b, keys);
      assert a[0] == b[0];
      RingUnique(a[1..], b[1..], keys - {a[0]});
      assert a == [a[0]] + a[1..];
      assert b == [b[0]] + b[1..];
    }
  }

  /**
   A sorted listing of a set, each element listed once (the map's keys appended
   one by one, then sorted), is the set's ring: sorted and free of repeats means
   strictly increasing.
   */
  lemma SortedListingIsRing(s: seq<uint32>, keys: set<uint32>)
    requires Sorted(s)
    requires multiset(s) == multiset(keys)
    ensures IsRingOf(s, keys)
  {
    forall x ensures x in Elements(s) <==> x in keys {
      assert x in s <==> x in multiset(s);
    }
    forall p, q | 0 <= p < q < |s| ensures s[p] != s[q] {
      if s[p] == s[q] {
        RepeatCountsTwice(s, p, q);
      }
    }
  }

  // ---------------------------------------------------------------------------
  // sort.Sort over HashRing's Len, Less and Swap

  /** `HashRing.Swap`: exchange two positions of the ring. */
  method Swap(a: array<uint32>, i: int, j: int)
    requires 0 <= i < a.Length && 0 <= j < a.Length
    modifies a
    ensures a[i] == old(a[j]) && a[j] == old(a[i])
    ensures forall m :: 0 <= m < a.Length && m != i && m != j ==> a[m] == old(a[m])
    ensures multiset(a[..]) == multiset(old(a[..]))
  {
    a[i], a[j] := a[j], a[i];
  }

  /**
   Sorts the ring in place, ascending by `Less`, using only `Swap`. Any
   correct sort satisfies this contract; this one is an insertion sort.
   */
  method SortAscending(a: array<uint32>)
    modifies a
    ensures Sorted(a[..])
    ensures multiset(a[..]) == multiset(old(a[..]))
  {
    var i := 0;
    while i < a.Length
      invariant 0 <= i <= a.Length
      invariant forall p, q :: 0 <= p < q < i ==> a[p] <= a[q]
      invariant multiset(a[..]) == multiset(old(a[..]))
    {
      var j := i;
      while 0 < j && a[j] < a[j - 1]
        invariant 0 <= j <= i
        invariant forall p, q :: 0 <= p < q <= i && p != j && q != j ==> a[p] <= a[q]
        invariant forall q :: j < q <= i ==> a[j] <= a[q]
        invariant multiset(a[..]) == multiset(old(a[..]))
      {
        Swap(a, j - 1, j);
        j := j - 1;
      }
      i := i + 1;
    }
  }

  // ---------------------------------------------------------------------------
  // Lookup

  /**
   The lower bound of `h` in `s`: the first index whose entry is at least `h`,
   or `|s|` when there is none.
   */
  function FirstAtLeast(s: seq<uint32>, h: uint32): (i: nat)
    ensures i <= |s|
    ensures forall j :: 0 <= j < i ==> s[j] < h
    ensures i < |s| ==> h <= s[i]
  {
    if s == [] || h <= s[0] then 0 else 1 + FirstAtLeast(s[1..], h)
  }

  /**
   `sort.Search(len(ring), func(i) { ring[i] >= h })`: a binary search for the
   lower bound, relying on the predicate being monotone (the ring is sorted).
   */
  method LowerBound(ring: seq<uint32>, h: uint32) returns (i: nat)
    requires Sorted(ring)
    ensures i <= |ring|
    ensures forall j :: 0 <= j < i ==> ring[j] < h
    ensures forall j :: i <= j < |ring| ==> h <= ring[j]
    ensures i == FirstAtLeast(ring, h)
  {
    var lo, hi := 0, |ring|;
    while lo < hi
      invariant 0 <= lo <= hi <= |ring|
      invariant forall j :: 0 <= j < lo ==> ring[j] < h
      invariant forall j :: hi <= j < |ring| ==> h <= ring[j]
    {
      var mid := (lo + hi) / 2;
      if ring[mid] < h {
        lo := mid + 1;
      } else {
        hi := mid;
      }
    }
    i := lo;
    ghost var f := FirstAtLeast(ring, h);
    assert i < |ring| ==> h <= ring[i];
  }

  /**
   The index `search` returns, exactly as main.go computes it from the lower
   bound: the last index is sent to 0, "no entry is >= h" is sent to the last
   index, and on an empty ring the result is -1.
   */
  function SearchIndex(ring: seq<uint32>, h: uint32): (r: int)
    ensures |ring| == 0 <==> r == -1
    ensures |ring| > 0 ==> 0 <= r < |ring|
  {
    var lb := FirstAtLeast(ring, h);
    if lb < |ring| then
      if lb == |ring| - 1 then 0 else lb
    else
      |ring| - 1
  }

  /**
   The clockwise successor: the smallest ring entry at or above `h`, wrapping
   to the start of the ring when every entry lies below `h`.
   */
  function SuccessorIndex(ring: seq<uint32>, h: uint32): (r: nat)
    requires Sorted(ring)
    requires |ring| > 0
    ensures r < |ring|
    ensures (exists j :: 0 <= j < |ring| && h <= ring[j]) ==>
              h <= ring[r] && forall j :: 0 <= j < |ring| && h <= ring[j] ==> ring[r] <= ring[j]
    ensures (forall j :: 0 <= j < |ring| ==> ring[j] < h) ==>
              r == 0 && forall j :: 0 <= j < |ring| ==> ring[r] <= ring[j]
  {
    var lb := FirstAtLeast(ring, h);
    if lb < |ring| then lb else 0
  }

  /**
   Where `search` and the clockwise successor agree and where they differ: they
   agree for every hash up to the second-to-last entry, and for hashes above it
   they are exchanged, the last entry's keys going to the first entry and the
   keys past the last entry going to the last one.
   */
  lemma SearchIndexVersusSuccessor(ring: seq<uint32>, h: uint32)
    requires Sorted(ring)
    requires |ring| > 0
    ensures |ring| == 1 ==> SearchIndex(ring, h) == SuccessorIndex(ring, h) == 0
    ensures |ring| >= 2 && h <= ring[|ring| - 2] ==>
              SearchIndex(ring, h) == SuccessorIndex(ring, h)
    ensures |ring| >= 2 && ring[|ring| - 2] < h <= ring[|ring| - 1] ==>
              SearchIndex(ring, h) == 0 && SuccessorIndex(ring, h) == |ring| - 1
    ensures ring[|ring| - 1] < h ==>
              SearchIndex(ring, h) == |ring| - 1 && SuccessorIndex(ring, h) == 0
  {
  }

  /** Concrete inputs on which `search` does not pick the clockwise successor. */
  lemma SearchIndexMisroutes()
    ensures SearchIndex([10, 20], 15) == 0 && SuccessorIndex([10, 20], 15) == 1
    ensures SearchIndex([10, 20], 25) == 1 && SuccessorIndex([10, 20], 25) == 0
  {
  }
}
