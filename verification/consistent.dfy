/** The consistent-hashing ring: a placement table from 32-bit positions to
    member names, each member occupying `replicas` virtual positions, plus
    the ordered index of occupied positions that lookups search. */
module Consistent {
  import opened Types
  import opened SortedIndex

  /** Virtual nodes per member in a new ring. */
  const DefaultReplicas: nat := 20

  /** The ring state: `circle` is the placement table, `sorted` the ordered
      index rebuilt after every mutation. */
  datatype Ring = Ring(replicas: nat, circle: map<uint32, string>, sorted: seq<uint32>)

  /** The index lists exactly the occupied positions, ascending, one each. */
  predicate Valid(r: Ring) {
    && StrictlyIncreasing(r.sorted)
    && Lists(r.sorted, r.circle.Keys)
    && |r.sorted| == |r.circle|
  }

  /** Every occupied position is one of its owner's replica positions. */
  ghost predicate WellPlaced(h: Hasher, r: Ring) {
    forall p :: p in r.circle ==> p in Positions(h, r.replicas, r.circle[p])
  }

  /** The current members: the names owning at least one position. */
  function Members(r: Ring): set<string> {
    r.circle.Values
  }

  /** The position of virtual node `i` of member `m`. */
  function ReplicaPos(h: Hasher, i: nat, m: string): uint32 {
    h.hash(h.replicaKey(i, m))
  }

  /** The positions of virtual nodes lo..hi-1 of member `m`. */
  function ReplicaRange(h: Hasher, m: string, lo: nat, hi: nat): set<uint32> {
    set i: nat | lo <= i < hi :: ReplicaPos(h, i, m)
  }

  /** All positions a member with `replicas` virtual nodes occupies. */
  function Positions(h: Hasher, replicas: nat, m: string): set<uint32> {
    ReplicaRange(h, m, 0, replicas)
  }

  lemma ReplicaRangeSplit(h: Hasher, m: string, lo: nat, hi: nat)
    requires lo < hi
    ensures ReplicaRange(h, m, lo, hi) == {ReplicaPos(h, lo, m)} + ReplicaRange(h, m, lo + 1, hi)
  {
  }

  /** A new ring: empty, with the default replica count. */
  function New(): (r: Ring)
    ensures Valid(r)
    ensures r.replicas == 20
    ensures |r.circle| == 0 && |r.sorted| == 0
  {
    Ring(DefaultReplicas, map[], [])
  }

  /** The loop of Add: for i in lo..hi-1, circle[hash(replicaKey(i, m))] := m. */
  function PlaceReplicas(h: Hasher, c: map<uint32, string>, m: string, lo: nat, hi: nat): (c': map<uint32, string>)
    requires lo <= hi
    ensures c'.Keys == c.Keys + ReplicaRange(h, m, lo, hi)
    ensures forall p :: p in ReplicaRange(h, m, lo, hi) ==> c'[p] == m
    ensures forall p :: p in c && p !in ReplicaRange(h, m, lo, hi) ==> c'[p] == c[p]
    decreases hi - lo
  {
    if lo == hi then c
    else
      ReplicaRangeSplit(h, m, lo, hi);
      PlaceReplicas(h, c[ReplicaPos(h, lo, m) := m], m, lo + 1, hi)
  }

  /** The loop of Remove: for i in lo..hi-1, delete(circle, hash(replicaKey(i, m))). */
  function ClearReplicas(h: Hasher, c: map<uint32, string>, m: string, lo: nat, hi: nat): (c': map<uint32, string>)
    requires lo <= hi
    ensures c'.Keys == c.Keys - ReplicaRange(h, m, lo, hi)
    ensures forall p :: p in c' ==> c'[p] == c[p]
    decreases hi - lo
  {
    if lo == hi then c
    else
      ReplicaRangeSplit(h, m, lo, hi);
      ClearReplicas(h, c - {ReplicaPos(h, lo, m)}, m, lo + 1, hi)
  }

  /** Add a member: claim each of its replica positions (overwriting any
      earlier owner on a collision), then rebuild the index. */
  function Add(h: Hasher, r: Ring, m: string): (r': Ring)
    ensures Valid(r')
    ensures r'.replicas == r.replicas
    ensures r'.circle.Keys == r.circle.Keys + Positions(h, r.replicas, m)
  {
    var c := PlaceReplicas(h, r.circle, m, 0, r.replicas);
    Ring(r.replicas, c, SortedOf(c.Keys))
  }

  /** The owners after Add: `m` on each of its replica positions, the
      previous owner everywhere else. */
  lemma AddOwners(h: Hasher, r: Ring, m: string)
    ensures forall p :: p in Positions(h, r.replicas, m) ==> Add(h, r, m).circle[p] == m
    ensures forall p :: p in r.circle && p !in Positions(h, r.replicas, m) ==> Add(h, r, m).circle[p] == r.circle[p]
  {
  }

  /** Remove a member: free each of its replica positions, then rebuild the
      index. Positions it does not occupy are simply absent. */
  function Remove(h: Hasher, r: Ring, m: string): (r': Ring)
    ensures Valid(r')
    ensures r'.replicas == r.replicas
    ensures r'.circle.Keys == r.circle.Keys - Positions(h, r.replicas, m)
  {
    var c := ClearReplicas(h, r.circle, m, 0, r.replicas);
    Ring(r.replicas, c, SortedOf(c.Keys))
  }

  /** The owners after Remove: every remaining position keeps its owner. */
  lemma RemoveOwners(h: Hasher, r: Ring, m: string)
    ensures forall p :: p in Remove(h, r, m).circle ==> Remove(h, r, m).circle[p] == r.circle[p]
  {
  }

  /** The owner of the position at index `i` of the ordered index. */
  function OwnerAt(r: Ring, i: nat): (m: string)
    requires Valid(r) && i < |r.sorted|
    ensures m in Members(r)
  {
    r.circle[r.sorted[i]]
  }

  /** Look a key up: the owner of the first position at or after the key's
      hash, wrapping to the lowest position; ErrEmptyCircle when the ring
      has no positions. */
  function Get(h: Hasher, r: Ring, key: string): (res: Result<string>)
    requires Valid(r)
    ensures res.Failure? <==> |r.circle| == 0
    ensures res.Failure? ==> res.error == ErrEmptyCircle
    ensures res.Success? ==> res.value in Members(r)
  {
    if |r.circle| == 0 then Failure(ErrEmptyCircle)
    else Success(OwnerAt(r, StartIndex(r.sorted, h.hash(key))))
  }

  /** Get with the ordered index searched by the binary search method. */
  method Lookup(h: Hasher, r: Ring, key: string) returns (res: Result<string>)
    requires Valid(r)
    ensures res == Get(h, r, key)
  {
    if |r.circle| == 0 {
      return Failure(ErrEmptyCircle);
    }
    var i := Search(r.sorted, h.hash(key));
    res := Success(r.circle[r.sorted[i]]);
  }

  /** The index `j` steps clockwise from index `start` of an index of
      length `n`: past the end the walk starts again at 0. */
  function Wrap(start: nat, j: nat, n: nat): (i: nat)
    requires start < n && j < n
    ensures i < n
  {
    if start + j < n then start + j else start + j - n
  }

  /** The owner `j` steps clockwise from index `start`. */
  function OwnerAfter(r: Ring, start: nat, j: nat): (m: string)
    requires Valid(r) && start < |r.sorted| && j < |r.sorted|
    ensures m in Members(r)
  {
    OwnerAt(r, Wrap(start, j, |r.sorted|))
  }

  /** The clockwise walk of GetTwo: the owner of the first index after
      `start` (`k`, `k+1`, ... steps on, wrapping) whose owner differs
      from `a`, or "" once the whole ring has been walked without one. */
  function WalkForOther(r: Ring, start: nat, a: string, k: nat): (b: string)
    requires Valid(r) && start < |r.sorted| && 1 <= k <= |r.sorted|
    ensures (forall j :: k <= j < |r.sorted| ==> OwnerAfter(r, start, j) == a) ==> b == ""
    ensures (exists j :: k <= j < |r.sorted| && OwnerAfter(r, start, j) != a) ==>
              b != a && b in Members(r)
    ensures (exists j :: k <= j < |r.sorted| && OwnerAfter(r, start, j) != a) ==>
              exists j :: k <= j < |r.sorted| && OwnerAfter(r, start, j) == b &&
                forall j' :: k <= j' < j ==> OwnerAfter(r, start, j') == a
    decreases |r.sorted| - k
  {
    if k == |r.sorted| then ""
    else
      var o := OwnerAfter(r, start, k);
      if o != a then o else WalkForOther(r, start, a, k + 1)
  }

  /** Look a key up for two owners: the owner Get returns, and the next
      different owner clockwise, or "" when there is no other member. */
  function GetTwo(h: Hasher, r: Ring, key: string): (res: Result<(string, string)>)
    requires Valid(r)
    ensures res.Failure? <==> |r.circle| == 0
    ensures res.Failure? ==> res.error == ErrEmptyCircle
    ensures res.Success? ==> Get(h, r, key) == Success(res.value.0)
    ensures res.Success? ==> res.value.1 == "" || (res.value.1 != res.value.0 && res.value.1 in Members(r))
    ensures res.Success? ==>
              var i := StartIndex(r.sorted, h.hash(key));
              && ((forall j :: 1 <= j < |r.sorted| ==> OwnerAfter(r, i, j) == res.value.0) ==> res.value.1 == "")
              && ((exists j :: 1 <= j < |r.sorted| && OwnerAfter(r, i, j) != res.value.0) ==>
                    && res.value.1 != res.value.0
                    && (exists j :: 1 <= j < |r.sorted| && OwnerAfter(r, i, j) == res.value.1 &&
                          forall j' :: 1 <= j' < j ==> OwnerAfter(r, i, j') == res.value.0))
  {
    if |r.circle| == 0 then Failure(ErrEmptyCircle)
    else
      var i := StartIndex(r.sorted, h.hash(key));
      var a := OwnerAt(r, i);
      Success((a, WalkForOther(r, i, a, 1)))
  }
}
