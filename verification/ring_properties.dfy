/** Properties of the ring operations: sizes after Add and Remove, the
    Add/Remove round trip, which members a lookup can return, minimal
    remapping, and the two owners GetTwo reports. */
module RingProperties {
  import opened Types
  import opened SortedIndex
  import opened Consistent

  /** The `replicas` virtual nodes of `m` hash to pairwise different
      positions (no collision among a member's own replicas). */
  ghost predicate DistinctReplicas(h: Hasher, replicas: nat, m: string) {
    forall i, j :: 0 <= i < j < replicas ==> ReplicaPos(h, i, m) != ReplicaPos(h, j, m)
  }

  // ---------------------------------------------------------------------
  // Sizes of the placement table and the index

  lemma {:induction false} ReplicaRangeCount(h: Hasher, m: string, lo: nat, hi: nat, replicas: nat)
    requires lo <= hi <= replicas && DistinctReplicas(h, replicas, m)
    ensures |ReplicaRange(h, m, lo, hi)| == hi - lo
    decreases hi - lo
  {
    if lo == hi {
      assert ReplicaRange(h, m, lo, hi) == {};
    } else {
      ReplicaRangeSplit(h, m, lo, hi);
      ReplicaRangeCount(h, m, lo + 1, hi, replicas);
      assert forall i :: lo + 1 <= i < hi ==> ReplicaPos(h, i, m) != ReplicaPos(h, lo, m);
      assert ReplicaPos(h, lo, m) !in ReplicaRange(h, m, lo + 1, hi);
    }
  }

  /** A member whose replicas do not collide occupies exactly `replicas`
      positions. */
  lemma PositionsCount(h: Hasher, replicas: nat, m: string)
    requires DistinctReplicas(h, replicas, m)
    ensures |Positions(h, replicas, m)| == replicas
  {
    ReplicaRangeCount(h, m, 0, replicas, replicas);
  }

  /** Adding a member whose positions are distinct and all free grows the
      placement table and the index by exactly the replica count, and the
      index stays sorted. */
  lemma AddGrowsByReplicas(h: Hasher, r: Ring, m: string)
    requires DistinctReplicas(h, r.replicas, m)
    requires Positions(h, r.replicas, m) !! r.circle.Keys
    ensures |Add(h, r, m).circle| == |r.circle| + r.replicas
    ensures |Add(h, r, m).sorted| == |r.circle| + r.replicas
    ensures StrictlyIncreasing(Add(h, r, m).sorted)
  {
    var P := Positions(h, r.replicas, m);
    PositionsCount(h, r.replicas, m);
    assert |r.circle.Keys + P| == |r.circle.Keys| + |P|;
  }

  /** The first half of the Add test: one member in a new ring gives 20
      positions and 20 sorted index entries. */
  lemma AddToNewRing(h: Hasher, m: string)
    requires DistinctReplicas(h, 20, m)
    ensures |Add(h, New(), m).circle| == 20
    ensures |Add(h, New(), m).sorted| == 20
    ensures StrictlyIncreasing(Add(h, New(), m).sorted)
  {
    PositionsCount(h, 20, m);
    var r := Add(h, New(), m);
    assert r.circle.Keys == Positions(h, 20, m);
  }

  /** The second half of the Add test: a second member on fresh positions
      brings both to 40, still sorted. */
  lemma AddSecondMember(h: Hasher, a: string, b: string)
    requires DistinctReplicas(h, 20, a) && DistinctReplicas(h, 20, b)
    requires Positions(h, 20, a) !! Positions(h, 20, b)
    ensures |Add(h, Add(h, New(), a), b).circle| == 40
    ensures |Add(h, Add(h, New(), a), b).sorted| == 40
    ensures StrictlyIncreasing(Add(h, Add(h, New(), a), b).sorted)
  {
    AddToNewRing(h, a);
    AddGrowsByReplicas(h, Add(h, New(), a), b);
  }

  /** Two tables with the same keys and the same owner at each key are
      equal. */
  lemma MapsEqual(c1: map<uint32, string>, c2: map<uint32, string>)
    requires c1.Keys == c2.Keys
    requires forall p :: p in c1 ==> c1[p] == c2[p]
    ensures c1 == c2
  {
  }

  /** A valid ring is reproduced exactly when its placement table is. */
  lemma SameTableSameRing(r: Ring, r': Ring)
    requires Valid(r) && Valid(r')
    requires r.replicas == r'.replicas && r.circle == r'.circle
    ensures r == r'
  {
    IncreasingListingUnique(r.sorted, r'.sorted);
  }

  /** Re-adding a present member changes nothing. */
  lemma AddIdempotent(h: Hasher, r: Ring, m: string)
    ensures Add(h, Add(h, r, m), m) == Add(h, r, m)
  {
    var r1 := Add(h, r, m);
    var r2 := Add(h, r1, m);
    var P := Positions(h, r.replicas, m);
    assert r2.circle.Keys == r1.circle.Keys;
    AddOwners(h, r, m);
    AddOwners(h, r1, m);
    forall p | p in r1.circle
      ensures r1.circle[p] == r2.circle[p]
    {
      if p in P {
        assert r1.circle[p] == m == r2.circle[p];
      }
    }
    MapsEqual(r1.circle, r2.circle);
    SameTableSameRing(r1, r2);
  }

  // ---------------------------------------------------------------------
  // Remove

  /** Removing a member none of whose positions is occupied leaves the ring
      exactly as it was. */
  lemma RemoveAbsent(h: Hasher, r: Ring, m: string)
    requires Valid(r)
    requires Positions(h, r.replicas, m) !! r.circle.Keys
    ensures Remove(h, r, m) == r
  {
    var r' := Remove(h, r, m);
    assert r'.circle.Keys == r.circle.Keys;
    MapsEqual(r'.circle, r.circle);
    SameTableSameRing(r', r);
  }

  /** Removing twice is removing once. */
  lemma RemoveIdempotent(h: Hasher, r: Ring, m: string)
    ensures Remove(h, Remove(h, r, m), m) == Remove(h, r, m)
  {
    RemoveAbsent(h, Remove(h, r, m), m);
  }

  /** Remove undoes Add on the placement table: the member's positions are
      gone, whoever held them before, and every other entry is untouched. */
  lemma RemoveUndoesAdd(h: Hasher, r: Ring, m: string)
    ensures Remove(h, Add(h, r, m), m).circle == r.circle - Positions(h, r.replicas, m)
  {
    var P := Positions(h, r.replicas, m);
    var r1 := Add(h, r, m);
    var r2 := Remove(h, r1, m);
    assert r2.circle.Keys == (r.circle - P).Keys;
    forall p | p in r2.circle
      ensures r2.circle[p] == (r.circle - P)[p]
    {
      assert p !in P;
    }
    MapsEqual(r2.circle, r.circle - P);
  }

  /** Add then Remove of a member whose positions were free restores the
      ring exactly. */
  lemma AddThenRemoveRestores(h: Hasher, r: Ring, m: string)
    requires Valid(r)
    requires Positions(h, r.replicas, m) !! r.circle.Keys
    ensures Remove(h, Add(h, r, m), m) == r
  {
    var P := Positions(h, r.replicas, m);
    RemoveUndoesAdd(h, r, m);
    assert (r.circle - P).Keys == r.circle.Keys;
    MapsEqual(r.circle - P, r.circle);
    SameTableSameRing(Remove(h, Add(h, r, m), m), r);
  }

  /** The Remove test: add then remove one member in a new ring leaves an
      empty table and an empty index. */
  lemma AddRemoveOnNewRing(h: Hasher, m: string)
    ensures |Remove(h, Add(h, New(), m), m).circle| == 0
    ensures |Remove(h, Add(h, New(), m), m).sorted| == 0
  {
  }

  /** The non-existing Remove test: removing a member whose positions are
      all free keeps the first member's 20 positions. */
  lemma RemoveNonExisting(h: Hasher, a: string, b: string)
    requires DistinctReplicas(h, 20, a)
    requires Positions(h, 20, a) !! Positions(h, 20, b)
    ensures |Remove(h, Add(h, New(), a), b).circle| == 20
  {
    AddToNewRing(h, a);
    RemoveAbsent(h, Add(h, New(), a), b);
  }

  // ---------------------------------------------------------------------
  // Membership

  /** Every entry of a new ring is well placed (vacuously). */
  lemma NewWellPlaced(h: Hasher)
    ensures WellPlaced(h, New())
  {
  }

  /** Add keeps every position among its owner's replica positions. */
  lemma AddWellPlaced(h: Hasher, r: Ring, m: string)
    requires WellPlaced(h, r)
    ensures WellPlaced(h, Add(h, r, m))
  {
  }

  /** Remove keeps every position among its owner's replica positions. */
  lemma RemoveWellPlaced(h: Hasher, r: Ring, m: string)
    requires WellPlaced(h, r)
    ensures WellPlaced(h, Remove(h, r, m))
  {
  }

  /** Add introduces no member but `m`, and (with at least one replica)
      makes `m` a member. */
  lemma AddMembers(h: Hasher, r: Ring, m: string)
    ensures Members(Add(h, r, m)) <= Members(r) + {m}
    ensures r.replicas > 0 ==> m in Members(Add(h, r, m))
  {
    var r' := Add(h, r, m);
    var P := Positions(h, r.replicas, m);
    forall v | v in Members(r')
      ensures v in Members(r) + {m}
    {
      var p :| p in r'.circle && r'.circle[p] == v;
      if p !in P {
        assert r.circle[p] == v;
      }
    }
    if r.replicas > 0 {
      var p0 := ReplicaPos(h, 0, m);
      assert p0 in P;
      assert r'.circle[p0] == m;
    }
  }

  /** Remove never introduces a member, and on a well-placed ring it evicts
      the removed member completely. */
  lemma RemoveEvicts(h: Hasher, r: Ring, m: string)
    requires WellPlaced(h, r)
    ensures Members(Remove(h, r, m)) <= Members(r)
    ensures m !in Members(Remove(h, r, m))
  {
  }

  // ---------------------------------------------------------------------
  // Get

  /** Get against its reference definition: on a valid ring, a key resolves
      to the owner of the successor of its hash among the occupied
      positions. */
  lemma GetIsSuccessorOwner(h: Hasher, r: Ring, key: string, p: uint32)
    requires Valid(r)
    requires IsSuccessor(r.circle.Keys, h.hash(key), p)
    ensures Get(h, r, key) == Success(r.circle[p])
  {
    assert p in r.sorted;
    var q := r.sorted[StartIndex(r.sorted, h.hash(key))];
    StartIndexIsSuccessor(r.sorted, r.circle.Keys, h.hash(key));
    SuccessorUnique(r.circle.Keys, h.hash(key), p, q);
  }

  /** Every key of a non-empty ring has a successor position, and Get
      returns its owner. */
  lemma GetHasSuccessor(h: Hasher, r: Ring, key: string)
    requires Valid(r) && |r.circle| > 0
    ensures exists p :: IsSuccessor(r.circle.Keys, h.hash(key), p) && Get(h, r, key) == Success(r.circle[p])
  {
    var p := r.sorted[StartIndex(r.sorted, h.hash(key))];
    StartIndexIsSuccessor(r.sorted, r.circle.Keys, h.hash(key));
    GetIsSuccessorOwner(h, r, key, p);
  }

  /** The empty-ring test: a lookup in a new ring fails with ErrEmptyCircle. */
  lemma GetOnNewRing(h: Hasher, key: string)
    ensures Get(h, New(), key) == Failure(ErrEmptyCircle)
  {
  }

  /** With a single member, every key resolves to it. */
  lemma GetSingleMember(h: Hasher, m: string, key: string)
    ensures Get(h, Add(h, New(), m), key) == Success(m)
  {
  }

  /** A lookup in a non-empty ring returns a member of any set that covers
      the ring's members. */
  lemma GetWithin(h: Hasher, r: Ring, key: string, S: set<string>)
    requires Valid(r) && |r.circle| > 0 && Members(r) <= S
    ensures Get(h, r, key).Success? && Get(h, r, key).value in S
  {
  }

  /** The ring of the three-member tests: non-empty, its members among the
      three added, the last one added certainly present. */
  lemma ThreeMemberRing(h: Hasher, a: string, b: string, c: string) returns (r: Ring)
    ensures r == Add(h, Add(h, Add(h, New(), a), b), c)
    ensures Valid(r) && |r.circle| > 0
    ensures Members(r) <= {a, b, c} && c in Members(r)
  {
    var r1 := Add(h, New(), a);
    var r2 := Add(h, r1, b);
    r := Add(h, r2, c);
    AddMembers(h, New(), a);
    AddMembers(h, r1, b);
    AddMembers(h, r2, c);
  }

  lemma ThreeWellPlaced(h: Hasher, a: string, b: string, c: string)
    ensures WellPlaced(h, Add(h, Add(h, Add(h, New(), a), b), c))
  {
    var r1 := Add(h, New(), a);
    var r2 := Add(h, r1, b);
    NewWellPlaced(h);
    AddWellPlaced(h, New(), a);
    AddWellPlaced(h, r1, b);
    AddWellPlaced(h, r2, c);
  }

  /** The first member keeps its first position when the other two members
      never collide with it. */
  lemma FirstMemberSurvives(h: Hasher, a: string, b: string, c: string)
    requires Positions(h, 20, a) !! Positions(h, 20, b)
    requires Positions(h, 20, a) !! Positions(h, 20, c)
    ensures a in Members(Add(h, Add(h, Add(h, New(), a), b), c))
  {
    var r1 := Add(h, New(), a);
    var r2 := Add(h, r1, b);
    var r3 := Add(h, r2, c);
    var p := ReplicaPos(h, 0, a);
    assert p in Positions(h, 20, a);
    AddOwners(h, New(), a);
    AddOwners(h, r1, b);
    AddOwners(h, r2, c);
    assert r3.circle[p] == a;
  }

  lemma ThreeKeepsFirst(h: Hasher, a: string, b: string, c: string)
    requires Positions(h, 20, a) !! Positions(h, 20, c)
    ensures ReplicaPos(h, 0, a) in Remove(h, Add(h, Add(h, Add(h, New(), a), b), c), c).circle
  {
    var p := ReplicaPos(h, 0, a);
    assert p in Positions(h, 20, a);
  }

  /** The ring of the remove test: after the third member leaves, the ring
      is non-empty and holds only the other two. */
  lemma RemoveThirdMember(h: Hasher, a: string, b: string, c: string) returns (r: Ring)
    requires a != c && b != c
    requires Positions(h, 20, a) !! Positions(h, 20, c)
    ensures r == Remove(h, Add(h, Add(h, Add(h, New(), a), b), c), c)
    ensures Valid(r) && |r.circle| > 0
    ensures Members(r) <= {a, b}
  {
    var r3 := ThreeMemberRing(h, a, b, c);
    ThreeWellPlaced(h, a, b, c);
    ThreeKeepsFirst(h, a, b, c);
    RemoveEvicts(h, r3, c);
    r := Remove(h, r3, c);
  }

  /** The three-member lookup test: every key resolves, to a member of a
      ring whose members are among the three added. */
  lemma GetThreeMembers(h: Hasher, a: string, b: string, c: string, key: string)
    ensures var r := Add(h, Add(h, Add(h, New(), a), b), c);
      && Members(r) <= {a, b, c}
      && Get(h, r, key).Success?
      && Get(h, r, key).value in Members(r)
  {
    var r := ThreeMemberRing(h, a, b, c);
  }

  /** The lookup-after-remove test: once the third member is removed every
      key resolves, to a member of a ring holding only the other two. The
      first member must not share a position with the third, or removing
      the third could empty the ring. */
  lemma GetAfterRemovingThird(h: Hasher, a: string, b: string, c: string, key: string)
    requires a != c && b != c
    requires Positions(h, 20, a) !! Positions(h, 20, c)
    ensures var r := Remove(h, Add(h, Add(h, Add(h, New(), a), b), c), c);
      && Members(r) <= {a, b}
      && Get(h, r, key).Success?
      && Get(h, r, key).value in Members(r)
  {
    var r := RemoveThirdMember(h, a, b, c);
  }

  /** Minimal remapping on Remove: a key that did not resolve to the removed
      member keeps its owner, provided none of that member's positions had
      been taken over by another member through a collision. */
  lemma MinimalRemapOnRemove(h: Hasher, r: Ring, m: string, key: string)
    requires Valid(r)
    requires Get(h, r, key).Success? && Get(h, r, key).value != m
    requires forall p :: p in Positions(h, r.replicas, m) && p in r.circle ==> r.circle[p] == m
    ensures Get(h, Remove(h, r, m), key) == Get(h, r, key)
  {
    var hk := h.hash(key);
    var p := r.sorted[StartIndex(r.sorted, hk)];
    StartIndexIsSuccessor(r.sorted, r.circle.Keys, hk);
    var r' := Remove(h, r, m);
    assert p !in Positions(h, r.replicas, m);
    SuccessorInSubset(r'.circle.Keys, r.circle.Keys, hk, p);
    GetIsSuccessorOwner(h, r', key, p);
  }

  /** Minimal remapping on Add: a key either keeps its owner or moves to
      the member just added. */
  lemma AddMovesKeysOnlyToNewMember(h: Hasher, r: Ring, m: string, key: string)
    requires Valid(r) && |r.circle| > 0
    ensures Get(h, Add(h, r, m), key) in {Get(h, r, key), Success(m)}
  {
    var hk := h.hash(key);
    var r' := Add(h, r, m);
    assert r.sorted[0] in r'.circle;
    var p := r'.sorted[StartIndex(r'.sorted, hk)];
    StartIndexIsSuccessor(r'.sorted, r'.circle.Keys, hk);
    GetIsSuccessorOwner(h, r', key, p);
    if p !in Positions(h, r.replicas, m) {
      SuccessorInSubset(r.circle.Keys, r'.circle.Keys, hk, p);
      GetIsSuccessorOwner(h, r, key, p);
    }
  }

  // ---------------------------------------------------------------------
  // GetTwo

  /** Every index other than `start` is some number of steps 1..n-1
      clockwise from it. */
  lemma WrapReaches(start: nat, t: nat, n: nat) returns (j: nat)
    requires start < n && t < n && start != t
    ensures 1 <= j < n && Wrap(start, j, n) == t
  {
    j := if t > start then t - start else t + n - start;
  }

  /** A member of the ring sits at some index of the ordered index. */
  lemma MemberIndex(r: Ring, x: string) returns (t: nat)
    requires Valid(r) && x in Members(r)
    ensures t < |r.sorted| && OwnerAt(r, t) == x
  {
    var p :| p in r.circle && r.circle[p] == x;
    assert p in r.sorted;
    t :| 0 <= t < |r.sorted| && r.sorted[t] == p;
  }

  /** If some index has an owner other than `a`, the walk finds one. */
  lemma WalkFindsOther(r: Ring, start: nat, a: string, t: nat)
    requires Valid(r) && start < |r.sorted| && t < |r.sorted|
    requires OwnerAt(r, start) == a && OwnerAt(r, t) != a
    ensures WalkForOther(r, start, a, 1) != a
    ensures WalkForOther(r, start, a, 1) in Members(r)
  {
    var j := WrapReaches(start, t, |r.sorted|);
    assert OwnerAfter(r, start, j) != a;
  }

  /** With two different members present, GetTwo reports two different
      members. */
  lemma GetTwoDistinct(h: Hasher, r: Ring, key: string, x: string, y: string)
    requires Valid(r)
    requires x in Members(r) && y in Members(r) && x != y
    ensures GetTwo(h, r, key).Success?
    ensures GetTwo(h, r, key).value.0 in Members(r)
    ensures GetTwo(h, r, key).value.1 in Members(r)
    ensures GetTwo(h, r, key).value.0 != GetTwo(h, r, key).value.1
  {
    var i := StartIndex(r.sorted, h.hash(key));
    var a := OwnerAt(r, i);
    var t := MemberIndex(r, if x != a then x else y);
    WalkFindsOther(r, i, a, t);
  }

  /** With exactly one member, GetTwo reports it and "" and no error. */
  lemma GetTwoSingle(h: Hasher, r: Ring, key: string, m: string)
    requires Valid(r) && Members(r) == {m}
    ensures GetTwo(h, r, key) == Success((m, ""))
  {
  }

  /** The three-member GetTwo test: when the first member's positions
      are disjoint from the others', every key gets two different members,
      both of a ring whose members are among the three added. */
  lemma GetTwoThreeMembers(h: Hasher, a: string, b: string, c: string, key: string)
    requires a != c
    requires Positions(h, 20, a) !! Positions(h, 20, b)
    requires Positions(h, 20, a) !! Positions(h, 20, c)
    ensures var r := Add(h, Add(h, Add(h, New(), a), b), c);
      && Members(r) <= {a, b, c}
      && GetTwo(h, r, key).Success?
      && GetTwo(h, r, key).value.0 in Members(r)
      && GetTwo(h, r, key).value.1 in Members(r)
      && GetTwo(h, r, key).value.0 != GetTwo(h, r, key).value.1
  {
    var r := ThreeMemberRing(h, a, b, c);
    FirstMemberSurvives(h, a, b, c);
    GetTwoDistinct(h, r, key, a, c);
  }

  /** The only-one-member GetTwo test. */
  lemma GetTwoOnlyOne(h: Hasher, m: string, key: string)
    ensures GetTwo(h, Add(h, New(), m), key) == Success((m, ""))
  {
  }

  /** GetTwo's second result is the next different owner clockwise, not
      just any other member: on the ring 1 -> "a", 2 -> "b", 3 -> "c" a key
      hashing to 0 starts at position 1 and gets ("a", "b"). */
  lemma GetTwoWalksClockwise(key: string)
    ensures var h := Hasher(s => 0, (i, m) => m);
            var r := Ring(20, map[1 := "a", 2 := "b", 3 := "c"], [1, 2, 3]);
            GetTwo(h, r, key) == Success(("a", "b"))
  {
  }

  /** The second result differs from the first even for a member named "":
      on the ring 1 -> "", 2 -> "", 3 -> "c" a key hashing to 0 gets
      ("", "c"). */
  lemma GetTwoSkipsEmptyName(key: string)
    ensures var h := Hasher(s => 0, (i, m) => m);
            var r := Ring(20, map[1 := "", 2 := "", 3 := "c"], [1, 2, 3]);
            GetTwo(h, r, key) == Success(("", "c"))
  {
  }
}
