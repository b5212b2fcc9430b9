# Consistent-hashing ring (stathat/consistent), modelled in Dafny

This project models the consistent-hashing ring of the Go package
`consistent`. The ring maps string keys to a changing set of named members.
Each member occupies `NumberOfReplicas` (default 20) virtual positions on a
32-bit circle. The placement table `circle` maps each occupied position to its
member. The ordered index `sortedHashes` lists the occupied positions in
ascending order. Lookups hash the key, find the next occupied position
clockwise from the hash (in this model: the first position at or after it,
wrapping round to the lowest one), and return that position's owner.

The model is functional:

- `Types` holds the `uint32` position type, the `ErrEmptyCircle` error and a
  `Result` datatype.
- `Types` also holds the `Hasher`: the hash function and the replica-key
  derivation. Both are uninterpreted total functions, passed to every
  operation, so every property holds for every hash function.
- `SortedIndex` rebuilds the ordered index from the table's key set
  (`SortedOf`). It also holds the lookup's search: the reference function
  `FirstAtLeast`/`StartIndex`, and the binary search method `Search`, which
  is proved equal to it.
- `SortedIndex` defines, on the key set alone, which position a hash resolves
  to (`IsSuccessor`). Lookups are proved to agree with this definition.
- `Consistent` holds the `Ring` datatype `(replicas, circle, sorted)` and the
  operations `New`, `Add`, `Remove`, `Get` (plus `Lookup`, which uses the
  binary search) and `GetTwo`. `Add` and `Remove` run their replica loops
  (`PlaceReplicas`, `ClearReplicas`) and then rebuild the index, as the
  package does.
- `RingProperties` proves the behaviour the package's tests check, in a form
  that holds for every hash function:
  - the sizes after Add;
  - the Add/Remove round trip;
  - Remove of an absent member;
  - the empty-ring error;
  - lookups returning current members;
  - minimal remapping on Remove;
  - the two distinct owners of GetTwo.

Only the package's test file `consistent_test.go` is cited below. The
implementation file `consistent.go` is not part of this model. The behaviour
modelled is what the tests observe, completed by the following conventions
of this model:
- Add writes `circle[hash(replicaKey(i, m))] = m` for `i` in `0..replicas-1`, with later writes overwriting earlier ones on a collision.
- Remove deletes those positions.
- Both rebuild the sorted index.
- Get returns `ErrEmptyCircle` on an empty ring, and otherwise searches for the first position `>=` the key's hash.
- GetTwo walks clockwise from there to the first position with a different owner, or gives `""` when there is none.

## Model

| member | source | states |
|---|---|---|
| Consistent.New | consistent_test.go:15-21 | a new ring has replica count 20 and an empty placement table and index, and is valid (sorted index listing exactly the table's positions) |
| Consistent.PlaceReplicas | consistent_test.go:23-27 | Add's loop: the table's positions become the old ones plus the member's replica positions in the range, each of those owned by the member, every other entry unchanged |
| Consistent.Add | consistent_test.go:23-36 | after Add the ring is valid (index strictly ascending, listing exactly the table's positions, one entry each) and the occupied positions are the old ones plus the member's replica positions |
| Consistent.AddOwners | consistent_test.go:23-36 | after Add every replica position of the member is owned by it, and every other previously occupied position keeps its owner |
| Consistent.ClearReplicas | consistent_test.go:39-44 | Remove's loop: the table's positions become the old ones minus the member's replica positions in the range, and surviving entries keep their owners |
| Consistent.Remove | consistent_test.go:39-52 | after Remove the ring is valid and the occupied positions are the old ones minus the member's replica positions |
| Consistent.RemoveOwners | consistent_test.go:47-52 | every position that survives Remove keeps its owner |
| Consistent.Get | consistent_test.go:54-80 | a lookup fails exactly when the table is empty, and then with ErrEmptyCircle; otherwise it returns a current member |
| Consistent.Lookup | consistent_test.go:65-80 | the lookup computed with the binary search over the index returns exactly what Get specifies |
| Consistent.WalkForOther | consistent_test.go:250-266 | GetTwo's walk gives "" when every position walked is owned by the first owner; otherwise it gives the owner of the first position clockwise whose owner differs from the first owner (every position walked before it is the first owner's), which is a current member |
| Consistent.GetTwo | consistent_test.go:199-266 | GetTwo fails exactly on an empty ring (ErrEmptyCircle); its first result is Get's answer; its second is "" when every other position is owned by the first result, and otherwise the owner of the first position clockwise from the lookup's start whose owner differs from the first result, a current member |
| SortedIndex.SortedOf | consistent_test.go:28-29 | the rebuilt index is strictly ascending, lists exactly the given positions, and has one entry per position |
| SortedIndex.IncreasingListingUnique | consistent_test.go:39-45 | two strictly ascending sequences with the same elements are equal, so a rebuilt index is determined by the table's positions (the fact behind SameTableSameRing and the exact Add/Remove round trip) |
| SortedIndex.FirstAtLeast | consistent_test.go:65-80 | the search position: every index before it holds a position below the hash, and the position at it (if any) is at least the hash |
| SortedIndex.Search | consistent_test.go:65-80 | the binary search returns the start index of the lookup (the first position at least the hash, or 0 when there is none), always within a non-empty index |
| SortedIndex.StartIndexIsSuccessor | consistent_test.go:110-127 | on a sorted index the lookup's start index holds the successor of the hash: the least position at or after it, or the least position of all when the hash lies past every position |
| SortedIndex.SuccessorInSubset | consistent_test.go:155-169 | deleting other positions never changes the successor of a hash when that successor survives |
| RingProperties.PositionsCount | consistent_test.go:26-27 | a member whose replicas do not collide occupies exactly `replicas` positions |
| RingProperties.AddGrowsByReplicas | consistent_test.go:23-36 | adding a member whose replica positions are distinct and free grows the table and the index by exactly the replica count, keeping the index sorted |
| RingProperties.AddToNewRing | consistent_test.go:23-30 | one member in a new ring gives 20 table entries and 20 index entries, sorted |
| RingProperties.AddSecondMember | consistent_test.go:31-36 | a second member on fresh positions brings the table and the index to 40 entries, sorted |
| RingProperties.AddIdempotent | consistent_test.go:23-36 | adding the same member twice gives the same ring as adding it once |
| RingProperties.SameTableSameRing | consistent_test.go:28-35 | two valid rings with the same replica count and table are equal: the index is determined by the table |
| RingProperties.RemoveAbsent | consistent_test.go:47-52 | removing a member none of whose positions is occupied leaves the ring exactly as it was |
| RingProperties.RemoveIdempotent | consistent_test.go:39-52 | removing a member twice gives the same ring as removing it once |
| RingProperties.RemoveUndoesAdd | consistent_test.go:39-45 | Remove after Add leaves the old table minus the member's positions, every other entry untouched |
| RingProperties.AddThenRemoveRestores | consistent_test.go:39-45 | Add then Remove of a member whose positions were free restores the ring exactly |
| RingProperties.AddRemoveOnNewRing | consistent_test.go:39-45 | Add then Remove of one member in a new ring leaves an empty table and an empty index |
| RingProperties.RemoveNonExisting | consistent_test.go:47-52 | removing a member whose positions are free leaves the first member's 20 entries |
| RingProperties.AddMembers | consistent_test.go:110-127 | Add introduces no member other than the one added, and with at least one replica makes it a member |
| RingProperties.RemoveEvicts | consistent_test.go:179-197 | Remove introduces no member, and on a ring whose entries sit at their owners' replica positions it evicts the removed member completely |
| RingProperties.GetIsSuccessorOwner | consistent_test.go:110-127 | on a valid ring a lookup returns the owner of the successor of the key's hash among the occupied positions |
| RingProperties.GetHasSuccessor | consistent_test.go:110-127 | every key of a non-empty ring has a successor position, and the lookup returns its owner |
| RingProperties.GetOnNewRing | consistent_test.go:54-63 | a lookup in a new ring fails with ErrEmptyCircle |
| RingProperties.GetSingleMember | consistent_test.go:65-80 | with a single member every key resolves to that member |
| RingProperties.GetWithin | consistent_test.go:115-123 | a lookup in a non-empty ring succeeds and returns a member of any set that covers the ring's members |
| RingProperties.ThreeMemberRing | consistent_test.go:110-114 | the ring with three members added is valid and non-empty, its members are among the three, and the last one added is present |
| RingProperties.GetThreeMembers | consistent_test.go:110-127 | in the three-member ring every key resolves without error to a current member, and the members are among the three added |
| RingProperties.RemoveThirdMember | consistent_test.go:179-184 | after the third member is removed the ring is valid and non-empty and holds only the other two (given the first shares no position with the third) |
| RingProperties.GetAfterRemovingThird | consistent_test.go:179-197 | after the third member is removed every key resolves without error to a current member, and the members are among the other two |
| RingProperties.MinimalRemapOnRemove | consistent_test.go:155-176 | a key that did not resolve to the removed member keeps its owner, provided none of that member's positions had been taken over by another member |
| RingProperties.AddMovesKeysOnlyToNewMember | consistent_test.go:129-177 | the Add counterpart of that remapping: after an Add to a non-empty ring a key keeps its owner or moves to the member just added |
| RingProperties.FirstMemberSurvives | consistent_test.go:219-223 | the first of three members stays a member when its positions are disjoint from the other two's |
| RingProperties.WalkFindsOther | consistent_test.go:219-248 | when some position is owned by a member other than the first owner, GetTwo's walk finds a current member different from it |
| RingProperties.GetTwoDistinct | consistent_test.go:219-248 | with two different members present GetTwo succeeds with two different current members |
| RingProperties.GetTwoThreeMembers | consistent_test.go:219-248 | in the three-member ring (the first member colliding with neither other) every key gets two different current members, all among the three |
| RingProperties.GetTwoSingle | consistent_test.go:250-266 | on a valid ring whose only member is m, GetTwo returns (m, "") without error |
| RingProperties.GetTwoWalksClockwise | consistent_test.go:199-216 | on the ring 1 -> "a", 2 -> "b", 3 -> "c" with every key hashing to 0, GetTwo answers ("a", "b"): the next owner clockwise, not any other member |
| RingProperties.GetTwoSkipsEmptyName | consistent_test.go:199-216 | on the ring 1 -> "", 2 -> "", 3 -> "c" with every key hashing to 0, GetTwo answers ("", "c"): a first owner named "" is still skipped |
| RingProperties.GetTwoOnlyOne | consistent_test.go:250-266 | a new ring with one member added answers GetTwo with (that member, "") |

## Left out

- Locking: the package guards every operation with a read/write mutex. The model is sequential, and concurrency is not part of the functional contract.
- The concrete hash function and the format of the replica key. Both are parameters (`Hasher`), so the literal test vectors cannot be stated: `"ggg"`/`"hhh"`/`"iiiiii"` at consistent_test.go:87-107 and 134-154, the post-Remove lookups at 156-176, and `"99999999"` at 204-216. Their hash-independent generalisations are proved instead, including the clockwise order of GetTwo's second result (GetTwo, and the small concrete ring of GetTwoWalksClockwise).
- `GetN`, `Set` and `Members()` enumeration, and the member counter `count` that the package keeps beside `circle`, are not modelled. `Members` here is derived from the table.
- GetTwo's shortcut of returning `""` when the member counter says there is one member is not modelled separately: here the walk returns `""` when no other owner exists. The two agree only while the counter equals the number of distinct owners in the table; the counter is not modelled, so nothing here ties it to the table.
- `testing/quick` input generation and the test reporting helpers. The quick-checked properties are stated for all keys instead.
- Go's `sort.Interface` mechanics: sortedness is the predicate `StrictlyIncreasing`, and the index rebuild is `SortedOf`.
- A hash equal to an occupied position resolves to that position: the search uses `>=`, a convention this model chooses (the tests never exercise a tie). The implementation file, which would settle ties, is not part of this model.
- Rejecting a non-positive replica count at configuration time: `New` always uses 20, and `replicas` is a `nat`.
- RingProperties.GetThreeMembers: states membership among the three through `Members(r) <= {a, b, c}` and `Get(...).value in Members(r)`, rather than as one formula. RingProperties.GetWithin combines the two.
- RingProperties.GetAfterRemovingThird: assumes the first member shares no position with the removed one. Without that assumption the removal could empty the ring.
- RingProperties.AddToNewRing: assumes the member's 20 replica positions are pairwise distinct. With a collision the package also gives fewer than 20 entries.
- RingProperties.GetTwoThreeMembers: assumes the first member collides with neither of the others. Only then is it certain that two different members remain.
