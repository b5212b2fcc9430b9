/** The ordered index of occupied ring positions: how it is rebuilt from the
    placement table's key set, and how a key's hash is resolved to the next
    position clockwise. */
module SortedIndex {
  import opened Types

  /** Ascending and free of duplicates. */
  predicate StrictlyIncreasing(s: seq<uint32>) {
    forall i, j :: 0 <= i < j < |s| ==> s[i] < s[j]
  }

  /** `s` lists exactly the elements of `keys`. */
  predicate Lists(s: seq<uint32>, keys: set<uint32>) {
    forall x :: x in s <==> x in keys
  }

  /** `m` is the smallest element of `keys`. */
  predicate IsLeast(keys: set<uint32>, m: uint32) {
    m in keys && forall x :: x in keys ==> m <= x
  }

  lemma {:induction false} LeastExists(keys: set<uint32>)
    requires keys != {}
    ensures exists m :: IsLeast(keys, m)
    decreases |keys|
  {
    var y :| y in keys;
    var rest := keys - {y};
    if rest == {} {
      assert keys == {y};
      assert IsLeast(keys, y);
    } else {
      LeastExists(rest);
      var m :| IsLeast(rest, m);
      assert forall x :: x in keys ==> x == y || x in rest;
      if y < m {
        assert IsLeast(keys, y);
      } else {
        assert IsLeast(keys, m);
      }
    }
  }

  /** The smallest occupied position. */
  function Least(keys: set<uint32>): (m: uint32)
    requires keys != {}
    ensures m in keys
    ensures forall x :: x in keys ==> m <= x
  {
    LeastExists(keys);
    var m :| IsLeast(keys, m);
    m
  }

  /** Rebuilding the index: the key set of the placement table, in
      ascending order. */
  function SortedOf(keys: set<uint32>): (s: seq<uint32>)
    ensures StrictlyIncreasing(s)
    ensures Lists(s, keys)
    ensures |s| == |keys|
    decreases |keys|
  {
    if keys == {} then []
    else
      var m := Least(keys);
      var rest := SortedOf(keys - {m});
      assert forall x :: x in rest ==> m < x;
      [m] + rest
  }

  /** There is only one ascending duplicate-free listing of a set, so an
      index that is already valid is reproduced exactly by a rebuild. */
  lemma {:induction false} IncreasingListingUnique(a: seq<uint32>, b: seq<uint32>)
    requires StrictlyIncreasing(a) && StrictlyIncreasing(b)
    requires forall x :: x in a <==> x in b
    ensures a == b
    decreases |a|
  {
    assert a != [] ==> a[0] in a;
    assert b != [] ==> b[0] in b;
    if a != [] && b != [] {
      assert a[0] in b;
      assert b[0] in a;
      assert a[0] == b[0];
      forall x
        ensures x in a[1..] <==> x in b[1..]
      {
        if x in a[1..] {
          assert x in b;
          assert x != b[0];
        }
        if x in b[1..] {
          assert x in a;
          assert x != a[0];
        }
      }
      IncreasingListingUnique(a[1..], b[1..]);
      assert a == [a[0]] + a[1..];
      assert b == [b[0]] + b[1..];
    }
  }

  /** sort.Search with the predicate "position >= h": the first index whose
      position is at least `h`, or `|s|` when there is none. */
  function FirstAtLeast(s: seq<uint32>, h: uint32): (i: nat)
    ensures i <= |s|
    ensures forall j :: 0 <= j < i ==> s[j] < h
    ensures i < |s| ==> h <= s[i]
  {
    if |s| == 0 then 0
    else if h <= s[0] then 0
    else 1 + FirstAtLeast(s[1..], h)
  }

  /** The index a lookup starts from: the first position at least `h`,
      wrapping round to index 0 when `h` is past every position. */
  function StartIndex(s: seq<uint32>, h: uint32): (i: nat)
    ensures |s| > 0 ==> i < |s|
    ensures |s| == 0 ==> i == 0
  {
    var i := FirstAtLeast(s, h);
    if i == |s| then 0 else i
  }

  /** `p` is the occupied position a hash `h` resolves to: the least position
      at or after `h`, or the least position of all when the hash lies past
      the last one (the ring is circular). This is stated on the key set
      alone, independently of the index. */
  ghost predicate IsSuccessor(keys: set<uint32>, h: uint32, p: uint32) {
    && p in keys
    && if exists q :: q in keys && h <= q
       then h <= p && forall q :: q in keys && h <= q ==> p <= q
       else forall q :: q in keys ==> p <= q
  }

  /** Binary search over the ordered index, as Go's sort.Search does it:
      halve [lo, hi) keeping every index below lo short of `h` and every
      index from hi on at least `h`; wrap to 0 when nothing qualifies. */
  method Search(s: seq<uint32>, h: uint32) returns (i: nat)
    requires StrictlyIncreasing(s)
    ensures i == StartIndex(s, h)
    ensures |s| > 0 ==> i < |s|
    ensures i < |s| && s[i] < h ==> forall j :: 0 <= j < |s| ==> s[j] < h
  {
    var lo, hi := 0, |s|;
    while lo < hi
      invariant 0 <= lo <= hi <= |s|
      invariant forall j :: 0 <= j < lo ==> s[j] < h
      invariant forall j :: hi <= j < |s| ==> h <= s[j]
      decreases hi - lo
    {
      var mid := lo + (hi - lo) / 2;
      if h <= s[mid] {
        hi := mid;
      } else {
        lo := mid + 1;
      }
    }
    FirstAtLeastUnique(s, h, lo);
    i := if lo >= |s| then 0 else lo;
  }

  /** Any index with the two properties of `FirstAtLeast` is `FirstAtLeast`. */
  lemma {:induction false} FirstAtLeastUnique(s: seq<uint32>, h: uint32, k: nat)
    requires k <= |s|
    requires forall j :: 0 <= j < k ==> s[j] < h
    requires k < |s| ==> h <= s[k]
    ensures k == FirstAtLeast(s, h)
  {
  }

  /** The index a lookup starts from holds the successor of the hash. */
  lemma StartIndexIsSuccessor(s: seq<uint32>, keys: set<uint32>, h: uint32)
    requires StrictlyIncreasing(s) && Lists(s, keys) && |s| > 0
    ensures IsSuccessor(keys, h, s[StartIndex(s, h)])
  {
  }

  /** A hash has at most one successor. */
  lemma SuccessorUnique(keys: set<uint32>, h: uint32, p: uint32, q: uint32)
    requires IsSuccessor(keys, h, p) && IsSuccessor(keys, h, q)
    ensures p == q
  {
  }

  /** A successor in a larger key set that survives into a smaller one is
      the successor there too: deleting other positions never changes which
      position a hash resolves to. */
  lemma SuccessorInSubset(small: set<uint32>, big: set<uint32>, h: uint32, p: uint32)
    requires small <= big && p in small
    requires IsSuccessor(big, h, p)
    ensures IsSuccessor(small, h, p)
  {
  }
}
