/** Client scenarios of the containers, verified against their contracts:
 *  a vector filled past its first allocation, and a hash set of integers
 *  where one key is entered twice.
 */
module Scenarios {
  import opened Vectors
  import opened HashSets

  /** The usual three-way comparison of integers. */
  function CompareInts(a: int, b: int): (r: int) {
    if a < b then -1 else if a > b then 1 else 0
  }

  /** Four buckets picked by the remainder modulo the bucket count. */
  function HashInt(x: int, n: int): (h: int) {
    if n > 0 then x % n else 0
  }

  /** Appending 0..4 to a vector with the default growth step (4) leaves
      five elements in order and one growth (capacity 8). */
  method AppendFive() {
    var v := new Vector<int>(4, false, 0);
    var i := 0;
    while i < 5
      invariant 0 <= i <= 5
      invariant v.Valid() && v.growLength == 4 && fresh(v.elems)
      invariant v.Contents() == seq(i, k => k)
      invariant v.allocLength == if i <= 4 then 4 else 8
    {
      v.Append(i);
      i := i + 1;
    }
    assert v.Length() == 5;
    assert v.Contents() == [0, 1, 2, 3, 4];
    assert v.allocLength == 8;
  }

  /** Entering 1, 5 and 1 again into a four-bucket set leaves two elements,
      both in bucket 1; 5 is found and 9 (same bucket, other key) is not. */
  method EnterTwice() {
    var s := new HashSet<int>(4, 4, HashInt, CompareInts, false);
    assert s.Contents == [[], [], [], []];
    assert s.hash(1, s.nBuckets) == 1 && s.hash(5, s.nBuckets) == 1 && s.hash(9, s.nBuckets) == 1;
    assert Upsert([], 1, CompareInts) == [1];
    s.Enter(1);
    assert s.Contents == [[], [], [], []][1 := [1]];
    assert Upsert([1], 5, CompareInts) == [1, 5] by {
      assert IndexFrom([1], 5, CompareInts, 1) == -1;
    }
    s.Enter(5);
    assert s.Contents == [[], [1], [], []][1 := [1, 5]];
    assert Upsert([1, 5], 1, CompareInts) == [1, 5];
    s.Enter(1);
    assert s.Contents == [[], [1, 5], [], []];
    CountAndLookUp(s);
  }

  /** On the set left by `EnterTwice`: two elements, 5 found, 9 absent. */
  method CountAndLookUp(s: HashSet<int>)
    requires s.Valid() && s.nBuckets == 4 && s.hash == HashInt && s.compare == CompareInts
    requires s.Contents == [[], [1, 5], [], []]
  {
    var n := s.Count();
    BucketOneHoldsTwo();
    assert n == 2;
    var r := s.Lookup(5);
    assert r == Some(5);
    var q := s.Lookup(9);
    assert q == None;
  }

  lemma BucketOneHoldsTwo()
    ensures TotalLength<int>([[], [1, 5], [], []]) == 2
  {
    var s: seq<seq<int>> := [[], [1, 5], [], []];
    assert s[..1][..0] == [];
    assert TotalLength(s[..1]) == 0;
    assert s[..2][..1] == s[..1];
    assert TotalLength(s[..2]) == 2;
    assert s[..3][..2] == s[..2];
    assert TotalLength(s[..3]) == 2;
  }

  /** Looking an element up right after entering it finds that element,
      for any set whose comparison treats the element as equal to itself. */
  method EnterThenLookUp<T(0,!new)>(s: HashSet<T>, e: T) returns (r: Option<T>)
    requires s.Valid()
    requires 0 <= s.hash(e, s.nBuckets) < s.nBuckets
    requires s.compare(e, e) == 0
    modifies s.Repr
    ensures r == Some(e)
  {
    s.Enter(e);
    FoundAfterUpsert(old(s.Contents)[s.hash(e, s.nBuckets)], e, s.compare);
    r := s.Lookup(e);
  }
}
