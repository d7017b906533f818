/** A hash set with a fixed number of buckets, each bucket a `Vector`
 *  (hashset.c). The hash function picks the bucket; inside a bucket the
 *  comparison function decides which elements are "the same".
 */
module HashSets {
  import opened Vectors

  datatype Option<T> = None | Some(value: T)

  /** Zero from the comparison function behaves as an equality on keys. */
  ghost predicate IsEquivalence<T(!new)>(cmp: (T, T) -> int) {
    && (forall a :: cmp(a, a) == 0)
    && (forall a, b :: cmp(a, b) == 0 ==> cmp(b, a) == 0)
    && (forall a, b, c :: cmp(a, b) == 0 && cmp(b, c) == 0 ==> cmp(a, c) == 0)
  }

  /** Elements with the same key hash to the same bucket. */
  ghost predicate HashRespects<T(!new)>(hash: (T, int) -> int, cmp: (T, T) -> int, n: int) {
    forall a, b :: cmp(a, b) == 0 ==> hash(a, n) == hash(b, n)
  }

  /** No two elements of a bucket have the same key. */
  ghost predicate UniqueKeys<T>(b: seq<T>, cmp: (T, T) -> int) {
    forall i, j :: 0 <= i < |b| && 0 <= j < |b| && i != j ==> cmp(b[i], b[j]) != 0
  }

  /** No bucket holds two elements with the same key. */
  ghost predicate AllKeysUnique<T>(s: seq<seq<T>>, cmp: (T, T) -> int) {
    forall i :: 0 <= i < |s| ==> UniqueKeys(s[i], cmp)
  }

  /** The first element of bucket `b` with the key of `e`, if any: what
      HashSetLookup returns. */
  function Found<T>(b: seq<T>, e: T, cmp: (T, T) -> int): (r: Option<T>) {
    var k := IndexFrom(b, e, cmp, 0);
    if k == -1 then None else Some(b[k])
  }

  /** Lookup reports "not found" exactly when no element of the bucket has
      the key, and otherwise returns the first element that has it. */
  lemma FoundIsFirstMatch<T>(b: seq<T>, e: T, cmp: (T, T) -> int)
    ensures Found(b, e, cmp).None? <==> forall i :: 0 <= i < |b| ==> cmp(e, b[i]) != 0
    ensures Found(b, e, cmp).Some? ==>
              exists k :: 0 <= k < |b| && Found(b, e, cmp).value == b[k] && cmp(e, b[k]) == 0 &&
                          forall i :: 0 <= i < k ==> cmp(e, b[i]) != 0
  {
    IndexFromIsFirstMatch(b, e, cmp, 0);
  }

  /** The bucket after HashSetEnter: the first element with the key of `e` is
      replaced by `e`, or `e` is appended when there is none. */
  function Upsert<T>(b: seq<T>, e: T, cmp: (T, T) -> int): (r: seq<T>) {
    var k := IndexFrom(b, e, cmp, 0);
    if k == -1 then b + [e] else b[k := e]
  }

  /** Every element sits in the bucket its hash selects. */
  ghost predicate Dispatched<T>(s: seq<seq<T>>, hash: (T, int) -> int) {
    forall i, k :: 0 <= i < |s| && 0 <= k < |s[i]| ==> hash(s[i][k], |s|) == i
  }

  /** Entering an element into the bucket its hash selects keeps every
      element in its own bucket. */
  lemma UpsertKeepsDispatched<T>(s: seq<seq<T>>, e: T, hash: (T, int) -> int, cmp: (T, T) -> int)
    requires Dispatched(s, hash)
    requires 0 <= hash(e, |s|) < |s|
    ensures Dispatched(s[hash(e, |s|) := Upsert(s[hash(e, |s|)], e, cmp)], hash)
  {
    var h := hash(e, |s|);
    var t := s[h := Upsert(s[h], e, cmp)];
    forall i, k | 0 <= i < |t| && 0 <= k < |t[i]| ensures hash(t[i][k], |t|) == i {
      if i == h && t[i][k] != e {
        assert t[i][k] == s[h][k];
      }
    }
  }

  /** Total number of elements over all buckets. */
  function TotalLength<T>(s: seq<seq<T>>): (n: nat) {
    if |s| == 0 then 0 else TotalLength(s[..|s| - 1]) + |s[|s| - 1]|
  }

  /** All elements, bucket after bucket, each bucket in index order. */
  function Concat<T>(s: seq<seq<T>>): (r: seq<T>) {
    if |s| == 0 then [] else Concat(s[..|s| - 1]) + s[|s| - 1]
  }

  /** Enter appends a new key and overwrites exactly the first slot that
      holds an existing one. */
  lemma UpsertSemantics<T>(b: seq<T>, e: T, cmp: (T, T) -> int)
    ensures (forall i :: 0 <= i < |b| ==> cmp(e, b[i]) != 0) ==> Upsert(b, e, cmp) == b + [e]
    ensures forall k :: 0 <= k < |b| && cmp(e, b[k]) == 0 && (forall i :: 0 <= i < k ==> cmp(e, b[i]) != 0) ==>
                          Upsert(b, e, cmp) == b[k := e]
  {
    IndexFromIsFirstMatch(b, e, cmp, 0);
  }

  /** Enter keeps keys unique within a bucket. */
  lemma UpsertKeepsUnique<T(!new)>(b: seq<T>, e: T, cmp: (T, T) -> int)
    requires IsEquivalence(cmp)
    requires UniqueKeys(b, cmp)
    ensures UniqueKeys(Upsert(b, e, cmp), cmp)
  {
    var k := IndexFrom(b, e, cmp, 0);
    IndexFromIsFirstMatch(b, e, cmp, 0);
    var r := Upsert(b, e, cmp);
    if k == -1 {
      forall i, j | 0 <= i < |r| && 0 <= j < |r| && i != j ensures cmp(r[i], r[j]) != 0 {
        if j == |b| {
          assert cmp(e, r[i]) != 0;
        } else if i == |b| {
          assert cmp(e, r[j]) != 0;
        }
      }
    } else {
      forall i, j | 0 <= i < |r| && 0 <= j < |r| && i != j ensures cmp(r[i], r[j]) != 0 {
        if i == k {
          assert cmp(b[k], b[j]) != 0;
        } else if j == k {
          assert cmp(b[i], b[k]) != 0;
        }
      }
    }
  }

  /** Looking an element up right after entering it finds exactly that
      element (the same comparison and bucket are used both times). */
  lemma FoundAfterUpsert<T>(b: seq<T>, e: T, cmp: (T, T) -> int)
    requires cmp(e, e) == 0
    ensures Found(Upsert(b, e, cmp), e, cmp) == Some(e)
  {
    var k := IndexFrom(b, e, cmp, 0);
    IndexFromIsFirstMatch(b, e, cmp, 0);
    var r := Upsert(b, e, cmp);
    var j := if k == -1 then |b| else k;
    assert r[j] == e;
    assert forall i :: 0 <= i < j ==> r[i] == b[i];
    IndexFromIsFirstMatch(r, e, cmp, 0);
    var m := IndexFrom(r, e, cmp, 0);
    assert m != -1 && m <= j;
  }

  /** Entering an element with a different key does not change what a
      lookup finds. */
  lemma FoundUnaffectedByOtherKey<T(!new)>(b: seq<T>, x: T, e: T, cmp: (T, T) -> int)
    requires IsEquivalence(cmp)
    requires cmp(e, x) != 0
    ensures Found(Upsert(b, x, cmp), e, cmp) == Found(b, e, cmp)
  {
    var k := IndexFrom(b, x, cmp, 0);
    IndexFromIsFirstMatch(b, x, cmp, 0);
    IndexFromIsFirstMatch(b, e, cmp, 0);
    var r := Upsert(b, x, cmp);
    IndexFromIsFirstMatch(r, e, cmp, 0);
    if k == -1 {
      assert cmp(e, r[|b|]) != 0;
      if IndexFrom(b, e, cmp, 0) == -1 {
        assert forall i :: 0 <= i < |r| ==> cmp(e, r[i]) != 0;
      } else {
        assert forall i :: 0 <= i < |b| ==> r[i] == b[i];
        assert IndexFrom(r, e, cmp, 0) == IndexFrom(b, e, cmp, 0);
      }
    } else {
      assert cmp(e, b[k]) != 0;
      assert forall i :: 0 <= i < |r| ==> (cmp(e, r[i]) == 0 <==> cmp(e, b[i]) == 0);
      if IndexFrom(b, e, cmp, 0) != -1 {
        assert IndexFrom(r, e, cmp, 0) == IndexFrom(b, e, cmp, 0);
      }
    }
  }

  /** Replacing one bucket changes the total by the difference in its length. */
  lemma {:induction false} TotalLengthUpdate<T>(s: seq<seq<T>>, h: nat, b: seq<T>)
    requires h < |s|
    ensures TotalLength(s[h := b]) == TotalLength(s) - |s[h]| + |b|
  {
    var last := |s| - 1;
    if h < last {
      assert s[h := b][..last] == s[..last][h := b];
      TotalLengthUpdate(s[..last], h, b);
    } else {
      assert s[h := b][..last] == s[..last];
    }
  }

  /** A set whose buckets are all empty holds no elements. */
  lemma {:induction false} EmptyTotalLength<T>(s: seq<seq<T>>)
    requires forall i :: 0 <= i < |s| ==> s[i] == []
    ensures TotalLength(s) == 0
  {
    if |s| > 0 {
      EmptyTotalLength(s[..|s| - 1]);
    }
  }

  /** Entering an element adds one to the count when its key is new, and
      leaves the count alone when it replaces an element with that key. */
  lemma EnterCount<T>(s: seq<seq<T>>, h: nat, e: T, cmp: (T, T) -> int)
    requires h < |s|
    ensures TotalLength(s[h := Upsert(s[h], e, cmp)]) ==
              TotalLength(s) + (if Found(s[h], e, cmp).None? then 1 else 0)
  {
    TotalLengthUpdate(s, h, Upsert(s[h], e, cmp));
  }

  /** Entering an element keeps keys unique within every bucket. */
  lemma EnterKeepsKeysUnique<T(!new)>(s: seq<seq<T>>, h: nat, e: T, cmp: (T, T) -> int)
    requires IsEquivalence(cmp)
    requires h < |s|
    requires AllKeysUnique(s, cmp)
    ensures AllKeysUnique(s[h := Upsert(s[h], e, cmp)], cmp)
  {
    UpsertKeepsUnique(s[h], e, cmp);
  }

  /** One more bucket extends the concatenation by that bucket. */
  lemma ConcatStep<T>(s: seq<seq<T>>, i: int)
    requires 0 <= i < |s|
    ensures Concat(s[..i + 1]) == Concat(s[..i]) + s[i]
  {
    assert s[..i + 1][..i] == s[..i];
  }

  /** A log that holds the first `i` buckets of a traversal, extended by
      bucket `i`, holds the first `i + 1`. */
  lemma ConcatExtend<T>(log: seq<T>, s: seq<seq<T>>, i: int)
    requires 0 <= i < |s|
    ensures log + Concat(s[..i]) + s[i] == log + Concat(s[..i + 1])
  {
    ConcatStep(s, i);
    assert log + Concat(s[..i]) + s[i] == log + (Concat(s[..i]) + s[i]);
  }

  /** The count is the number of elements a full traversal visits. */
  lemma {:induction false} ConcatLength<T>(s: seq<seq<T>>)
    ensures |Concat(s)| == TotalLength(s)
  {
    if |s| > 0 {
      ConcatLength(s[..|s| - 1]);
    }
  }

  class HashSet<T(0,!new)> {
    /** Number of buckets (n_buckets), fixed at creation. */
    const nBuckets: nat
    const hash: (T, int) -> int
    const compare: (T, T) -> int
    const buckets: array<Vector<T>>
    /** Whether the buckets were given a free function. */
    ghost const hasFreeFn: bool
    /** The elements of each bucket, in bucket order. */
    ghost var Contents: seq<seq<T>>
    /** The elements the buckets' free function has been called on, in call
        order: each operation appends what its bucket's own log gained. */
    ghost var freed: seq<T>
    ghost var Repr: set<object>

    /** Each bucket is a valid vector holding the matching entry of
        `Contents`, with the set's free-function flag. */
    ghost predicate BucketsMirror()
      reads this`Contents, buckets, (set k | 0 <= k < buckets.Length :: buckets[k])`elems,
            (set k | 0 <= k < buckets.Length :: buckets[k])`logLength,
            (set k | 0 <= k < buckets.Length :: buckets[k])`allocLength,
            (set k | 0 <= k < buckets.Length :: buckets[k].elems)
    {
      && |Contents| == buckets.Length
      && forall k :: 0 <= k < buckets.Length ==>
           buckets[k].Valid() && buckets[k].Contents() == Contents[k] && buckets[k].hasFreeFn == hasFreeFn
    }

    ghost predicate Valid()
      reads this, Repr
    {
      && this in Repr && buckets in Repr
      && 0 < nBuckets && buckets.Length == nBuckets && |Contents| == nBuckets
      && (forall i :: 0 <= i < nBuckets ==>
            && buckets[i] in Repr
            && buckets[i].elems in Repr
            && buckets[i].elems as object != buckets)
      && BucketsMirror()
      && (forall i, j :: 0 <= i < nBuckets && 0 <= j < nBuckets && i != j ==>
            buckets[i] != buckets[j] && buckets[i].elems != buckets[j].elems)
      && Dispatched(Contents, hash)
    }

    /** HashSetNew: `numBuckets` empty buckets, each with room for 4. */
    constructor (elemSize: int, numBuckets: int, hash: (T, int) -> int, compare: (T, T) -> int, hasFreeFn: bool)
      requires elemSize > 0
      requires numBuckets > 0
      ensures Valid() && fresh(Repr)
      ensures nBuckets == numBuckets && this.hash == hash && this.compare == compare
      ensures this.hasFreeFn == hasFreeFn
      ensures Contents == seq(numBuckets, _ => []) && freed == []
      ensures forall i :: 0 <= i < nBuckets ==>
                buckets[i].elemSize == elemSize && buckets[i].growLength == 4 && buckets[i].allocLength == 4
    {
      var vs: seq<Vector<T>> := [];
      ghost var r: set<object> := {};
      var i := 0;
      while i < numBuckets
        invariant 0 <= i <= numBuckets && |vs| == i
        invariant fresh(r)
        invariant forall k :: 0 <= k < i ==>
                    && vs[k] in r && vs[k].elems in r
                    && vs[k].Valid() && vs[k].Contents() == [] && vs[k].hasFreeFn == hasFreeFn
                    && vs[k].elemSize == elemSize && vs[k].growLength == 4 && vs[k].allocLength == 4
        invariant forall k, l :: 0 <= k < l < i ==> vs[k] != vs[l] && vs[k].elems != vs[l].elems
      {
        var v := new Vector<T>(elemSize, hasFreeFn, 4);
        vs := vs + [v];
        r := r + {v, v.elems};
        i := i + 1;
      }
      buckets := new Vector<T>[numBuckets](k requires 0 <= k < numBuckets => vs[k]);
      nBuckets := numBuckets;
      this.hash := hash;
      this.compare := compare;
      this.hasFreeFn := hasFreeFn;
      Contents := seq(numBuckets, _ => []);
      freed := [];
      Repr := {this, buckets} + r;
    }

    /** HashSetCount: the sum of the bucket lengths. */
    method Count() returns (n: int)
      requires Valid()
      ensures n == TotalLength(Contents)
    {
      n := 0;
      var i := 0;
      while i < nBuckets
        invariant 0 <= i <= nBuckets
        invariant n == TotalLength(Contents[..i])
      {
        assert Contents[..i + 1][..i] == Contents[..i];
        n := n + buckets[i].Length();
        i := i + 1;
      }
      assert Contents[..nBuckets] == Contents;
    }

    /** HashSetLookup: the first element of the element's bucket that compares
        equal to it. When equal keys hash alike, "not found" means that no
        bucket holds the key. */
    method Lookup(e: T) returns (r: Option<T>)
      requires Valid()
      requires 0 <= hash(e, nBuckets) < nBuckets
      ensures r == Found(Contents[hash(e, nBuckets)], e, compare)
      ensures HashRespects(hash, compare, nBuckets) ==>
                (r.None? <==> forall i, k :: 0 <= i < |Contents| && 0 <= k < |Contents[i]| ==>
                                               compare(e, Contents[i][k]) != 0)
    {
      var i := hash(e, nBuckets);
      var k := buckets[i].Search(e, compare, 0, false);
      r := if k >= 0 then Some(buckets[i].Nth(k)) else None;
      FoundIsFirstMatch(Contents[i], e, compare);
    }

    /** HashSetEnter: an upsert into the element's bucket; no other bucket
        changes. The free function runs on the element that is replaced. */
    method Enter(e: T)
      requires Valid()
      requires 0 <= hash(e, nBuckets) < nBuckets
      modifies Repr
      ensures Valid() && fresh(Repr - old(Repr))
      ensures Contents == old(Contents)[hash(e, nBuckets) := Upsert(old(Contents)[hash(e, nBuckets)], e, compare)]
      ensures freed == old(freed) + match Found(old(Contents)[hash(e, nBuckets)], e, compare)
                                    case Some(x) => if hasFreeFn then [x] else []
                                    case None => []
    {
      var h := hash(e, nBuckets);
      var found := buckets[h].Search(e, compare, 0, false);
      if found < 0 {
        AppendToBucket(h, e);
      } else {
        ReplaceInBucket(h, found, e);
      }
    }

    /** The append half of HashSetEnter: `e` joins the end of bucket `h`. */
    method AppendToBucket(h: int, e: T)
      requires Valid()
      requires 0 <= h < nBuckets && hash(e, nBuckets) == h
      modifies Repr
      ensures Valid() && fresh(Repr - old(Repr))
      ensures Contents == old(Contents)[h := old(Contents)[h] + [e]]
      ensures freed == old(freed)
    {
      var bucket := buckets[h];
      ghost var before := bucket.freed;
      bucket.Append(e);
      Contents := Contents[h := bucket.Contents()];
      freed := freed + bucket.freed[|before|..];
      Repr := Repr + {bucket.elems};
      assert forall i :: 0 <= i < nBuckets && i != h ==> buckets[i].elems == old(buckets[i].elems);
    }

    /** The replace half of HashSetEnter: slot `k` of bucket `h` becomes `e`,
        after the free function has run on the element it held. */
    method ReplaceInBucket(h: int, k: int, e: T)
      requires Valid()
      requires 0 <= h < nBuckets && hash(e, nBuckets) == h && 0 <= k < |Contents[h]|
      modifies Repr
      ensures Valid() && Repr == old(Repr)
      ensures Contents == old(Contents)[h := old(Contents)[h][k := e]]
      ensures freed == old(freed) + if hasFreeFn then [old(Contents)[h][k]] else []
    {
      var bucket := buckets[h];
      ghost var before := bucket.freed;
      bucket.Replace(e, k);
      Contents := Contents[h := bucket.Contents()];
      freed := freed + bucket.freed[|before|..];
    }

    /** HashSetMap: the map function is called on every element, bucket by
        bucket and in index order within a bucket; `visits` lists them. */
    method Map() returns (visits: seq<T>)
      requires Valid()
      ensures visits == Concat(Contents)
    {
      visits := [];
      var i := 0;
      while i < nBuckets
        invariant 0 <= i <= nBuckets
        invariant visits == Concat(Contents[..i])
      {
        ConcatStep(Contents, i);
        var v := buckets[i].Map();
        visits := visits + v;
        i := i + 1;
      }
      assert Contents[..nBuckets] == Contents;
    }

    /** HashSetDispose: every bucket is disposed in order, so the free
        function runs on every element, bucket by bucket. The set may not be
        used afterwards. */
    method Dispose()
      requires Valid()
      modifies Repr
      ensures freed == old(freed) + (if hasFreeFn then Concat(old(Contents)) else [])
    {
      var i := 0;
      while i < nBuckets
        invariant 0 <= i <= nBuckets
        invariant hasFreeFn ==> freed == old(freed) + Concat(Contents[..i])
        invariant !hasFreeFn ==> freed == old(freed)
        invariant BucketsMirror()
        modifies this`freed, (set k | 0 <= k < nBuckets :: buckets[k])`freed
      {
        DisposeBucket(i);
        ConcatExtend(old(freed), Contents, i);
        i := i + 1;
      }
      assert Contents[..nBuckets] == Contents;
    }

    /** One step of HashSetDispose: bucket `i` runs the free function on
        each of its elements. */
    method DisposeBucket(i: int)
      requires 0 <= i < buckets.Length
      requires BucketsMirror()
      modifies this`freed, (buckets[i] as Vector<T>)`freed
      ensures BucketsMirror()
      ensures hasFreeFn ==> freed == old(freed) + Contents[i]
      ensures !hasFreeFn ==> freed == old(freed)
    {
      var v := buckets[i];
      ghost var before := v.freed;
      v.Dispose();
      freed := freed + v.freed[|before|..];
    }
  }
}
