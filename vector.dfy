/** A growable vector of fixed-size elements (vector.c).
 *
 *  The C vector stores opaque byte blocks of `elem_size` bytes; here every
 *  slot holds a value of the type parameter `T`. The optional free function
 *  is modelled by `hasFreeFn` together with the ghost log `freed`, which
 *  records, in order, every element the free function was called on.
 */
module Vectors {

  /** `IndexFrom(s, key, cmp, start)` is the index of the first element at or
      after `start` that `cmp` reports equal to `key`, or -1 if there is none. */
  function IndexFrom<T>(s: seq<T>, key: T, cmp: (T, T) -> int, start: nat): (r: int)
    requires start <= |s|
    ensures r == -1 || start <= r < |s|
    decreases |s| - start
  {
    if start == |s| then -1
    else if cmp(key, s[start]) == 0 then start
    else IndexFrom(s, key, cmp, start + 1)
  }

  /** The result of `IndexFrom` is the smallest matching index, and -1 means
      that nothing from `start` on matches. */
  lemma {:induction false} IndexFromIsFirstMatch<T>(s: seq<T>, key: T, cmp: (T, T) -> int, start: nat)
    requires start <= |s|
    ensures IndexFrom(s, key, cmp, start) == -1 <==>
              forall i :: start <= i < |s| ==> cmp(key, s[i]) != 0
    ensures IndexFrom(s, key, cmp, start) != -1 ==>
              cmp(key, s[IndexFrom(s, key, cmp, start)]) == 0 &&
              forall i :: start <= i < IndexFrom(s, key, cmp, start) ==> cmp(key, s[i]) != 0
    decreases |s| - start
  {
    if start < |s| && cmp(key, s[start]) != 0 {
      IndexFromIsFirstMatch(s, key, cmp, start + 1);
    }
  }

  /** Three-way comparison result reduced to its sign. */
  function Sign(c: int): (r: int)
    ensures r == -1 || r == 0 || r == 1
    ensures (r < 0 <==> c < 0) && (r == 0 <==> c == 0) && (r > 0 <==> c > 0)
  {
    if c < 0 then -1 else if c == 0 then 0 else 1
  }

  /** Swapping the arguments flips the sign of the comparison. */
  ghost predicate IsAntisymmetric<T(!new)>(cmp: (T, T) -> int) {
    forall a, b :: cmp(a, b) < 0 <==> cmp(b, a) > 0
  }

  /** "Compares at most" is transitive. */
  ghost predicate IsTransitive<T(!new)>(cmp: (T, T) -> int) {
    forall a, b, c :: cmp(a, b) <= 0 && cmp(b, c) <= 0 ==> cmp(a, c) <= 0
  }

  /** A comparison function that qsort and bsearch may rely on. */
  ghost predicate IsTotalPreorder<T(!new)>(cmp: (T, T) -> int) {
    IsAntisymmetric(cmp) && IsTransitive(cmp)
  }

  /** Every element is at most every later one. */
  ghost predicate Ordered<T>(s: seq<T>, cmp: (T, T) -> int) {
    forall i, j :: 0 <= i < j < |s| ==> cmp(s[i], s[j]) <= 0
  }

  /** The first `n` elements of `s` are in order, neighbour by neighbour. */
  ghost predicate OrderedPrefix<T>(s: seq<T>, n: int, cmp: (T, T) -> int) {
    forall k :: 0 < k < n && k < |s| ==> cmp(s[k - 1], s[k]) <= 0
  }

  /** What bsearch demands of its input: the elements that compare below `key`
      come first, then those equal to it, then those above it. */
  ghost predicate Partitioned<T>(s: seq<T>, key: T, cmp: (T, T) -> int) {
    forall i, j :: 0 <= i < j < |s| ==> Sign(cmp(key, s[j])) <= Sign(cmp(key, s[i]))
  }

  /** With a transitive comparison, neighbours in order means all pairs in order. */
  lemma {:induction false} NeighboursOrderedIsOrdered<T(!new)>(s: seq<T>, cmp: (T, T) -> int)
    requires IsTotalPreorder(cmp)
    requires OrderedPrefix(s, |s|, cmp)
    ensures Ordered(s, cmp)
  {
    if |s| > 1 {
      var t := s[..|s| - 1];
      assert OrderedPrefix(t, |t|, cmp) by {
        forall i | 0 < i < |t| ensures cmp(t[i - 1], t[i]) <= 0 {
          assert t[i - 1] == s[i - 1] && t[i] == s[i];
        }
      }
      NeighboursOrderedIsOrdered(t, cmp);
      forall i, j | 0 <= i < j < |s| ensures cmp(s[i], s[j]) <= 0 {
        if j < |s| - 1 {
          assert s[i] == t[i] && s[j] == t[j];
        } else if i < j - 1 {
          assert cmp(s[i], s[j - 1]) <= 0 by { assert s[i] == t[i] && s[j - 1] == t[j - 1]; }
        }
      }
    }
  }

  /** Contents ordered by a total preorder are partitioned around any key,
      so a sorted vector meets bsearch's precondition. */
  lemma OrderedIsPartitioned<T(!new)>(s: seq<T>, key: T, cmp: (T, T) -> int)
    requires IsTotalPreorder(cmp)
    requires Ordered(s, cmp)
    ensures Partitioned(s, key, cmp)
  {
    forall i, j | 0 <= i < j < |s| ensures Sign(cmp(key, s[j])) <= Sign(cmp(key, s[i])) {
      assert cmp(s[i], s[j]) <= 0;
      if cmp(key, s[i]) < 0 {
        assert cmp(s[i], key) > 0;
      }
    }
  }

  /** `s` with its elements at `j - 1` and `j` exchanged. */
  function Swapped<T>(s: seq<T>, j: int): (t: seq<T>)
    requires 0 < j < |s|
    ensures |t| == |s| && t[j - 1] == s[j] && t[j] == s[j - 1]
    ensures forall k :: 0 <= k < |s| && k != j - 1 && k != j ==> t[k] == s[k]
  {
    s[j - 1 := s[j]][j := s[j - 1]]
  }

  /** Exchanging two neighbours permutes a sequence. */
  lemma SwapKeepsMultiset<T>(s: seq<T>, j: int)
    requires 0 < j < |s|
    ensures multiset(Swapped(s, j)) == multiset(s)
  {
    assert Swapped(s, j) == s[..j - 1] + [s[j], s[j - 1]] + s[j + 1..];
    assert s == s[..j - 1] + [s[j - 1], s[j]] + s[j + 1..];
  }

  /** The state of an insertion step that is moving the element now at `j`
      leftwards: positions `0..i` are in order except, possibly, between
      `j - 1` and `j`, and the element left of the moving one is at most the
      one right of it. */
  ghost predicate Sifting<T>(s: seq<T>, j: int, i: int, cmp: (T, T) -> int) {
    && 0 <= j <= i < |s|
    && OrderedPrefix(s, j, cmp)
    && (forall k :: j < k <= i ==> cmp(s[k - 1], s[k]) <= 0)
    && (0 < j < i ==> cmp(s[j - 1], s[j + 1]) <= 0)
  }

  /** Exchanging the moving element with a larger left neighbour keeps the
      insertion step's state, one position further left. */
  lemma SiftStep<T(!new)>(s: seq<T>, j: int, i: int, cmp: (T, T) -> int)
    requires IsAntisymmetric(cmp)
    requires Sifting(s, j, i, cmp) && 0 < j && cmp(s[j - 1], s[j]) > 0
    ensures Sifting(Swapped(s, j), j - 1, i, cmp)
  {
    var t := Swapped(s, j);
    assert cmp(t[j - 1], t[j]) < 0;
    forall k | j - 1 < k <= i ensures cmp(t[k - 1], t[k]) <= 0 {
      if k == j + 1 {
        assert t[k - 1] == s[j - 1] && t[k] == s[j + 1];
      } else if k > j + 1 {
        assert t[k - 1] == s[k - 1] && t[k] == s[k];
      }
    }
    if 0 < j - 1 {
      assert cmp(s[j - 2], s[j - 1]) <= 0;
    }
  }

  /** Once the moving element has stopped, the first `i + 1` elements are in
      order. */
  lemma SiftDone<T>(s: seq<T>, j: int, i: int, cmp: (T, T) -> int)
    requires Sifting(s, j, i, cmp)
    requires j == 0 || cmp(s[j - 1], s[j]) <= 0
    ensures OrderedPrefix(s, i + 1, cmp)
  {
  }

  class Vector<T(0,!new)> {
    /** Size in bytes of one element; only checked, as the element type
        already fixes the size. */
    const elemSize: nat
    /** Slots added by every growth (grow_length). */
    const growLength: nat
    /** Whether a free function was supplied (FreeFunction != NULL). */
    const hasFreeFn: bool
    var elems: array<T>
    /** Elements in use (log_length). */
    var logLength: nat
    /** Slots allocated (alloc_length). */
    var allocLength: nat
    /** The elements the free function has been called on, in call order. */
    ghost var freed: seq<T>

    ghost predicate Valid()
      reads this`elems, this`logLength, this`allocLength
    {
      && 0 < elemSize
      && 0 < growLength <= allocLength
      && elems.Length == allocLength
      && logLength <= allocLength
    }

    /** The elements in use, in index order. */
    ghost function Contents(): seq<T>
      reads this`elems, this`logLength, this`allocLength, elems
      requires Valid()
    {
      elems[..logLength]
    }

    /** The objects this vector owns. */
    ghost function Repr(): set<object>
      reads this`elems
    {
      {this, elems}
    }

    /** VectorNew: an empty vector whose capacity is one growth step. */
    constructor (elemSize: int, hasFreeFn: bool, initialAllocation: int)
      requires elemSize > 0
      requires initialAllocation >= 0
      ensures Valid() && fresh(Repr())
      ensures Contents() == [] && freed == []
      ensures growLength == (if initialAllocation > 0 then initialAllocation else 4)
      ensures allocLength == growLength
      ensures this.elemSize == elemSize && this.hasFreeFn == hasFreeFn
    {
      var grow := if initialAllocation > 0 then initialAllocation else 4;
      this.elemSize := elemSize;
      this.hasFreeFn := hasFreeFn;
      growLength := grow;
      allocLength := grow;
      logLength := 0;
      elems := new T[grow];
      freed := [];
    }

    /** VectorLength. */
    function Length(): (n: nat)
      reads this`elems, this`logLength, this`allocLength, elems
      requires Valid()
      ensures n == |Contents()|
    {
      logLength
    }

    /** VectorNth: the element at `position`. */
    function Nth(position: int): (e: T)
      reads this`elems, this`logLength, this`allocLength, elems
      requires Valid()
      requires 0 <= position < logLength
      ensures e == Contents()[position]
    {
      elems[position]
    }

    /** VectorReplace: the free function runs on the old element, then the
        slot is overwritten; nothing else changes. */
    method Replace(e: T, position: int)
      requires Valid()
      requires 0 <= position < logLength
      modifies this`freed, elems
      ensures Valid()
      ensures Contents() == old(Contents())[position := e]
      ensures freed == old(freed) + (if hasFreeFn then [old(Contents())[position]] else [])
    {
      if hasFreeFn {
        freed := freed + [elems[position]];
      }
      elems[position] := e;
    }

    /** VectorGrow: reallocate with `growLength` more slots, keeping every
        slot of the old buffer. */
    method Grow()
      requires Valid()
      modifies this`elems, this`allocLength
      ensures Valid() && fresh(elems)
      ensures allocLength == old(allocLength) + growLength
      ensures elems[..old(allocLength)] == old(elems[..])
      ensures Contents() == old(Contents())
    {
      var newAllocLength := allocLength + growLength;
      var newElems := new T[newAllocLength];
      forall k | 0 <= k < allocLength {
        newElems[k] := elems[k];
      }
      allocLength := newAllocLength;
      elems := newElems;
    }

    /** VectorInsert: later elements move one slot right and `e` takes
        `position`; the free function is not called. */
    method Insert(e: T, position: int)
      requires Valid()
      requires 0 <= position <= logLength
      modifies this`elems, this`allocLength, this`logLength, elems
      ensures Valid()
      ensures Contents() == old(Contents())[..position] + [e] + old(Contents())[position..]
      ensures allocLength == old(if logLength == allocLength then allocLength + growLength else allocLength)
      ensures elems == old(elems) || fresh(elems)
    {
      if logLength == allocLength {
        Grow();
      }
      forall k | position < k <= logLength {
        elems[k] := elems[k - 1];
      }
      logLength := logLength + 1;
      elems[position] := e;
    }

    /** VectorAppend: `e` becomes the last element. */
    method Append(e: T)
      requires Valid()
      modifies this`elems, this`allocLength, this`logLength, elems
      ensures Valid()
      ensures Contents() == old(Contents()) + [e]
      ensures allocLength == old(if logLength == allocLength then allocLength + growLength else allocLength)
      ensures elems == old(elems) || fresh(elems)
    {
      if logLength == allocLength {
        Grow();
      }
      elems[logLength] := e;
      logLength := logLength + 1;
    }

    /** VectorDelete: the free function runs on the element, then later
        elements move one slot left; capacity is kept. */
    method Delete(position: int)
      requires Valid()
      requires 0 <= position < logLength
      modifies this`logLength, this`freed, elems
      ensures Valid()
      ensures Contents() == old(Contents())[..position] + old(Contents())[position + 1..]
      ensures freed == old(freed) + (if hasFreeFn then [old(Contents())[position]] else [])
    {
      if hasFreeFn {
        freed := freed + [elems[position]];
      }
      if logLength - position - 1 > 0 {
        forall k | position <= k < logLength - 1 {
          elems[k] := elems[k + 1];
        }
      }
      logLength := logLength - 1;
    }

    /** VectorSort: the elements are permuted into order. The body stands in
        for the C library's qsort, of which only the contract is modelled. */
    method Sort(compare: (T, T) -> int)
      requires Valid()
      requires IsTotalPreorder(compare)
      modifies elems
      ensures Valid()
      ensures multiset(Contents()) == multiset(old(Contents()))
      ensures Ordered(Contents(), compare)
    {
      var i := 0;
      while i < logLength
        invariant 0 <= i <= logLength
        invariant OrderedPrefix(elems[..logLength], i, compare)
        invariant multiset(elems[..logLength]) == multiset(old(elems[..logLength]))
      {
        SiftDown(i, compare);
        i := i + 1;
      }
      NeighboursOrderedIsOrdered(elems[..logLength], compare);
    }

    /** One insertion-sort step: moves the element at `i` left past every
        larger neighbour, so that the first `i + 1` elements are in order. */
    method SiftDown(i: nat, compare: (T, T) -> int)
      requires Valid()
      requires IsAntisymmetric(compare)
      requires i < logLength
      requires OrderedPrefix(elems[..logLength], i, compare)
      modifies elems
      ensures OrderedPrefix(elems[..logLength], i + 1, compare)
      ensures multiset(elems[..logLength]) == multiset(old(elems[..logLength]))
    {
      var j := i;
      while 0 < j && compare(elems[j - 1], elems[j]) > 0
        invariant Sifting(elems[..logLength], j, i, compare)
        invariant multiset(elems[..logLength]) == multiset(old(elems[..logLength]))
      {
        SiftStep(elems[..logLength], j, i, compare);
        SwapNeighbours(j);
        j := j - 1;
      }
      SiftDone(elems[..logLength], j, i, compare);
    }

    /** Exchanges the elements at `j - 1` and `j`. */
    method SwapNeighbours(j: nat)
      requires Valid()
      requires 0 < j < logLength
      modifies elems
      ensures elems[..logLength] == Swapped(old(elems[..logLength]), j)
      ensures multiset(elems[..logLength]) == multiset(old(elems[..logLength]))
    {
      ghost var before := elems[..logLength];
      SwapKeepsMultiset(before, j);
      elems[j - 1], elems[j] := elems[j], elems[j - 1];
      assert elems[..logLength] == Swapped(before, j);
    }

    /** VectorMap: the map function is called once per element in index
        order; `visits` lists the elements it is called on. */
    method Map() returns (visits: seq<T>)
      requires Valid()
      ensures visits == Contents()
    {
      visits := [];
      var i := 0;
      while i < logLength
        invariant 0 <= i <= logLength
        invariant visits == elems[..i]
      {
        visits := visits + [elems[i]];
        i := i + 1;
      }
    }

    /** VectorDispose: the free function, when present, runs on every element
        in index order. The storage is then released, after which the vector
        may not be used, so `Valid()` is not promised. */
    method Dispose()
      requires Valid()
      modifies this`freed
      ensures freed == old(freed) + (if hasFreeFn then old(Contents()) else [])
    {
      if hasFreeFn {
        var i := 0;
        while i < logLength
          invariant 0 <= i <= logLength
          invariant freed == old(freed) + elems[..i]
        {
          freed := freed + [elems[i]];
          i := i + 1;
        }
      }
    }

    /** bsearch over the elements in use: -1 or the index of some element
        equal to `key`. Only this contract of the C library routine is
        modelled. */
    method BinarySearch(key: T, compare: (T, T) -> int) returns (r: int)
      requires Valid()
      ensures r == -1 || (0 <= r < logLength && compare(key, Contents()[r]) == 0)
      ensures Partitioned(Contents(), key, compare) ==>
                (r == -1 <==> forall i :: 0 <= i < logLength ==> compare(key, Contents()[i]) != 0)
    {
      ghost var s := Contents();
      var lo, hi := 0, logLength;
      while lo < hi
        invariant 0 <= lo <= hi <= logLength
        invariant Partitioned(s, key, compare) ==>
                    (forall i :: 0 <= i < lo ==> compare(key, s[i]) > 0) &&
                    (forall i :: hi <= i < logLength ==> compare(key, s[i]) < 0)
      {
        var mid := lo + (hi - lo) / 2;
        var c := compare(key, elems[mid]);
        if c == 0 {
          return mid;
        } else if c > 0 {
          lo := mid + 1;
        } else {
          hi := mid;
        }
      }
      return -1;
    }

    /** VectorSearch: unsorted, the first match at or after `startIndex`;
        sorted, whatever bsearch finds over the whole vector. */
    method Search(key: T, compare: (T, T) -> int, startIndex: int, isSorted: bool) returns (r: int)
      requires Valid()
      requires 0 <= startIndex <= logLength
      ensures !isSorted ==> r == IndexFrom(Contents(), key, compare, startIndex)
      ensures isSorted ==> r == -1 || (0 <= r < logLength && compare(key, Contents()[r]) == 0)
      ensures isSorted && Partitioned(Contents(), key, compare) ==>
                (r == -1 <==> IndexFrom(Contents(), key, compare, 0) == -1)
    {
      if isSorted {
        r := BinarySearch(key, compare);
        IndexFromIsFirstMatch(Contents(), key, compare, 0);
      } else {
        var i := startIndex;
        while i < logLength
          invariant startIndex <= i <= logLength
          invariant IndexFrom(Contents(), key, compare, startIndex) == IndexFrom(Contents(), key, compare, i)
        {
          if compare(key, elems[i]) == 0 {
            break;
          }
          i := i + 1;
        }
        r := if i < logLength then i else -1;
      }
    }
  }
}
