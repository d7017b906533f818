# Generic vector and hash set

This project models two layers of a small C container library and proves properties of them in Dafny.

- **`vector.c`** is a growable vector of fixed-size elements. It keeps three counters:
  - `log_length`, the number of elements in use;
  - `alloc_length`, the number of slots allocated;
  - `grow_length`, the number of slots added at each growth. Growth is linear, not doubling.

  An optional free function is called on elements when they are replaced, deleted or disposed.
- **`hashset.c`** is a fixed array of `n_buckets` such vectors:
  - a caller-supplied hash function picks the bucket;
  - a caller-supplied comparison function decides which elements of a bucket are "the same";
  - entering an element is an upsert: replace the first equal element, otherwise append.

The project has three modules:

- `Vectors` (`vector.dfy`):
  - The class `Vector<T>` keeps the C fields: an `array<T>` buffer `elems`, plus `logLength`, `allocLength`, `growLength` and `elemSize`.
  - Its methods update those fields in place.
  - `memmove` becomes a simultaneous `forall` assignment, and `realloc` becomes a fresh array filled from the old one.
  - The free function is a flag `hasFreeFn` plus a ghost log `freed`. The log lists, in order, every element the free function was called on.
  - `Contents()` is the abstract value `elems[..logLength]`.
  - `IndexFrom` is the specification of the linear search.
- `HashSets` (`hashset.dfy`):
  - The class `HashSet<T>` owns an array of `Vector<T>` buckets.
  - Its ghost `Contents: seq<seq<T>>` mirrors the buckets.
  - Its ghost `freed` is read back from the buckets: each set operation appends exactly what the touched bucket's own free log gained during the call. Every entry therefore comes from a free call that a bucket made.
  - `Valid()` also states the dispatch invariant: every element lies in the bucket its hash selects.
  - `Upsert`, `Found`, `TotalLength` and `Concat` specify enter, lookup, count and traversal on values.
- `Scenarios` (`scenarios.dfy`) holds client code:
  - five appends that force one growth;
  - a set of integers into which one key is entered twice;
  - an enter followed by a lookup of the same element.

The callbacks are Dafny functions:
- the comparison is `(T, T) -> int`;
- the hash is `(T, int) -> int`, taking the element and the bucket count.

Dafny functions are deterministic, so "the hash is deterministic" holds by construction. `Sort` requires `IsTotalPreorder`, which is what the C library's `qsort` demands of a comparison. `BinarySearch` and the sorted path of `Search` need no precondition. Their contracts state what holds on any input, and they add the exact "-1 means no match" promise under the hypothesis `Partitioned`, which is `bsearch`'s precondition. Lemmas that need "compares equal" to behave as an equivalence take `IsEquivalence` as a precondition.

## Model

| member | source | states |
|---|---|---|
| Vectors.IndexFrom | vector.c:152-158 | The linear scan from `start` yields -1 or an index in `[start, length)`. |
| Vectors.IndexFromIsFirstMatch | vector.c:152-158 | The scan yields -1 exactly when no element from `start` on compares equal to the key. Otherwise its index compares equal and no earlier index from `start` does. |
| Vectors.NeighboursOrderedIsOrdered | vector.c:126-129 | With a total preorder, neighbours in order means every pair is in order. This is the sortedness that qsort promises. |
| Vectors.OrderedIsPartitioned | vector.c:148-151 | A vector ordered by a total preorder meets bsearch's precondition for any key. |
| Vectors.Vector.constructor | vector.c:7-20 | The vector starts empty with an empty free log. `growLength` is `initialAllocation` if that is positive and 4 otherwise, and `allocLength == growLength`. |
| Vectors.Vector.Length | vector.c:33-35 | Returns the number of elements in use. |
| Vectors.Vector.Nth | vector.c:37-41 | For `0 <= position < logLength`, returns the element at that position. |
| Vectors.Vector.Replace | vector.c:43-55 | Only slot `position` changes, and it becomes `e`. The free function runs once, on the old element, when one is present. |
| Vectors.Vector.Grow | vector.c:57-66 | Capacity rises by exactly `growLength`. The buffer is fresh and keeps every old slot, so the contents are unchanged. |
| Vectors.Vector.Insert | vector.c:69-92 | Contents become `old[..p] + [e] + old[p..]`. The vector grows only when full, and the free log is untouched. |
| Vectors.Vector.Append | vector.c:94-101 | Contents become `old + [e]`. The vector grows only when full, so `logLength <= allocLength` is kept. |
| Vectors.Vector.Delete | vector.c:104-124 | Contents become `old[..p] + old[p+1..]`. The free function runs once, on `old[p]`, and capacity is unchanged. |
| Vectors.Vector.Sort | vector.c:126-129 | The new contents are a permutation of the old ones and are ordered by `compare`. |
| Vectors.Vector.Map | vector.c:131-136 | The map function is applied to exactly the elements in use, in index order. |
| Vectors.Vector.Dispose | vector.c:22-31 | With a free function present, it runs once per element in index order. Without one, nothing is freed. |
| Vectors.Vector.BinarySearch | vector.c:148-151 | The result is -1 or the index of an element equal to the key. On partitioned input, -1 means no element is equal. |
| Vectors.Vector.Search | vector.c:140-162 | Unsorted: the first match at or after `startIndex`, or -1. Sorted: -1 or a match anywhere, ignoring `startIndex`. On partitioned input, -1 exactly when nothing matches. |
| HashSets.FoundIsFirstMatch | hashset.c:88-98 | Lookup in a bucket finds nothing exactly when no element compares equal. Otherwise it returns the first element that does. |
| HashSets.UpsertSemantics | hashset.c:76-81 | Enter appends an absent key and overwrites exactly the first slot holding a present one. |
| HashSets.UpsertKeepsUnique | hashset.c:74-81 | If keys in a bucket are unique under an equivalence, they stay unique after an enter. |
| HashSets.EnterKeepsKeysUnique | hashset.c:68-81 | Enter keeps keys unique within every bucket of the set. |
| HashSets.UpsertKeepsDispatched | hashset.c:68-81 | Entering into the bucket the hash selects keeps every element in its own bucket. |
| HashSets.FoundAfterUpsert | hashset.c:63-98 | After entering `e`, a lookup of `e` in its bucket returns `e` itself. |
| HashSets.FoundUnaffectedByOtherKey | hashset.c:63-98 | Entering an element with a different key (under an equivalence) does not change what a lookup finds. |
| HashSets.EnterCount | hashset.c:43-50 | Enter adds 1 to the count when the key is new and leaves the count unchanged when it replaces an element. |
| HashSets.EmptyTotalLength | hashset.c:24-27 | A set whose buckets are all empty has count 0, which is the count of a new set. |
| HashSets.ConcatLength | hashset.c:43-61 | The count equals the number of elements that a full traversal visits. |
| HashSets.HashSet.constructor | hashset.c:6-28 | The set has `numBuckets` empty buckets, each with `grow_length` and `alloc_length` equal to 4, and the given callbacks. |
| HashSets.HashSet.Count | hashset.c:43-50 | Returns the sum of the bucket lengths. |
| HashSets.HashSet.Lookup | hashset.c:88-98 | Returns the first element of bucket `hash(e)` that compares equal to `e`, or nothing. When equal keys hash alike, "nothing" means no bucket holds the key. |
| HashSets.HashSet.Enter | hashset.c:63-86 | Only bucket `hash(e)` changes, and it becomes the upsert of `e`. The set's free log gains what that bucket's `Replace` freed: the replaced element when a free function is present, and nothing on an append. The set stays valid. |
| HashSets.HashSet.AppendToBucket | hashset.c:78-79 | `e` is appended to its bucket. The set's log gains what the bucket's own log gained during `Append`, which is nothing. |
| HashSets.HashSet.ReplaceInBucket | hashset.c:80-81 | Slot `k` of the bucket becomes `e`. The set's log gains what the bucket's `Replace` freed, which is the old element when a free function is present. |
| HashSets.HashSet.Map | hashset.c:52-61 | The map function visits every element, bucket by bucket, in index order within each bucket. |
| HashSets.HashSet.Dispose | hashset.c:30-41 | The set's log gains what the buckets' own `Dispose` calls freed. With a free function present, that is every element of every bucket, bucket by bucket, in index order. |
| HashSets.HashSet.DisposeBucket | hashset.c:35-37 | The set's log gains what bucket `i`'s `Dispose` freed, which is exactly that bucket's elements. The other buckets still mirror `Contents`. |
| Scenarios.EnterThenLookUp | hashset.c:63-98 | A lookup right after entering `e` returns `e`. |

## Left out

- Byte layout is not modelled: `elem_size`, pointer arithmetic, `memcpy` and `memmove` on bytes. Slots hold typed values, and `elemSize` is only checked to be positive.
- Failure of `malloc` and `realloc` is not modelled (vector.c:18-19, vector.c:60-61, hashset.c:20-21). Allocation always succeeds.
- The `NULL` checks on element addresses and callbacks (vector.c:46, vector.c:73, vector.c:127, vector.c:144-145, hashset.c:11-12, hashset.c:53-54, hashset.c:64-65, hashset.c:89) have no counterpart, because Dafny values and functions cannot be null.
- Vectors.Vector.Nth: returns the element, not its address, so writes through the returned pointer are not modelled.
- Vectors.Vector.Map: the callback's effects on the elements and the `auxData` argument are not modelled. The model records which elements the callback receives and in what order. The same holds for HashSets.HashSet.Map and for the free function.
- Vectors.Vector.Sort: the body is an insertion sort standing in for the C library's `qsort`. Only the contract (permutation plus order) describes the source.
- Vectors.Vector.BinarySearch: the body stands in for `bsearch`. Like `bsearch`, the contract does not say which of several equal elements is found.
- Vectors.Vector.Dispose: releasing `elems` (vector.c:30) is not modelled. The contract does not promise `Valid()` afterwards, because the vector may not be used again.
- HashSets.HashSet.Dispose: releasing the bucket array (hashset.c:40) is not modelled. The contract states the set's combined log, which is read back from each bucket's own log. It does not restate each bucket's log.
- HashSets.HashSet.Lookup: returns the element found, not the address of its slot, so writes through that pointer are not modelled. The dispatch invariant in `Valid()` assumes that no stored element's key changes in place. A caller that changed a key through the pointer from `HashSetLookup` (hashset.c:97) or through a `VectorMap` callback (vector.c:134) could leave an element in a bucket its hash no longer selects. That case is outside the model.
- Vectors.Vector.Insert: elements are passed by value, so an `elemAddr` that points into the vector's own buffer is not modelled. In C, `VectorInsert(v, VectorNth(v, j), p)` with `j > p` copies the element that the `memmove` at vector.c:83 shifted into slot `j`. If the vector is full, the pointer is read after the `realloc` at vector.c:60 released the old buffer. The model always inserts the value `old[j]`.
- HashSets.HashSet.Enter: the same aliasing is left out. For `HashSetEnter(h, HashSetLookup(h, x))`, `VectorReplace` runs the free function (vector.c:51) on the very bytes it then copies back (vector.c:53). The model copies the value that was passed.
- HashSets.HashSet.Count: `n_total` is a C `int`, and its overflow past `INT_MAX` is not modelled. The same holds for `elemSize * alloc_length` and the other `int` arithmetic in vector.c.
- HashSets.HashSet.Enter: a hash result outside `[0, n_buckets)` makes the C code abort at an `assert`. The model makes the range a precondition instead.
- `Stack-reference.c` is not part of this model. It is a non-compiling sketch whose behaviour is not coherent.
- The headers `vector.h` and `hashset.h` are not part of this model.
