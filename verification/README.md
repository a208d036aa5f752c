# MyMathLibrary containers and sorts, modelled in Dafny

This project models the core of MyMathLibrary, a small C++ header library. It
covers five in-place sorts (`MyAlgo.h`) and the library's containers:

- the growable `Vector`;
- the fixed-size `Array`;
- the doubly linked `List` and `IntrusiveList`;
- the square `Matrix`;
- the N-dimensional `VectorND`.

Each is modelled in the form the C++ code has.

- **Sorts.** They are methods over a Dafny `array` and a half-open range `[lo, hi)`. They swap, shift and copy in place, as the pointer loops do. The elements may be of any type. Elements are ordered by an integer key function, which stands for the element type's `<`/`>`. With `Id` as the key, a sort is ordinary integer sorting.
- **Containers.** They are classes whose fields are the C++ members:
  - `Vector`: a buffer, a size and a capacity;
  - `Array`: a buffer and a size;
  - `List` and `IntrusiveList`: head, tail and size over heap `Node` objects;
  - `Matrix`: a size and an `Array`;
  - `VectorND`: an `Array`.

  Their methods update those fields. A ghost view (`Contents`, `Entries`, `Elements`) gives the elements as a sequence, and every contract is stated over that view.
- **Exceptions.** An operation that throws returns `Result` or `Status` instead. The `Error` datatype names each message the library throws.
- **Pure operations** are functions over sequences: the lexicographic order, C++ truncating division, the matrix product, transpose, dot and cross products. Each loop that computes one of these is proved equal to it.

Files:

| file | module | models |
|---|---|---|
| common.dfy | Common | errors, lexicographic order, truncating division, positional insert/erase, buffer loops |
| sort_spec.dfy | SortSpec | sortedness, stability (per-key subsequences), the merge of two runs |
| sorting.dfy | Sorting | selectionSort, insertionSort, bubbleSort, merge, mergeSort, partition, quickSort |
| vector.dfy | Vectors | `Vector<T>` |
| array.dfy | Arrays | `Array<T>` |
| list.dfy | Lists | `List<T>` |
| intrusive_list.dfy | IntrusiveLists | `IntrusiveList<T>` |
| matrix.dfy | Matrices | `Matrix<T>` |
| ndim_vector.dfy | VectorsND | `VectorND<T>` |

Two places where the code is unusual:

- `IntrusiveList::front` reads a member `data` that `Node` does not have. The model reads the payload `m_data`, which is evidently what was meant.
- `Vector::insert` and `erase` do nothing, without an error, on an out-of-range index, while `List` throws. The model keeps that difference.

## Model

| member | source | states |
|---|---|---|
| Common.LexLess | mylib/include/MyVector.h:260-268 | the loop's order: a proper prefix is smaller than the longer sequence, and nothing is smaller than itself |
| Common.LexLessDecided | mylib/include/MyVector.h:260-268 | `<` holds iff some position decides it: the sequences agree below it, and there either the left is smaller or the left has ended while the right goes on |
| Common.LexIrreflexive | mylib/include/MyArray.h:299-310 | no sequence is less than itself |
| Common.LexAsymmetric | mylib/include/MyArray.h:299-310 | `a < b` and `b < a` never both hold |
| Common.LexTransitive | mylib/include/MyArray.h:299-310 | `<` is transitive |
| Common.LexTotal | mylib/include/MyArray.h:299-310 | any two sequences are equal or ordered one way round |
| Common.LexNotGreater | mylib/include/MyArray.h:319-322 | `<=`, defined as `!(rhs < lhs)`, means less or equal |
| Common.LexSkipEqual | mylib/include/MyVector.h:260-268 | an equal pair at the front does not decide `<`: the comparison loop may move past it |
| Common.TruncDiv | mylib/include/MyVector.h:334-339 | C++ `/` on integers: the magnitude is the quotient of the magnitudes, and the result is non-negative when the signs agree and non-positive when they differ |
| Common.TruncDivRemainder | mylib/include/MyNDimVector.h:168-176 | C++ `/`: the remainder is smaller than the divisor in magnitude and has the dividend's sign |
| Common.ScaleThenDivide | mylib/include/MyVector.h:323-339 | multiplying by a non-zero scalar and dividing by it gives the value back |
| Common.TruncDivNegative | mylib/include/MyNDimVector.h:168-176 | -7 / 2 is -3 in C++, where Dafny's `/` gives -4 |
| Common.TruncDivOdd | mylib/include/MyNDimVector.h:168-176 | negating the dividend negates the truncated quotient |
| Common.Repeat | mylib/include/MyArray.h:159-164 | `n` copies of `v`: length `n`, every element `v` |
| Common.InsertAt | mylib/include/MyVector.h:92-101 | inserting at `i` makes the sequence one longer, with `x` at position `i` |
| Common.EraseAt | mylib/include/MyVector.h:105-112 | erasing makes the sequence one shorter |
| Common.InsertAtShifts | mylib/include/MyVector.h:92-101 | inserting at `i` keeps positions below `i`, puts `x` at `i` and moves the rest up one |
| Common.EraseAtShifts | mylib/include/MyVector.h:105-112 | erasing at `i` keeps positions below `i` and moves the rest down one |
| Common.EraseInserted | mylib/include/MyList.h:107-155 | erase(i) undoes insert(i, x) |
| Common.InsertErased | mylib/include/MyList.h:107-155 | re-inserting the erased element at its place restores the sequence |
| Common.InsertAtEnds | mylib/include/MyList.h:107-115 | insert at 0 is push_front and insert at size is push_back |
| Common.EraseAtEnds | mylib/include/MyList.h:132-140 | erase at 0 is pop_front and erase at size-1 is pop_back |
| Common.IndexOf | mylib/include/MyList.h:514-523 | the first occurrence: `s[i] == x` and `x` is absent before `i` |
| Common.Reverse | mylib/include/MyNDimVector.h:244-250 | the reversal has the same length, its first element is the last one and its last element the first one |
| Common.ReverseAgrees | mylib/include/MyNDimVector.h:244-250 | the index formula `s[n-1-i]` agrees with the recursive reversal (last element first) |
| Common.ReverseInvolution | mylib/include/MyNDimVector.h:244-250 | reversing twice is the identity and keeps the length |
| Common.FillRange | mylib/include/MyArray.h:147-151 | the fill loop sets exactly `[lo, hi)` to `v` |
| Common.CopyPrefix | mylib/include/MyVector.h:645-655 | the copy loop moves the first `n` elements to the new buffer and leaves the rest of it alone |
| Common.ShiftUp | mylib/include/MyVector.h:92-101 | insert's shift loop moves `[lo, hi)` up one slot and touches nothing else |
| Common.ShiftDown | mylib/include/MyVector.h:105-112 | erase's shift loop moves `(lo, hi)` down one slot and touches nothing else |
| SortSpec.SortedIffAdjacentSorted | mylib/include/testNDimVector.h:166-174 | the tests' adjacent-pair check holds iff every pair of positions is ordered |
| SortSpec.Filter | mylib/include/MyAlgo.h:30-43 | the elements with key `k`, in order (the per-key view stability is stated on) is no longer than the input |
| SortSpec.FilterConcat | mylib/include/MyAlgo.h:70-115 | the per-key view of a concatenation is the concatenation of the views |
| SortSpec.FilterCount | mylib/include/MyAlgo.h:30-43 | the per-key view holds every copy of each element with that key |
| SortSpec.FilterNonEmpty | mylib/include/MyAlgo.h:30-43 | the view for `k` is non-empty iff some element has key `k` |
| SortSpec.StableIsPermutation | mylib/include/MyAlgo.h:30-65 | a stable rearrangement is a permutation |
| SortSpec.StableTrans | mylib/include/MyAlgo.h:30-65 | stability composes across passes |
| SortSpec.SwapNeighboursStable | mylib/include/MyAlgo.h:48-65 | bubble sort's exchange of an adjacent pair with different keys is stable |
| SortSpec.RotateStable | mylib/include/MyAlgo.h:30-43 | insertion sort's move of a key left past strictly greater keys is stable |
| SortSpec.StableInContext | mylib/include/MyAlgo.h:118-127 | stably rearranging a subrange stably rearranges the whole array |
| SortSpec.StableSortedUnique | mylib/include/MyAlgo.h:30-127 | every stable sort of the same input has the same outcome |
| SortSpec.SortedPermutationUnique | mylib/include/MyAlgo.h:10-165 | on integers sorted by value, there is exactly one sorted permutation: every sort gives the same array |
| SortSpec.PermutationKeepsBounds | mylib/include/MyAlgo.h:132-165 | a permutation keeps "all keys at most b" and "all keys above b" |
| SortSpec.Merged | mylib/include/MyAlgo.h:70-115 | the merge of two runs has the total length |
| SortSpec.MergedFromIsMerged | mylib/include/MyAlgo.h:70-115 | the index-based merge of what remains after positions i and j is the merge of those remainders |
| SortSpec.MergedFromTakeLeft | mylib/include/MyAlgo.h:86-90 | when the left head's key is at most the right's, it is the next element written |
| SortSpec.MergedFromTakeRight | mylib/include/MyAlgo.h:91-95 | otherwise the right head is the next element written |
| SortSpec.MergedFromExhausted | mylib/include/MyAlgo.h:99-111 | once one run is used up, the rest of the merge is the other run's remainder |
| SortSpec.MergedPermutation | mylib/include/MyAlgo.h:70-115 | the merge is a permutation of the two runs together |
| SortSpec.MergedLowerBound | mylib/include/MyAlgo.h:70-115 | a lower bound on both runs bounds the merge |
| SortSpec.MergedSorted | mylib/include/MyAlgo.h:70-115 | merging two sorted runs gives a sorted sequence |
| SortSpec.MergedStable | mylib/include/MyAlgo.h:70-115 | for every key, the merge holds the left run's elements of that key and then the right run's (ties go left) |
| Sorting.Swap | mylib/include/MyAlgo.h:18-23 | std::swap exchanges the two positions and nothing else |
| Sorting.SwapInRange | mylib/include/MyAlgo.h:10-25 | a swap inside `[lo, hi)` permutes that range and leaves the rest alone |
| Sorting.SelectionSort | mylib/include/MyAlgo.h:10-25 | `[lo, hi)` ends sorted and is a permutation of its input; the rest of the array is unchanged |
| Sorting.MinIndex | mylib/include/MyAlgo.h:14-17 | the inner loop finds the first position of a least key in `[i, hi)` |
| Sorting.SelectStep | mylib/include/MyAlgo.h:12-23 | after outer step `i`, `[lo, i]` is sorted and holds the smallest keys |
| Sorting.InsertionSort | mylib/include/MyAlgo.h:30-43 | `[lo, hi)` ends sorted, stable (equal keys keep their order) and permuted; the rest is unchanged |
| Sorting.Inserted | mylib/include/MyAlgo.h:32-41 | the outer body's outcome: the key moves from `i` to `p` and `[p, i)` moves right one place, same length |
| Sorting.InsertOne | mylib/include/MyAlgo.h:32-41 | the shifting loop moves the key past exactly the strictly greater keys before it |
| Sorting.InsertStep | mylib/include/MyAlgo.h:32-41 | one outer step extends the sorted prefix by one and is stable |
| Sorting.InsertSorted | mylib/include/MyAlgo.h:36-40 | placing the key after the last key not above it keeps the prefix sorted |
| Sorting.InsertedAll | mylib/include/MyAlgo.h:30-43 | at loop exit the range is sorted and a permutation |
| Sorting.BubbleSort | mylib/include/MyAlgo.h:48-65 | `[lo, hi)` ends sorted, stable and permuted; the rest is unchanged |
| Sorting.BubblePass | mylib/include/MyAlgo.h:52-63 | one pass is stable and fixes one more final place; a pass with no swap leaves every neighbour pair in order |
| Sorting.PassStep | mylib/include/MyAlgo.h:54-62 | one comparison step carries the running maximum right and keeps the pass state |
| Sorting.SwapStep | mylib/include/MyAlgo.h:56-62 | swapping an inverted neighbour pair is stable and carries the maximum right |
| Sorting.BubbledAll | mylib/include/MyAlgo.h:64 | the loop ends sorted, so the result is a sorted permutation |
| Sorting.Merge | mylib/include/MyAlgo.h:70-115 | `[lo, hi)` becomes exactly the merge of the two old runs; the rest is unchanged |
| Sorting.MergeHeads | mylib/include/MyAlgo.h:83-97 | the first loop writes the merge's prefix until one buffer is used up |
| Sorting.CopyRun | mylib/include/MyAlgo.h:99-111 | the remainder loops copy the rest of one buffer into the next places |
| Sorting.MergeDone | mylib/include/MyAlgo.h:99-111 | once both loops end, the range holds the whole merge |
| Sorting.MergeSort | mylib/include/MyAlgo.h:118-127 | `[lo, hi)` ends sorted, stable and permuted; ranges of length at most 1 are untouched |
| Sorting.MergeSortGlue | mylib/include/MyAlgo.h:120-126 | sorting both halves and merging them sorts the range stably |
| Sorting.MergedRunsStable | mylib/include/MyAlgo.h:120-126 | merging two stably sorted runs stably sorts their concatenation |
| Sorting.Partition | mylib/include/MyAlgo.h:132-154 | returns `p` in `[lo, hi)` holding the old last element; keys before it are at most its key, keys after it exceed it; the range is a permutation |
| Sorting.PartitionLoop | mylib/include/MyAlgo.h:134-146 | the scan swaps every key at most the pivot's into the low part and keeps the pivot last |
| Sorting.PartitionStep | mylib/include/MyAlgo.h:138-147 | one scan step keeps the partition state |
| Sorting.PartitionEnd | mylib/include/MyAlgo.h:148-153 | the final swap puts the pivot between the two parts |
| Sorting.QuickSort | mylib/include/MyAlgo.h:157-165 | `[lo, hi)` ends sorted and permuted; an empty range is untouched; it terminates since both halves exclude the pivot |
| Sorting.QuickSortGlue | mylib/include/MyAlgo.h:159-164 | partitioning and then sorting both sides sorts the range |
| Sorting.AroundPivot | mylib/include/MyAlgo.h:159-164 | sorted low side, pivot, sorted high side is sorted and a permutation of the partitioned range |
| Sorting.SortedAroundPivot | mylib/include/MyAlgo.h:132-165 | keys at most the pivot's, the pivot, and keys above it, each side sorted, is sorted |
| Sorting.SelectionSortTestResult | mylib/include/testNDimVector.h:176-188 | any sorted permutation of the test's {64, 25, 12, 22, 11}, whichever sort produced it, is {11, 12, 22, 25, 64} |
| Vectors.Grown | mylib/include/MyVector.h:55-60 | the growth policy: capacity doubles, or becomes 1 from 0; always strictly more |
| Vectors.Resized | mylib/include/MyVector.h:116-126 | resize's contents: the requested length, the first `min(old, n)` elements kept, new slots zero |
| Vectors.AddPrefix | mylib/include/MyVector.h:301-306 | `+=`: the length of the left operand, sums over the common prefix, the rest of the left operand kept |
| Vectors.SubPrefix | mylib/include/MyVector.h:312-317 | `-=`: the length of the left operand, differences over the common prefix, the rest kept |
| Vectors.Scaled | mylib/include/MyVector.h:323-328 | `*=`: the same length, every element times the scalar |
| Vectors.Divided | mylib/include/MyVector.h:334-339 | `/=`: the same length, every element divided by the scalar as C++ truncates |
| Vectors.SubAfterAdd | mylib/include/MyVector.h:301-317 | `-=` after `+=` with the same vector restores the elements |
| Vectors.DivideAfterScale | mylib/include/MyVector.h:323-339 | `/=` by the scalar just used in `*=` restores the elements |
| Vectors.ResizedShape | mylib/include/MyVector.h:116-126 | resize has the requested length, keeps the first `min(old, n)` elements and zero-fills the rest; resizing to the same size changes nothing |
| Vectors.ResizeBack | mylib/include/MyVector.h:116-126 | growing and then shrinking back restores the elements |
| Vectors.ShiftedIsInsert | mylib/include/MyVector.h:92-101 | the picture insert's shift loop leaves behind is positional insertion |
| Vectors.ShiftedIsErase | mylib/include/MyVector.h:105-112 | the picture erase's shift loop leaves behind is positional erasure |
| Vectors.Vector.constructor | mylib/include/MyVector.h:12 | no elements and capacity 0 |
| Vectors.Vector.WithCapacity | mylib/include/MyVector.h:16-19 | no elements and the requested capacity |
| Vectors.Vector.Size | mylib/include/MyVector.h:138-141 | the number of elements |
| Vectors.Vector.Capacity | mylib/include/MyVector.h:145-148 | the buffer length, never below the size |
| Vectors.Vector.Empty | mylib/include/MyVector.h:152-155 | true iff there are no elements |
| Vectors.Vector.Get | mylib/include/MyVector.h:224-235 | unchecked `[]`: the element at the index, for an index below the size |
| Vectors.Vector.Front | mylib/include/MyVector.h:196-205 | unchecked front: the first element of a non-empty vector |
| Vectors.Vector.Back | mylib/include/MyVector.h:209-219 | unchecked back: the last element of a non-empty vector |
| Vectors.Vector.At | mylib/include/MyVector.h:167-182 | fails with "Index out of range" iff the index is at least the size, otherwise returns that element |
| Vectors.Vector.InternalResize | mylib/include/MyVector.h:645-655 | never shrinks the capacity and never changes size or elements; a larger request becomes the exact capacity |
| Vectors.Vector.PushBack | mylib/include/MyVector.h:55-60 | appends the value; when full the capacity becomes `Grown(capacity)`, otherwise it stays |
| Vectors.Vector.PopBack | mylib/include/MyVector.h:63-67 | drops the last element, or does nothing on an empty vector; the capacity stays |
| Vectors.Vector.Clear | mylib/include/MyVector.h:70-73 | no elements remain and the capacity stays |
| Vectors.Vector.Swap | mylib/include/MyVector.h:77-87 | exchanges buffers, sizes and capacities |
| Vectors.Vector.Insert | mylib/include/MyVector.h:92-101 | an index above the size changes nothing; otherwise the value is inserted before the index |
| Vectors.Vector.Erase | mylib/include/MyVector.h:105-112 | an index at or above the size changes nothing; otherwise that element is erased |
| Vectors.Vector.Resize | mylib/include/MyVector.h:116-126 | the elements become `Resized(old, n)`; the capacity becomes exactly `n` only if `n` exceeded it |
| Vectors.Vector.Reserve | mylib/include/MyVector.h:130-134 | grows the capacity to the request if larger and never changes the elements |
| Vectors.Vector.Assign | mylib/include/MyVector.h:187-192 | exactly `count` copies of the value; the capacity never shrinks, and stays as it was when `count` fits in it |
| Vectors.Vector.Equals | mylib/include/MyVector.h:240-247 | true iff same size and the same element at every position |
| Vectors.Vector.NotEquals | mylib/include/MyVector.h:252-255 | true iff the elements differ |
| Vectors.Vector.Less | mylib/include/MyVector.h:260-268 | exactly the lexicographic order, a proper prefix being smaller |
| Vectors.Vector.LessEq | mylib/include/MyVector.h:274-277 | less or equal |
| Vectors.Vector.Greater | mylib/include/MyVector.h:283-286 | the other vector is less |
| Vectors.Vector.GreaterEq | mylib/include/MyVector.h:292-295 | greater or equal |
| Vectors.Vector.AddAssign | mylib/include/MyVector.h:301-306 | element-wise sum over the common prefix, the rest kept |
| Vectors.Vector.SubAssign | mylib/include/MyVector.h:312-317 | element-wise difference over the common prefix, the rest kept |
| Vectors.Vector.MulAssign | mylib/include/MyVector.h:323-328 | every element times the scalar |
| Vectors.Vector.DivAssign | mylib/include/MyVector.h:334-339 | every element divided by the non-zero scalar, rounding toward zero |
| Vectors.SwapTwice | mylib/include/MyVector.h:77-87 | swapping twice restores both vectors' elements and capacities |
| Vectors.InsertExample | mylib/include/testVector.h:79-90 | [510, 0] with insert(1, -17) gives [510, -17, 0] |
| Vectors.EraseExample | mylib/include/testVector.h:96-107 | [0, 99, -99] with erase(1) gives [0, -99], as in the test; a further erase at an out-of-range index changes nothing, by erase's own `index >= m_size` guard (MyVector.h:107-108) rather than by anything in the test |
| Vectors.GrowthExample | mylib/include/testVector.h:45-55 | three push_backs onto an empty vector grow the capacity 0, 1, 2, 4 |
| Arrays.Array.constructor | mylib/include/MyArray.h:21 | no elements |
| Arrays.Array.OfSize | mylib/include/MyArray.h:28-31 | `n` zero elements |
| Arrays.Array.GetSize | mylib/include/MyArray.h:107-110 | the number of elements |
| Arrays.Array.Empty | mylib/include/MyArray.h:205-208 | true iff there are no elements |
| Arrays.Array.Get | mylib/include/MyArray.h:82-101 | fails with "Index out of range" iff the index is at least the size, otherwise reads that slot |
| Arrays.Array.Set | mylib/include/MyArray.h:82-101 | fails iff out of range (nothing changes); otherwise exactly that slot changes |
| Arrays.Array.Resize | mylib/include/MyArray.h:117-130 | the same size is a no-op; otherwise a fresh buffer of the new size that keeps the first `min(old, n)` elements |
| Arrays.Array.Clear | mylib/include/MyArray.h:136-141 | no elements remain |
| Arrays.Array.Fill | mylib/include/MyArray.h:147-151 | every element becomes the value and the size stays |
| Arrays.Array.Assign | mylib/include/MyArray.h:159-164 | exactly `count` copies of the value |
| Arrays.Array.Front | mylib/include/MyArray.h:172-177 | fails with "Array is empty" iff empty, otherwise element 0 |
| Arrays.Array.Back | mylib/include/MyArray.h:185-190 | fails with "Array is empty" iff empty, otherwise the last element |
| Arrays.Array.Swap | mylib/include/MyArray.h:214-222 | exchanges buffers and sizes |
| Arrays.Equal | mylib/include/MyArray.h:268-278 | true iff equal sizes and equal elements at every position |
| Arrays.NotEqual | mylib/include/MyArray.h:287-290 | true iff the elements differ |
| Arrays.Less | mylib/include/MyArray.h:299-310 | exactly the lexicographic order, a proper prefix being smaller |
| Arrays.LessEq | mylib/include/MyArray.h:319-322 | less or equal |
| Arrays.Greater | mylib/include/MyArray.h:331-334 | the right-hand array is less |
| Arrays.GreaterEq | mylib/include/MyArray.h:343-346 | greater or equal |
| Arrays.SwapTwice | mylib/include/MyArray.h:214-222 | swapping twice restores both arrays |
| Arrays.FillExample | mylib/include/testArray.h:98-107 | Array(6), fill(100), [2] = -200, [4] = 500 gives [100, 100, -200, 100, 500, 100]; reading [6] fails |
| Arrays.AssignExample | mylib/include/testArray.h:65-75 | assign(5, 42), [0] = -1, [4] = 5000 gives [-1, 42, 42, 42, 5000] |
| Arrays.FrontBackExample | mylib/include/testArray.h:113-124 | front 7 and back -89 of [7, -3, 12, -89]; both fail once cleared |
| Lists.Node.constructor | mylib/include/MyList.h:547-553 | a node holding the value with both links null |
| Lists.List.constructor | mylib/include/MyList.h:12 | an empty list |
| Lists.List.Size | mylib/include/MyList.h:98-100 | the number of elements |
| Lists.List.Empty | mylib/include/MyList.h:94-96 | true iff there are no elements |
| Lists.List.PushBack | mylib/include/MyList.h:18-29 | the elements become `old + [v]` |
| Lists.List.PushFront | mylib/include/MyList.h:31-42 | the elements become `[v] + old` |
| Lists.List.PopFront | mylib/include/MyList.h:44-55 | fails with "List is empty" on an empty list, otherwise drops the first element |
| Lists.List.PopBack | mylib/include/MyList.h:57-68 | fails with "List is empty" on an empty list, otherwise drops the last element |
| Lists.List.Front | mylib/include/MyList.h:70-80 | the first element, or "List is empty" |
| Lists.List.Back | mylib/include/MyList.h:82-92 | the last element, or "List is empty" |
| Lists.List.Clear | mylib/include/MyList.h:102-105 | popping the front until the head is null empties the list |
| Lists.List.NodeAt | mylib/include/MyList.h:118-121 | `index` steps along `next` from the head reach node `index` |
| Lists.List.LinkBefore | mylib/include/MyList.h:117-128 | linking a new node before an inner node inserts its value there |
| Lists.List.Unlink | mylib/include/MyList.h:142-153 | joining an inner node's neighbours erases its element |
| Lists.List.Insert | mylib/include/MyList.h:107-130 | fails with "Index out of range" iff `index > size`; otherwise the value is inserted before the index |
| Lists.List.Erase | mylib/include/MyList.h:132-155 | fails with "Index out of range" iff `index >= size`; otherwise that element is erased |
| Lists.List.RemoveNode | mylib/include/MyList.h:160-174 | taking a node out, through pop_front, pop_back or relinking, erases its element |
| Lists.List.RemoveAfterHead | mylib/include/MyList.h:164-173 | taking out a node other than the head, through pop_back at the tail or by joining its neighbours, erases its element; `erase` takes the same path at MyList.h:138-153 |
| Lists.List.Remove | mylib/include/MyList.h:157-180 | erases only the first occurrence; "Element not found" with the list unchanged when absent |
| Lists.List.At | mylib/include/MyList.h:182-198 | fails iff `index >= size`, otherwise the index-th element from the head |
| Lists.List.Find | mylib/include/MyList.h:514-523 | the position of the first occurrence, or none when absent |
| Lists.List.Forward | mylib/include/MyList.h:224-232 | walking `next` from the head visits the elements in order |
| Lists.List.Backward | mylib/include/MyList.h:234-242 | walking `prev` from the tail visits the reverse of the elements |
| Lists.List.ReverseInPlace | mylib/include/MyList.h:200-214 | swapping every node's links and then head and tail reverses the elements and keeps a well-formed chain |
| Lists.List.ReversedChainValid | mylib/include/MyList.h:200-214 | a chain whose every link has been flipped, read from the old tail, is a well-formed list |
| Lists.FrontBackExample | mylib/include/testList.h:24-37 | push_back 10, push_back 20, push_front 5: front 5, back 20; pop_back: back 10; pop_front: front 10 |
| Lists.ErrorExample | mylib/include/MyList.h:107-180 | inserting past size, erasing past the end and removing an absent value all fail and change nothing |
| Lists.ReverseExample | mylib/include/MyList.h:200-214 | [1, 2, 3] reverses to [3, 2, 1], and back again |
| IntrusiveLists.Node.constructor | mylib/include/MyIntrusiveList.h:12-30 | a node holding the value with both links null |
| IntrusiveLists.IntrusiveList.constructor | mylib/include/MyIntrusiveList.h:49 | an empty list |
| IntrusiveLists.IntrusiveList.GetSize | mylib/include/MyIntrusiveList.h:165-168 | the number of elements |
| IntrusiveLists.IntrusiveList.Empty | mylib/include/MyIntrusiveList.h:174-177 | true iff there are no elements |
| IntrusiveLists.IntrusiveList.PushBack | mylib/include/MyIntrusiveList.h:55-67 | the elements become `old + [v]` |
| IntrusiveLists.IntrusiveList.PushFront | mylib/include/MyIntrusiveList.h:73-85 | the elements become `[v] + old` |
| IntrusiveLists.IntrusiveList.PopFront | mylib/include/MyIntrusiveList.h:91-103 | fails on an empty list, otherwise drops the first element; head and tail are null exactly when it becomes empty |
| IntrusiveLists.IntrusiveList.PopBack | mylib/include/MyIntrusiveList.h:109-121 | fails on an empty list, otherwise drops the last element; head and tail are null exactly when it becomes empty |
| IntrusiveLists.IntrusiveList.Find | mylib/include/MyIntrusiveList.h:128-137 | null iff the value is absent, otherwise the node of its first occurrence |
| IntrusiveLists.IntrusiveList.Remove | mylib/include/MyIntrusiveList.h:143-159 | erases the first occurrence; a silent no-op when the value is absent |
| IntrusiveLists.IntrusiveList.Unlink | mylib/include/MyIntrusiveList.h:147-157 | relinking around a node, head or tail included, erases exactly its element |
| IntrusiveLists.IntrusiveList.MendBackward | mylib/include/MyIntrusiveList.h:152-157 | mending the backward link, or the tail, completes the erasure |
| IntrusiveLists.IntrusiveList.Print | mylib/include/MyIntrusiveList.h:417-426 | walking `next` from the head visits the elements in order |
| IntrusiveLists.IntrusiveList.ReversePrint | mylib/include/MyIntrusiveList.h:430-438 | walking `prev` from the tail visits the reverse of the elements |
| IntrusiveLists.IntrusiveList.Front | mylib/include/MyIntrusiveList.h:184-189 | the head's payload (read as `m_data`), or "List is empty" |
| IntrusiveLists.IntrusiveList.Back | mylib/include/MyIntrusiveList.h:196-201 | the tail's payload, or "List is empty" |
| IntrusiveLists.RemovePushed | mylib/include/MyIntrusiveList.h:55-159 | removing a freshly pushed value that was not there before restores the list |
| IntrusiveLists.RemoveExample | mylib/include/testIntrusiveList.h:109-122 | removing 8 from [0, 8, -5] gives [0, -5] with size 2; removing it again changes nothing |
| IntrusiveLists.PopExample | mylib/include/MyIntrusiveList.h:91-121 | pops on an empty list fail; popping the only element leaves head and tail null |
| Matrices.FlatIndex | mylib/include/MyMatrix.h:17-27 | entry (row, col) lives in slot `row*size+col`, always below `size*size` |
| Matrices.FlatSplit | mylib/include/MyMatrix.h:17-27 | every slot below `size*size` is the slot of the entry (p / size, p % size) |
| Matrices.FlatIndexInjective | mylib/include/MyMatrix.h:17-27 | two entries share a slot only if they are the same entry |
| Matrices.FlatIndexSplits | mylib/include/MyMatrix.h:17-27 | the slot of (i, j) divides back into i and j |
| Matrices.EntriesDetermine | mylib/include/MyMatrix.h:17-27 | two buffers with the same entries are equal |
| Matrices.EntryUpdate | mylib/include/MyMatrix.h:17-27 | writing entry (i, j) changes that entry and no other |
| Matrices.SumEntries | mylib/include/MyMatrix.h:37-44 | each entry of a sum is the sum of the entries |
| Matrices.SumCommutes | mylib/include/MyMatrix.h:37-44 | matrix addition commutes |
| Matrices.Transposed | mylib/include/MyMatrix.h:60-68 | the transpose has `n*n` entries |
| Matrices.TransposedEntries | mylib/include/MyMatrix.h:60-68 | `result(i, j) = this(j, i)` |
| Matrices.TransposeInvolution | mylib/include/MyMatrix.h:60-68 | transposing twice is the identity |
| Matrices.Product | mylib/include/MyMatrix.h:46-58 | the product has `n*n` entries |
| Matrices.ProductEntries | mylib/include/MyMatrix.h:46-58 | `result(i, j)` is the sum over k of `this(i, k) * other(k, j)` |
| Matrices.Identity | mylib/include/MyMatrix.h:46-58 | the identity has `n*n` entries |
| Matrices.IdentityEntries | mylib/include/MyMatrix.h:46-58 | the identity has ones exactly on the diagonal |
| Matrices.RowCol | mylib/include/MyMatrix.h:52-54 | the row-by-column sum is 0 when the left factor is the zero matrix |
| Matrices.RowColIdentity | mylib/include/MyMatrix.h:52-54 | against the identity, the first k terms of row i pick out `a(i, j)` when `j < k` |
| Matrices.ProductIdentity | mylib/include/MyMatrix.h:46-58 | the identity is a right unit of `*` |
| Matrices.AddInto | mylib/include/MyMatrix.h:40-42 | the addition loop writes the element-wise sum |
| Matrices.TransposeRow | mylib/include/MyMatrix.h:63-65 | one outer pass of transpose writes column i of the result and nothing else |
| Matrices.TransposeInto | mylib/include/MyMatrix.h:62-66 | transpose's loops write the transpose |
| Matrices.RowColStep | mylib/include/MyMatrix.h:53-54 | one more `+=` term extends the row-by-column sum |
| Matrices.ProductEntry | mylib/include/MyMatrix.h:51-55 | the innermost loop writes entry (i, j) of the product and nothing else |
| Matrices.ProductRow | mylib/include/MyMatrix.h:50-56 | the middle loop writes row i of the product and nothing else |
| Matrices.ProductInto | mylib/include/MyMatrix.h:49-57 | the three loops write the product |
| Matrices.Matrix.constructor | mylib/include/MyMatrix.h:15 | `size*size` zero entries |
| Matrices.Matrix.Size | mylib/include/MyMatrix.h:29-31 | the number of rows, whose square is the number of entries |
| Matrices.Matrix.Get | mylib/include/MyMatrix.h:17-27 | fails with "Index out of range" iff row or col is not below the size, otherwise entry (row, col) |
| Matrices.Matrix.Set | mylib/include/MyMatrix.h:17-27 | fails iff out of range (nothing changes), otherwise exactly entry (row, col) changes |
| Matrices.Matrix.Fill | mylib/include/MyMatrix.h:33-35 | every entry becomes the value |
| Matrices.Matrix.Add | mylib/include/MyMatrix.h:37-44 | fails with "Matrix sizes do not match" iff the sizes differ, otherwise a new matrix of the entry-wise sums |
| Matrices.Matrix.Mul | mylib/include/MyMatrix.h:46-58 | fails iff the sizes differ, otherwise a new matrix holding the product |
| Matrices.Matrix.Transpose | mylib/include/MyMatrix.h:60-68 | a new matrix holding the transpose |
| Matrices.TransposeTwice | mylib/include/MyMatrix.h:60-68 | transposing a matrix twice gives back its entries |
| Matrices.TwoByTwo | mylib/include/testMatrix.h:36-40 | four writes through `(row, col)` build the 2-by-2 matrix row by row |
| Matrices.TransposeExample | mylib/include/testMatrix.h:89-97 | [[1, 2], [3, 4]] transposes to [[1, 3], [2, 4]]; entry (2, 0) is out of range |
| Matrices.AddExample | mylib/include/testMatrix.h:34-44 | [[1, 2], [3, 4]] + [[5, 6], [7, 8]] = [[6, 8], [10, 12]] |
| Matrices.ProductExample | mylib/include/testMatrix.h:62-72 | [[1, 2], [3, 4]] * [[2, 0], [1, 2]] = [[4, 4], [10, 8]] |
| Matrices.MulExample | mylib/include/testMatrix.h:62-72 | the same product through `Mul`; a 3-by-3 factor is refused |
| VectorsND.DotProduct | mylib/include/MyNDimVector.h:68-76 | `dot(v, v)` is never negative, and it is 0 exactly when every component of `v` is 0 |
| VectorsND.DotScaled | mylib/include/MyNDimVector.h:68-76 | scaling one operand by `c` scales the dot product by `c` |
| VectorsND.Projected | mylib/include/MyNDimVector.h:258-265 | the projection onto `b` has the dimension of `b` |
| VectorsND.ProjectionKeepsMultiples | mylib/include/MyNDimVector.h:258-265 | projecting an integer multiple of `b` onto `b` gives that multiple back |
| VectorsND.DotSymmetric | mylib/include/MyNDimVector.h:68-76 | the dot product does not depend on operand order |
| VectorsND.DotDistributes | mylib/include/MyNDimVector.h:68-76 | the dot product distributes over vector addition |
| VectorsND.CrossProduct | mylib/include/MyNDimVector.h:84-93 | the cross product has three components |
| VectorsND.CrossAnticommutes | mylib/include/MyNDimVector.h:84-93 | swapping the operands negates the cross product |
| VectorsND.CrossSelf | mylib/include/MyNDimVector.h:84-93 | a vector crossed with itself is zero |
| VectorsND.DotOfThree | mylib/include/MyNDimVector.h:68-76 | the dot product of 3-D vectors written out |
| VectorsND.CrossPerpendicular | mylib/include/MyNDimVector.h:84-93 | the cross product is perpendicular to both operands |
| VectorsND.CopyValues | mylib/include/MyNDimVector.h:26-31 | the constructor's loop copies the values in order |
| VectorsND.PlusInto | mylib/include/MyNDimVector.h:127-129 | `result[i] = this[i] + other[i]` for every i |
| VectorsND.MinusInto | mylib/include/MyNDimVector.h:143-145 | `result[i] = this[i] - other[i]` for every i |
| VectorsND.ScaleInto | mylib/include/MyNDimVector.h:156-158 | `result[i] = this[i] * scalar` for every i |
| VectorsND.DivideInto | mylib/include/MyNDimVector.h:172-174 | `result[i] = this[i] / scalar`, truncating, for every i |
| VectorsND.ReverseInto | mylib/include/MyNDimVector.h:246-248 | `result[i] = this[size-1-i]` for every i |
| VectorsND.VectorND.constructor | mylib/include/MyNDimVector.h:20 | the zero vector of the given dimension |
| VectorsND.VectorND.FromValues | mylib/include/MyNDimVector.h:26-31 | the values in order, as many components as values |
| VectorsND.VectorND.Size | mylib/include/MyNDimVector.h:37-40 | the dimension |
| VectorsND.VectorND.Get | mylib/include/MyNDimVector.h:47-60 | the Array's bounds check: "Index out of range" iff the index is at least the dimension |
| VectorsND.VectorND.Set | mylib/include/MyNDimVector.h:47-60 | fails iff out of range (nothing changes), otherwise exactly that component changes |
| VectorsND.VectorND.Dot | mylib/include/MyNDimVector.h:68-76 | "Dimension mismatch" iff the dimensions differ, otherwise the sum of the componentwise products |
| VectorsND.VectorND.Cross | mylib/include/MyNDimVector.h:84-93 | fails unless both are 3-D, otherwise the cross product |
| VectorsND.VectorND.Add | mylib/include/MyNDimVector.h:123-131 | "Dimension mismatch" iff the dimensions differ, otherwise the element-wise sum |
| VectorsND.VectorND.Sub | mylib/include/MyNDimVector.h:139-147 | "Dimension mismatch" iff the dimensions differ, otherwise the element-wise difference |
| VectorsND.VectorND.Scale | mylib/include/MyNDimVector.h:154-160 | every component times the scalar, same dimension |
| VectorsND.VectorND.Divide | mylib/include/MyNDimVector.h:168-176 | "Cannot divide by zero" iff the scalar is 0, otherwise every component divided with truncation |
| VectorsND.VectorND.Reverse | mylib/include/MyNDimVector.h:244-250 | the components in reverse order |
| VectorsND.VectorND.Projection | mylib/include/MyNDimVector.h:258-265 | "Dimension mismatch" iff the dimensions differ, otherwise "Cannot project onto a zero vector" iff every component of `other` is 0, otherwise a new vector: `other` times the truncated quotient `dot(this, other) / dot(other, other)` |
| VectorsND.AddThenSub | mylib/include/MyNDimVector.h:123-147 | `(u + v) - v == u` |
| VectorsND.ReverseTwice | mylib/include/MyNDimVector.h:244-250 | reversing twice gives the vector back |
| VectorsND.DotCrossExample | mylib/include/testNDimVector.h:44-64 | {1, 2, 3} against {4, 5, 6}: dot 32, cross {-3, 6, -3}; a 2-D cross fails |
| VectorsND.SumDifferenceExample | mylib/include/testNDimVector.h:88-112 | {1, 2, 3} + {4, 5, 6} = {5, 7, 9}, and the difference is {-3, -3, -3} |
| VectorsND.ScaleReverseExample | mylib/include/testNDimVector.h:114-150 | {1, 2, 3} * 2 = {2, 4, 6}, and reversed it is {3, 2, 1} |
| VectorsND.DivideExample | mylib/include/testNDimVector.h:127-138 | {2, 4, 6} / 2 = {1, 2, 3}; {-7, 7} / 2 = {-3, 3}; division by 0 fails |
| VectorsND.ProjectionExample | mylib/include/testNDimVector.h:151-162 | {1, 2, 3} onto {4, 5, 6} is {0, 0, 0}, since 32 / 77 truncates to 0; {4, 5, 6} onto {1, 2, 3} is {2, 4, 6} |
| VectorsND.ProjectedValues | mylib/include/testNDimVector.h:151-162 | the norms 77 and 14 and the two projections of ProjectionExample |
| VectorsND.ProjectionErrorExample | mylib/include/MyNDimVector.h:258-265 | projecting onto {0, 0, 0} fails with the zero-vector error, and onto a 2-D vector with "Dimension mismatch" |

## Left out

- Iterators of every container, `begin`/`end`/`rbegin`/`rend` and `dataPointer`/`data` are left out. They are raw pointer arithmetic and hand out aliases to the buffer. `List::find` is modelled as returning a position, not an iterator.
- Copy constructors and copy assignment (`Vector`, `Array`) are left out, and so are destructors. Deep copies and `delete[]` are memory management. Buffers are fresh Dafny arrays, and freed nodes leave the ghost footprint. `List` has no copy operations of its own.
- Element types: `Vector`, `Array`, `Matrix` and `VectorND` are modelled over `int`, because their operations need `+`, `*`, `<` and `T()`. `List` and `IntrusiveList` are generic over any type with equality. The sorts are generic, with an integer key standing for `T`'s order.
- Sizes and capacities are unbounded `nat`. The overflow of `m_capacity * 2`, the `size_t`-to-`unsigned` narrowing in `Vector::resize` and the overflow of `size * size` are not modelled. Integer elements are unbounded too, so there is no overflow of `+`, `*` or the dot-product accumulator.
- Arrays.Array.Resize: new slots beyond the old size are left unspecified, as in the source, where `new T[n]` leaves them default-initialised. The contract promises only the kept prefix.
- Sorting.Merge: the temporary `left`/`right` buffers are immutable sequence snapshots rather than heap arrays. They are copied once and only read.
- `List::print`, `List::reversePrint`, `IntrusiveList::print`/`reversePrint` and the library's `operator<<` write text to a stream. They are modelled as the sequence of elements visited, without the formatting.
- `VectorND::norm` and `normalize` are left out because they compute in floating point and call `std::sqrt`. `projection` is modelled. With the integer components used here, its quotient truncates: {1, 2, 3} onto {4, 5, 6} gives 32 / 77 = 0, so the zero vector.
- Vectors.Vector.DivAssign requires a non-zero scalar, since the source divides without a check.
- `Vector::front`/`back`/`operator[]` do not check their index. They are modelled with a precondition, not a failure.
- IntrusiveLists.IntrusiveList.Front: `front` as written reads `m_head->data`, a member `Node` does not have, so it does not compile. The model reads `m_data`, the payload `back` reads, which is evidently what was meant.
- Matrix and VectorND loops write the result's buffer directly rather than through the bounds-checked `operator()`/`operator[]`. Every index they use is in range, which the loop invariants prove.
- The tests and the demo program only print. They serve only as example values, which the `...Example` members check. Matrix tests that call operations `Matrix` does not define (`-`, scalar `*`, `determinant`, `inverse`, `==`) are left out.
- `IntrusiveList::pop_front` throws `std::out_of_range`, while its `pop_back`, `front` and `back` throw a `const char*`; `List` throws `std::out_of_range`. All of them are the one `ListEmpty` error here.
