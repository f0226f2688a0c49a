# Containers and algorithms from a C++ exercise collection, in Dafny

This project models the core of a collection of C++ exercises:

- three owning containers and smart pointers: `ArrayPtr`, `SimpleVector` and `StackVector`;
- the `ScopedPtr` smart pointer;
- four text and sequence algorithms: `SplitIntoWords`, `SplitIntoSentences`, `MergeSort` and the spiral traversal of a matrix;
- the vector statistics `AllCount`, `MaxMinCount`, `Average` and `CalculateMedian`, and `EffectiveCount`;
- sorting and printing a vector of cats through pointers, in `GetSortedCats` and `PrintCatPointerValues`.

There is one Dafny module per source file:

| module | file | source |
|---|---|---|
| `Wrappers` | wrappers.dfy | `Option` and `Result`, and the standard exception kinds |
| `ArrayPtrs` | array_ptr.dfy | codes/projects/Simplevector/array_ptr.h |
| `SimpleVectors` | simple_vector.dfy | codes/projects/Simplevector/simple_vector.h |
| `StackVectors` | stack_vector.dfy | codes/projects/array/stack_vector.h |
| `ScopedPtrs` | scoped_ptr.dfy | codes/test4.cpp |
| `Sequences` | sequences.dfy | shared `Flatten` and `Last` |
| `SplitWords` | split_words.dfy | codes/test2.cpp |
| `Sentences` | sentences.dfy | codes/test6.cpp |
| `MergeSorting` | merge_sort.dfy | codes/test3.cpp |
| `Spiral` | spiral.dfy | codes/test7.cpp |
| `Counting` | count.dfy | codes/training/count.cpp |
| `EffectiveCounting` | effective_count.dfy | codes/choozeAlgoritgm.cpp |
| `Cats` | cats.dfy | codes/indicatorAndCont.cpp |

## Modelling conventions

- **Heap and pointers.** Heap arrays are values: an `ArrayPtr` is `Option<seq<T>>`, where `None` is the null pointer. The memory of a fresh `new T[n]` is a caller-supplied `blank` value.
- **Exceptions.** A thrown exception becomes `Failure` of the matching `StdError`: `std::invalid_argument`, `std::out_of_range`, `std::overflow_error`, `std::underflow_error`, `std::domain_error` or `std::logic_error`.
- **Operations.** Mutating member functions return the new object. Operations that move from or swap two objects return both.
- **Self-assignment.** The copy and move assignments take an `aliased` flag. It stands for the source's `this != &other` test.
- **Iterators and pointers.** Iterator ranges are index pairs. The `const Cat*` pointers of `GetSortedCats` are indices into the cats vector.
- **Doubles.** `double` results are exact `real` values.

## Model

| member | source | states |
|---|---|---|
| ArrayPtrs.Null | codes/projects/Simplevector/array_ptr.h:11 | the default handle owns nothing and has no cells |
| ArrayPtrs.IsSet | codes/projects/Simplevector/array_ptr.h:59-61 | `operator bool` is true exactly when the handle is not null; a null handle has no cells |
| ArrayPtrs.Get | codes/projects/Simplevector/array_ptr.h:63-65 | the raw pointer is non-null exactly when the handle converts to true, and then it spans the owned cells |
| ArrayPtrs.Index | codes/projects/Simplevector/array_ptr.h:49-57 | reading `operator[]` on a non-null handle yields cell `index` of the owned array |
| ArrayPtrs.Allocate | codes/projects/Simplevector/array_ptr.h:13-15 | a size of zero leaves the pointer null; otherwise it owns exactly `size` fresh cells |
| ArrayPtrs.FromRaw | codes/projects/Simplevector/array_ptr.h:17-19 | adopting a raw array makes `Get` return that array |
| ArrayPtrs.MoveConstruct | codes/projects/Simplevector/array_ptr.h:25-28 | the new pointer takes over the array and the moved-from one is left null |
| ArrayPtrs.MoveAssign | codes/projects/Simplevector/array_ptr.h:30-37 | self-assignment changes nothing; otherwise the target takes the source's array and the source is left null |
| ArrayPtrs.Release | codes/projects/Simplevector/array_ptr.h:43-47 | returns the array that was owned and leaves the pointer null |
| ArrayPtrs.GetAt | codes/projects/Simplevector/array_ptr.h:67-70 | `Get(index)` yields the address of cell `index` when an array is owned and null otherwise |
| ArrayPtrs.Store | codes/projects/Simplevector/array_ptr.h:49-57 | writing through `operator[]` changes that one cell and no other |
| ArrayPtrs.Swap | codes/projects/Simplevector/array_ptr.h:72-74 | the two pointers exchange their arrays |
| ArrayPtrs.ReleaseThenAdopt | codes/projects/Simplevector/array_ptr.h:17-19 | releasing an array and adopting it again gives back the same pointer |
| ArrayPtrs.MoveThenRelease | codes/projects/Simplevector/array_ptr.h:25-47 | after a move, releasing the new pointer yields the original array |
| ArrayPtrs.SwapInvolution | codes/projects/Simplevector/array_ptr.h:72-74 | swapping twice restores both pointers |
| SimpleVectors.Empty | codes/projects/Simplevector/simple_vector.h:17 | the default vector is valid, with no elements and no capacity |
| SimpleVectors.WithSize | codes/projects/Simplevector/simple_vector.h:19-20 | `size` elements, every cell holding the blank that `new Type[size]` leaves, with capacity equal to size |
| SimpleVectors.Filled | codes/projects/Simplevector/simple_vector.h:22-25 | `size` copies of `value`, with capacity equal to size |
| SimpleVectors.FromList | codes/projects/Simplevector/simple_vector.h:27-30 | the elements are exactly the initializer list, with capacity equal to its length |
| SimpleVectors.Copy | codes/projects/Simplevector/simple_vector.h:32-35 | the copy has the same elements, and its capacity is the source's size |
| SimpleVectors.CopyAssign | codes/projects/Simplevector/simple_vector.h:37-43 | self-assignment changes nothing; otherwise the target holds the source's elements |
| SimpleVectors.MoveConstruct | codes/projects/Simplevector/simple_vector.h:45-48 | the new vector takes the elements and the moved-from vector is empty |
| SimpleVectors.MoveAssign | codes/projects/Simplevector/simple_vector.h:50-57 | self-assignment changes nothing; otherwise the elements are transferred and the source is empty |
| SimpleVectors.IsEmpty | codes/projects/Simplevector/simple_vector.h:67-69 | true exactly when the vector has no elements |
| SimpleVectors.Get | codes/projects/Simplevector/simple_vector.h:71-77 | reading `operator[]` inside the size yields that element |
| SimpleVectors.Set | codes/projects/Simplevector/simple_vector.h:71-77 | writing through `operator[]` replaces that element only |
| SimpleVectors.Clear | codes/projects/Simplevector/simple_vector.h:79-81 | no elements remain and the capacity is kept |
| SimpleVectors.PopBack | codes/projects/Simplevector/simple_vector.h:83-87 | an empty vector is unchanged; otherwise the last element is dropped and the capacity is kept |
| SimpleVectors.PushBack | codes/projects/Simplevector/simple_vector.h:89-95 | the value is appended; a full vector grows to a larger capacity (one for an empty buffer, double otherwise), and a vector with room keeps its capacity |
| SimpleVectors.Reserve | codes/projects/Simplevector/simple_vector.h:97-104 | the elements are kept; a request no larger than the capacity changes nothing, and a larger one sets the capacity to it |
| SimpleVectors.Insert | codes/projects/Simplevector/simple_vector.h:132-153 | the value lands at `index` with the elements before and after it unchanged in order; the returned position is `index`; capacity grows only when full |
| SimpleVectors.Erase | codes/projects/Simplevector/simple_vector.h:122-131 | the element at `index` is removed and the rest keep their order; the capacity is kept and the returned position is `index` |
| SimpleVectors.Swap | codes/projects/Simplevector/simple_vector.h:155-159 | the two vectors exchange elements and capacities |
| SimpleVectors.EqualRanges | codes/projects/Simplevector/simple_vector.h:167-170 | `std::equal` over two ranges of equal length is true exactly when they are the same sequence |
| SimpleVectors.LexCompareIsLexLess | codes/projects/Simplevector/simple_vector.h:177-180 | the element-by-element `lexicographical_compare` agrees with the declarative lexicographic order: a strictly smaller element at the first difference, or a proper prefix |
| SimpleVectors.Equal | codes/projects/Simplevector/simple_vector.h:167-170 | equal sizes and pairwise equal elements |
| SimpleVectors.NotEqual | codes/projects/Simplevector/simple_vector.h:172-175 | the element sequences differ |
| SimpleVectors.Less | codes/projects/Simplevector/simple_vector.h:177-180 | the lexicographic order on the elements |
| SimpleVectors.Greater | codes/projects/Simplevector/simple_vector.h:187-190 | `b < a` lexicographically |
| SimpleVectors.LessOrEqual | codes/projects/Simplevector/simple_vector.h:182-185 | not `b < a` |
| SimpleVectors.GreaterOrEqual | codes/projects/Simplevector/simple_vector.h:192-195 | not `a < b` |
| SimpleVectors.LexTrichotomy | codes/projects/Simplevector/simple_vector.h:177-180 | for an element order that is a strict total order, exactly one of less, equal and greater holds |
| SimpleVectors.DerivedComparisonsConsistent | codes/projects/Simplevector/simple_vector.h:167-195 | `<=` is `<` or `==`, `>=` is `>` or `==`, and the three basic comparisons are mutually exclusive and exhaustive |
| SimpleVectors.PushBackThenPopBack | codes/projects/Simplevector/simple_vector.h:83-95 | pushing a value and popping it restores the elements |
| SimpleVectors.InsertThenErase | codes/projects/Simplevector/simple_vector.h:122-153 | erasing at the position `Insert` returns restores the elements |
| SimpleVectors.CopyIsEqual | codes/projects/Simplevector/simple_vector.h:32-35 | a copy compares equal to its source |
| StackVectors.Size | codes/projects/array/stack_vector.h:46-48 | the element count never exceeds the underlying array |
| StackVectors.Capacity | codes/projects/array/stack_vector.h:51-53 | the capacity `N` bounds the size |
| StackVectors.Items | codes/projects/array/stack_vector.h:39-42 | `begin()`..`end()` spans exactly `Size()` elements, the first cells of the array in order |
| StackVectors.New | codes/projects/array/stack_vector.h:16-22 | `invalid_argument` exactly when the requested size exceeds the capacity; otherwise the requested size and capacity |
| StackVectors.At | codes/projects/array/stack_vector.h:24-37 | `out_of_range` exactly when the index is at or past the size; otherwise the element at the index |
| StackVectors.SetAt | codes/projects/array/stack_vector.h:24-37 | `out_of_range` exactly when the index is at or past the size; otherwise only that element changes |
| StackVectors.PushBack | codes/projects/array/stack_vector.h:56-62 | `overflow_error` exactly when full; otherwise the value is appended and the capacity is fixed |
| StackVectors.PopBack | codes/projects/array/stack_vector.h:66-72 | `underflow_error` exactly when empty; otherwise the returned value is the last element and the rest stay |
| StackVectors.PushBackThenPopBack | codes/projects/array/stack_vector.h:56-72 | popping right after a push returns the pushed value and the previous contents |
| StackVectors.FullAfterCapacityPushes | codes/projects/array/stack_vector.h:56-62 | filling the vector to capacity succeeds, and any further push fails with `overflow_error` |
| StackVectors.PushAll | codes/projects/array/stack_vector.h:56-62 | successful pushes append the values in order within a fixed capacity |
| ScopedPtrs.IsSet | codes/test4.cpp:32-34 | `operator bool` is true exactly when the held pointer is not null |
| ScopedPtrs.GetRawPtr | codes/test4.cpp:22-24 | the raw pointer is non-null exactly when the pointer converts to true, and it is all the holder holds |
| ScopedPtrs.Empty | codes/test4.cpp:12 | a default pointer owns nothing |
| ScopedPtrs.FromRaw | codes/test4.cpp:14 | the pointer owns the given object, and converts to true exactly when that object is non-null |
| ScopedPtrs.Release | codes/test4.cpp:26-30 | returns what was owned and leaves the pointer empty |
| ScopedPtrs.Deref | codes/test4.cpp:36-41 | `logic_error` exactly when empty; otherwise the owned object |
| ScopedPtrs.Arrow | codes/test4.cpp:43-48 | `logic_error` exactly when empty; otherwise the non-null raw pointer |
| ScopedPtrs.AdoptThenRelease | codes/test4.cpp:14-41 | releasing an adopted object gives it back, and dereferencing the emptied pointer throws |
| ScopedPtrs.DerefAgreesWithArrow | codes/test4.cpp:36-48 | `*` and `->` fail together and reach the same object |
| SplitWords.SplitIntoWords | codes/test2.cpp:9-27 | the words are exactly the maximal runs of non-space characters, in order |
| SplitWords.SplitIntoWordsView | codes/test2.cpp:36-51 | skipping spaces and cutting at the next space yields the same words as `SplitIntoWords` |
| SplitWords.NoWordsIffBlank | codes/test2.cpp:9-27 | there are no words exactly when the text is all spaces |
| SplitWords.WordsAreNonEmptyWithoutSpaces | codes/test2.cpp:9-27 | every word is non-empty and holds no space |
| SplitWords.FlattenWords | codes/test2.cpp:9-27 | joining the words gives back the text with its spaces removed |
| SplitWords.SkipSpacesIsDrop | codes/test2.cpp:38-47 | the `find_first_not_of(' ')` position is where the leading spaces end |
| Sentences.FindSentenceEnd | codes/test6.cpp:13-19 | the end lies after the first end-of-sentence token that is followed by a token that is not one, or at the range's end; no such boundary comes earlier, and a non-empty range yields a non-empty sentence |
| Sentences.SplitIntoSentences | codes/test6.cpp:22-34 | no tokens give no sentences and any tokens give at least one; every sentence is non-empty, so there are never more sentences than tokens |
| Sentences.SplitIsValid | codes/test6.cpp:22-34 | the sentences concatenate back to the tokens; each is non-empty and has no inner boundary; consecutive sentences meet at a boundary |
| Sentences.ValidSplitEnds | codes/test6.cpp:13-19 | every sentence but the last ends with punctuation, and every sentence but the first starts with a token that is not end punctuation |
| Sentences.ValidSplitIsUnique | codes/test6.cpp:22-34 | any splitting with those properties is the one `SplitIntoSentences` returns |
| Sentences.NoPunctuationIsOneSentence | codes/test6.cpp:13-34 | any non-empty stream whose end punctuation, if any, is only on its last token forms a single sentence |
| Sentences.PlainStreamIsOneSentence | codes/test6.cpp:117-119 | the test's stream without end punctuation is one sentence |
| Sentences.TrailingMarkIsOneSentence | codes/test6.cpp:121-123 | the test's stream ending in a sentence-ending `!` is one sentence |
| Sentences.DoubleMarkStaysTogether | codes/test6.cpp:125-130 | two consecutive end marks stay in the first sentence, and the text splits into two sentences |
| MergeSorting.Merge | codes/test3.cpp:29 | merging sorted ranges yields a sorted permutation of their union |
| MergeSorting.MergeSort | codes/test3.cpp:12-33 | the range ends up sorted and a permutation of its old contents, and nothing outside it changes |
| MergeSorting.Sort | codes/test3.cpp:12-33 | sorting the whole vector gives a sorted permutation of it |
| MergeSorting.SortedPermutationUnique | codes/test3.cpp:12-33 | two sorted permutations of the same elements are equal, so the sort's output is determined by its input's multiset |
| Spiral.Spiral | codes/test7.cpp:29-67 | the loop reads the matrix along the spiral cells; the output has one entry per cell; the first row comes first; a one-row matrix is read as that row |
| Spiral.WalkLayer | codes/test7.cpp:38-63 | one pass of the loop reads the outer ring of the current bounds and shrinks the bounds to the inner rectangle |
| Spiral.SpiralCellsExactCover | codes/test7.cpp:36-64 | the spiral visits every cell of the rectangle exactly once: no repeats, nothing outside, nothing missed |
| Spiral.LayerIsBorder | codes/test7.cpp:38-63 | one ring consists exactly of the cells on the border of the current bounds |
| Spiral.LayerDistinct | codes/test7.cpp:38-63 | no cell of a ring is read twice, including for single rows and single columns |
| Spiral.LayerInterior | codes/test7.cpp:38-63 | the shrunk bounds are exactly the cells strictly inside the border |
| Spiral.LayerCount | codes/test7.cpp:38-63 | a ring has as many cells as the rectangle minus its interior |
| Counting.AllCount | codes/training/count.cpp:11-13 | `count_if` never counts more elements than the vector has |
| Counting.AllCountAppend | codes/training/count.cpp:11-13 | the count over two concatenated ranges is the sum of their counts |
| Counting.AllCountExtremes | codes/training/count.cpp:11-13 | the count is zero exactly when no element matches, and the size exactly when every element does |
| Counting.AllCountComplement | codes/training/count.cpp:11-13 | the elements satisfying a condition plus those failing it make up the whole vector |
| Counting.AllCountPermutation | codes/training/count.cpp:11-13 | the count depends only on which elements there are, not their order |
| Counting.SampleCountEqualFive | codes/training/count.cpp:57-60 | the test vector holds three fives |
| Counting.SampleCountAboveThree | codes/training/count.cpp:61 | the test vector holds seven elements greater than 3 |
| Counting.SampleCountBetween | codes/training/count.cpp:62 | the test vector holds eight elements from 2 to 8 |
| Counting.MaxMinCount | codes/training/count.cpp:16-22 | `domain_error` exactly when empty (the test at lines 76-82); otherwise a pair of elements bounding every element from below and above |
| Counting.SampleMinMax | codes/training/count.cpp:64-67 | the test vector's minimum is 1 and its maximum is 9 |
| Counting.Average | codes/training/count.cpp:25-31 | `domain_error` exactly when empty; otherwise the value that times the size gives the sum |
| Counting.AverageBetweenMinMax | codes/training/count.cpp:16-31 | the average lies between the minimum and the maximum |
| Counting.SampleAverage | codes/training/count.cpp:69-70 | the test vector's average is 5.1 |
| Counting.MedianOfSorted | codes/training/count.cpp:36-44 | `domain_error` exactly when empty; otherwise the median is the mean of the elements at positions `(n-1)/2` and `n/2`, which coincide for odd `n`, and on sorted input it lies between those two elements |
| Counting.CalculateMedian | codes/training/count.cpp:34-45 | `domain_error` exactly when empty (the test at lines 91-96) |
| Counting.MedianSplitsInHalves | codes/training/count.cpp:34-45 | at least half the elements are no greater than the median and at least half no smaller; for an odd size the median is one of the elements |
| Counting.MedianIgnoresOrder | codes/training/count.cpp:34-45 | vectors with the same elements have the same median |
| Counting.MedianOfAnySortedPermutation | codes/training/count.cpp:34-45 | the median is read off any sorted arrangement of the elements |
| Counting.SampleMedian | codes/training/count.cpp:72-73 | the test vector's median is 5 |
| EffectiveCounting.FindIfGreater | codes/choozeAlgoritgm.cpp:16-18 | the linear search stops at the first element greater than `i`, or at the end |
| EffectiveCounting.UpperBound | codes/choozeAlgoritgm.cpp:19-22 | on a sorted vector the binary search finds the point separating elements no greater than `i` from those greater |
| EffectiveCounting.PartitionIsUnique | codes/choozeAlgoritgm.cpp:16-25 | there is only one such partition point |
| EffectiveCounting.EffectiveCount | codes/choozeAlgoritgm.cpp:11-26 | whichever search is chosen, the result is the number of elements no greater than `i` |
| EffectiveCounting.BothBranchesAgree | codes/choozeAlgoritgm.cpp:16-22 | the linear and binary branches return the same count |
| Cats.CatBreedToString | codes/indicatorAndCont.cpp:32-49 | every breed has a non-empty name |
| Cats.BreedNamesRoundTrip | codes/indicatorAndCont.cpp:32-49 | the breed names are distinct: reading a name back gives the breed, and only that breed's name does |
| Cats.GenderToString | codes/indicatorAndCont.cpp:56-59 | each gender prints as a non-empty word without a comma |
| Cats.GenderNamesDistinct | codes/indicatorAndCont.cpp:56-59 | the two genders print differently, so the printed gender identifies it |
| Cats.IntToStringRoundTrip | codes/indicatorAndCont.cpp:63 | the printed age reads back as the age |
| Cats.CatToString | codes/indicatorAndCont.cpp:61-65 | a printed cat is a non-empty `{...}` group |
| Cats.CatToStringInjective | codes/indicatorAndCont.cpp:61-65 | two cats whose names hold no comma print the same only if they are the same cat |
| Cats.InsertPointer | codes/indicatorAndCont.cpp:86-89 | inserting a pointer into an ordered run keeps it ordered by the comparator and adds exactly that pointer |
| Cats.SortPointers | codes/indicatorAndCont.cpp:86-89 | the sorted pointers are ordered by the comparator and are a permutation of the input pointers |
| Cats.GetSortedCats | codes/indicatorAndCont.cpp:69-92 | the result is ordered by the comparator and points at every cat; no cats give no pointers, and one cat gives a pointer to it |
| Cats.SortedCatsAreAPermutation | codes/indicatorAndCont.cpp:69-92 | every cat is pointed at exactly once |
| Cats.MainComparatorsAreStrictOrders | codes/indicatorAndCont.cpp:124-136 | comparing by (breed, name) and by (gender, breed) are strict orders, as `std::sort` needs |
| Cats.PrintCatPointerValues | codes/indicatorAndCont.cpp:95-111 | prints the cats pointed at, in order, separated by ", " and enclosed in braces; no pointers print `{}` |
| Cats.JoinLength | codes/indicatorAndCont.cpp:103-108 | the printed list is the cats' texts plus two characters per separator |

## Left out

- The search server in `codes/search stroke.cpp` and the other exercise files are not part of this model. The `tests.h` helpers are not part of it either.
- Console input and output, and `LOG_DURATION` timing, are left out. `PrintCatPointerValues` returns the text it would write.
- Destructors and deallocation are left out: values have no lifetime here.
- Addresses and pointer identity are left out. `ArrayPtr` and `ScopedPtr` hold values, and cat pointers are indices into the vector.
- `TestToken`'s copy and move counters in codes/test6.cpp are left out: they observe C++ value semantics, which a value model does not have.
- The random fill of the matrix in codes/test7.cpp is left out; `Spiral` takes any rectangular matrix.
- The unreachable `default` throw of `CatBreedToString` is left out, because the enumeration is closed.
- Counting.Average: the sum is an unbounded integer, so the source's `int` overflow in `accumulate` on huge inputs is not modelled.
- Counting.MedianSplitsInHalves: the even-size mean is taken over unbounded integers, so the `int` overflow of the two middle values' sum is not modelled. Double rounding is not modelled either: results are exact reals.
- SimpleVectors.WithSize: `new Type[size]` default-initialises, so for a scalar `Type` such as `int` the cells are indeterminate and need not agree. The model writes one uniform `blank` into every cell. The `SimpleVector<int>(5)` test in `codes/projects/Simplevector/tests.h` that expects zeros relies on a value the source does not promise.
- MergeSorting.MergeSort: the source is a template over any element type with `<`. The model fixes the elements to `int` with its usual order. `Merge`, `Sort` and `SortedPermutationUnique` do the same.
- Counting.CalculateMedian: states the empty case directly. Its value is given through `MedianOfAnySortedPermutation` and `MedianSplitsInHalves`, not in its own contract.
- SimpleVectors.Erase: `size_ - 1` on a `size_t` cannot wrap, because erasing needs an element to exist.
- EffectiveCounting.EffectiveCount: the `log2` estimate that picks a branch is the parameter `useFindIf`. Floating point is not modelled, and the result is the same for either choice. The estimate first computes `(i + 1)` and divides by `(n + 1)` in `int`. That is undefined behaviour at `n == -1` (division by zero) and at `i` or `n` equal to `INT_MAX` (overflow), where the source has no result. The model has no `n` and always returns the count.
- Cats.GetSortedCats: `std::sort` leaves the order among equivalent cats unspecified. The model sorts by stable insertion, and its contract says only "ordered and a permutation", which every correct sort satisfies.
- SimpleVectors.Get: `operator[]` with an index out of range is undefined behaviour in the source, so the model requires an index in range. `ArrayPtrs.Index` does the same.
- Spiral.Spiral: the source reads `matrix[0]` before any check, so an empty matrix is undefined behaviour. The model requires a non-empty rectangular matrix.
