# Algorithm analysis teaching tool — verified model of its core

The repository is a Tkinter teaching application with two halves.

- **AnalisisDeAdO** times eight textbook sorting algorithms on generated or loaded
  integer datasets. It checks every result for order and gathers the times, sizes and
  errors per algorithm.
- **AnalisisDeAlgoritmos** estimates the time complexity of a Python snippet from its
  syntax tree. `ComplexityDetector` detects direct self-recursion, measures loop
  nesting, looks for keyword patterns and maps these signals to a Big-O label, a
  notation (a recurrence for recursive code) and a confidence. It also ships a
  generator of growing integer and string datasets.

This project models that core in Dafny and proves what the code promises.

- **Sorting algorithms.** Each of the eight is a method over an `array` copy of the
  input, or over `seq`s where the source builds new lists. Each is proved to return a
  sorted permutation of its input. The shared sorted-permutation specification is
  shown to have only one answer.
- **The analyzer.** `is_sorted` is proved equal to sortedness. Each measurement is
  proved to succeed exactly when the run returned a sorted list within the timeout.
  The two analysis loops are proved against predicates describing every entry of the
  result dictionary.
- **The dataset manager.** This covers:
  - the size and file-name validators;
  - the fifteen-size schedule;
  - the generated subsets;
  - the parsing of a file's comma-separated text, with its error cases and a
    format/parse round trip.
- **The dataset generator.** The integer and string datasets are modelled and their
  size sequence is proved to be increasing.
- **The complexity detector.** The Python syntax tree is a datatype (`SyntaxTree.Node`).
  - Each `ast.NodeVisitor` subclass becomes a class whose fields its `Visit` methods
    update. Each is proved against a recursive function over the tree.
  - Those functions are then related to paths in the tree. For example:
    - a function is flagged recursive iff a bare-name call to it occurs with it as the
      innermost enclosing `def`;
    - `max_depth` is the largest number of loops on any root-to-node path.
  - The two classification tables are functions, and lemmas state their shape.

Python's built-ins used by the core are defined in `Text`: `str.lower`, `in` on
strings, `str.strip`, `str.split`, `str.join`, `int()` and `str()` on integers.
`Ranges.Range` is `list(range(n))`.

Two behaviours of the program are worth stating up front.

- After a parse failure `analyze` returns complexity `'Error'`, the fixed notation
  `'Sintaxis inválida'` (not the parser's diagnostic), confidence 0, and no
  `is_recursive` key (`complexity_detector.py:23`). This is
  `ComplexityDetection.ParseError`, whose `isRecursive` is `None`.
- The last branch of the recursive table is taken when the call count is neither one
  nor two. `RecursiveAnalysis.RecursiveHasSelfCall` shows the count is at least one once
  recursion was detected. So `ComplexityDetection.ManyCallsRecurrence` states that this
  branch means three or more self-calls.

## Model

| member | source | states |
|---|---|---|
| SortSpec.SortedPermutationUnique | AnalisisDeAdO/sorting_algorithms.py:102-271 | two sorted lists with the same elements, counted with multiplicity, are equal, so every correct algorithm returns the same list |
| SortSpec.ShiftPermutation | AnalisisDeAdO/sorting_algorithms.py:235-237 | adding a constant to every element of two rearrangements of the same elements gives two rearrangements of the same elements |
| SortSpec.ShiftSortedRoundTrip | AnalisisDeAdO/sorting_algorithms.py:235-237 | shifting keeps a sorted list sorted, and shifting back by the opposite constant restores the list |
| SortSpec.Min | AnalisisDeAdO/sorting_algorithms.py:203 | Python's `min` of a non-empty list is an element of it and at most every element |
| SortSpec.Max | AnalisisDeAdO/sorting_algorithms.py:204 | Python's `max` of a non-empty list is an element of it and at least every element |
| ComparisonSorts.Copy | AnalisisDeAdO/sorting_algorithms.py:104 | `arr.copy()`: a fresh array holding the caller's list, so the caller's list is never changed |
| ComparisonSorts.Swap | AnalisisDeAdO/sorting_algorithms.py:110 | the tuple swap exchanges exactly the two positions |
| ComparisonSorts.BubblePass | AnalisisDeAdO/sorting_algorithms.py:107-111 | one pass over `arr[0..m)` rearranges it, leaves the rest alone and ends with its largest value at `m-1`; a pass without a swap finds the prefix already sorted |
| ComparisonSorts.BubbleStep | AnalisisDeAdO/sorting_algorithms.py:106-113 | after a pass the sorted, largest-value suffix grows by one position |
| ComparisonSorts.BubbleSort | AnalisisDeAdO/sorting_algorithms.py:102-114 | `bubble_sort`, with its early exit, returns a sorted permutation of its input |
| ComparisonSorts.MinIndex | AnalisisDeAdO/sorting_algorithms.py:122-125 | the inner scan finds the first position of the least value of `arr[i..]` |
| ComparisonSorts.SelectionStep | AnalisisDeAdO/sorting_algorithms.py:121-126 | swapping the least remaining value into place `i` extends the sorted prefix, keeps it no larger than the suffix, and rearranges the list |
| ComparisonSorts.SelectionSort | AnalisisDeAdO/sorting_algorithms.py:117-127 | `selection_sort` returns a sorted permutation of its input |
| ComparisonSorts.GapShift | AnalisisDeAdO/sorting_algorithms.py:138 | `arr[j + 1] = arr[j]` turns the array with its gap at `j + 1` into the array with its gap at `j`: `orig[j..i-1]` one place right, nothing else moved |
| ComparisonSorts.ShiftLarger | AnalisisDeAdO/sorting_algorithms.py:136-139 | the inner `while` loop returns the gap `h`: `orig[h..i-1]` has moved one place right and nothing else has moved; every value from `h` to `i - 1` exceeds `key`, and the value before `h`, if any, does not |
| ComparisonSorts.GapFillShape | AnalisisDeAdO/sorting_algorithms.py:140 | writing `key` into the gap `h` gives `orig[..h] + [key] + orig[h..i] + orig[i+1..]` |
| ComparisonSorts.InsertedSorted | AnalisisDeAdO/sorting_algorithms.py:137-140 | putting `key` where the loop stops, after the values not above it and before the values above it, keeps the prefix `..i+1` sorted |
| ComparisonSorts.InsertedElements | AnalisisDeAdO/sorting_algorithms.py:140 | moving `arr[i]` to `h` rearranges `arr[..i+1]` and leaves everything after `i` in place |
| ComparisonSorts.InsertAt | AnalisisDeAdO/sorting_algorithms.py:135-140 | inserting `arr[i]` into the sorted prefix leaves `arr[0..i]` sorted and holding exactly the values it held before, and nothing after position `i` changes; a sorted arrangement of given values is unique (`SortSpec.SortedPermutationUnique`), so this fixes the new state |
| ComparisonSorts.InsertionSort | AnalisisDeAdO/sorting_algorithms.py:130-141 | `insertion_sort` returns a sorted permutation of its input |
| MergeSorting.TakeSmaller | AnalisisDeAdO/sorting_algorithms.py:153-158 | one step of `merge` takes `left[i]` when `left[i] <= right[j]` (ties go to the left) and `right[j]` otherwise, keeping the output sorted and a rearrangement of the consumed prefixes |
| MergeSorting.MergeTail | AnalisisDeAdO/sorting_algorithms.py:159-160 | appending the sorted rest of a list that is no smaller than the output keeps the output sorted |
| MergeSorting.Merge | AnalisisDeAdO/sorting_algorithms.py:149-161 | `merge` returns a rearrangement of `left + right`, sorted when both inputs are |
| MergeSorting.MergeSortRecursive | AnalisisDeAdO/sorting_algorithms.py:163-169 | splitting at `len // 2`, sorting both halves and merging returns a sorted permutation |
| MergeSorting.MergeSort | AnalisisDeAdO/sorting_algorithms.py:144-171 | `merge_sort` returns a sorted permutation of its input |
| QuickSorting.PartitionStep | AnalisisDeAdO/sorting_algorithms.py:186-188 | a value at most the pivot is swapped to the end of the low side; the low side stays at most the pivot and the scanned rest above it |
| QuickSorting.Partition | AnalisisDeAdO/sorting_algorithms.py:182-190 | `partition` returns `p` in `[low, high]` with the old `arr[high]` at `p`, values at most it before, values above it after, and `arr[low..high]` rearranged with nothing outside it touched |
| QuickSorting.QuickCombine | AnalisisDeAdO/sorting_algorithms.py:177-180 | a partition followed by sorting both sides sorts the whole range and rearranges only it |
| QuickSorting.QuickSortRecursive | AnalisisDeAdO/sorting_algorithms.py:176-180 | `quick_sort_recursive(arr, low, high)` sorts `arr[low..high]` and changes nothing outside it |
| QuickSorting.QuickSort | AnalisisDeAdO/sorting_algorithms.py:174-194 | `quick_sort` returns a sorted permutation of its input |
| TreeSorting.Insert | AnalisisDeAdO/sorting_algorithms.py:78-85 | `insert` adds exactly one occurrence of the value to the tree |
| TreeSorting.InsertSearchTree | AnalisisDeAdO/sorting_algorithms.py:78-85 | inserting, smaller values to the left and the rest to the right, keeps a binary search tree one |
| TreeSorting.InorderElements | AnalisisDeAdO/sorting_algorithms.py:87-91 | `inorder` lists exactly the tree's values, each as often as it occurs |
| TreeSorting.InorderSorted | AnalisisDeAdO/sorting_algorithms.py:87-91 | the in-order walk of a search tree is sorted |
| TreeSorting.TreeSort | AnalisisDeAdO/sorting_algorithms.py:67-99 | `tree_sort` returns a sorted permutation of its input, `[]` for `[]` |
| BucketLayout.BucketsOrdered | AnalisisDeAdO/sorting_algorithms.py:214-222 | laying the values out bucket by bucket puts them in non-decreasing key order |
| BucketLayout.BucketsPermutation | AnalisisDeAdO/sorting_algorithms.py:214-222 | the bucket layout is a rearrangement of its input |
| BucketLayout.BucketAt | AnalisisDeAdO/sorting_algorithms.py:220-222 | position `q` of the layout holds the value of bucket `b` that the backward pass places there |
| BucketLayout.CountKeys | AnalisisDeAdO/sorting_algorithms.py:214-215 | the counting loop leaves `count[b]` equal to the number of values with key `b` |
| BucketLayout.PrefixSums | AnalisisDeAdO/sorting_algorithms.py:217-218 | the running-sum loop turns the counts into the end position of every bucket |
| BucketLayout.Place | AnalisisDeAdO/sorting_algorithms.py:220-222 | the backward placement loop writes every value to the slot the layout gives it |
| BucketLayout.CountingPass | AnalisisDeAdO/sorting_algorithms.py:211-222 | the three counting loops turn the input into its stable bucket layout |
| CountingSorting.OffsetLayoutSorted | AnalisisDeAdO/sorting_algorithms.py:211-222 | keyed by `value - min`, the stable layout is a sorted permutation |
| CountingSorting.CountingSort | AnalisisDeAdO/sorting_algorithms.py:197-224 | `counting_sort` raises the range error iff `max - min + 1 > 1000000`; otherwise it returns a sorted permutation (`[]` for `[]`), negative values included |
| RadixSorting.DigitOfQuotient | AnalisisDeAdO/sorting_algorithms.py:245-246 | `(x // exp) % 10` with `exp = 10^place` is the digit of `x` at that place |
| RadixSorting.QuotientPositive | AnalisisDeAdO/sorting_algorithms.py:263 | `max_val // exp > 0` holds iff `exp <= max_val`, so the passes run while there are digits left |
| RadixSorting.CountingSortForRadix | AnalisisDeAdO/sorting_algorithms.py:239-259 | `counting_sort_for_radix(arr, exp)` rewrites the array, in place, to its stable layout by the digit at `exp` |
| RadixSorting.RadixPassSorted | AnalisisDeAdO/sorting_algorithms.py:239-259 | a stable pass on digit `d` of a list ordered by its lowest `d` digits orders it by its lowest `d + 1` digits |
| RadixSorting.RadixPass | AnalisisDeAdO/sorting_algorithms.py:264-265 | one turn of the digit loop keeps the array a rearrangement and extends the ordered digits by one |
| RadixSorting.LowSortedIsSorted | AnalisisDeAdO/sorting_algorithms.py:261-265 | once `exp` exceeds `max_val`, ordering by the low digits is ordering by value |
| RadixSorting.ShiftBack | AnalisisDeAdO/sorting_algorithms.py:235-269 | sorting the values shifted by `-min` and shifting back sorts the original values |
| RadixSorting.RadixSort | AnalisisDeAdO/sorting_algorithms.py:227-271 | `radix_sort` returns a sorted permutation of its input, negative values included |
| SortingAlgorithms.NameInjective | AnalisisDeAdO/sorting_algorithms.py:276-285 | different algorithms have different names |
| SortingAlgorithms.GetAvailableAlgorithms | AnalisisDeAdO/sorting_algorithms.py:289-300 | eight names, among them the name of every algorithm |
| SortingAlgorithms.AvailableDistinct | AnalisisDeAdO/sorting_algorithms.py:289-300 | the eight names are pairwise different |
| SortingAlgorithms.GetSortingFunction | AnalisisDeAdO/sorting_algorithms.py:274-286 | an algorithm is found exactly for the names in `get_available_algorithms()`, and it is the one carrying that name; any other name gives `None` |
| SortingAlgorithms.LookupName | AnalisisDeAdO/sorting_algorithms.py:274-286 | looking up an algorithm's name finds that algorithm |
| SortingAlgorithms.Sort | AnalisisDeAdO/sorting_algorithms.py:67-271 | when no recursion or memory limit is hit, calling the found function raises only for Counting Sort on a range over 1000000, and otherwise returns a sorted permutation |
| SortingAnalysis.AdjacentSorted | AnalisisDeAdO/sorting_analyzer.py:54-59 | every adjacent pair in order is the same as the whole list in order |
| SortingAnalysis.IsSorted | AnalisisDeAdO/sorting_analyzer.py:54-59 | `is_sorted(arr)` is true iff `arr` is sorted (so for empty and one-element lists) |
| SortingAnalysis.ExceptionMessage | AnalisisDeAdO/sorting_analyzer.py:44-51 | every caught exception gives a non-empty message |
| SortingAnalysis.MeasureSortingTime | AnalisisDeAdO/sorting_analyzer.py:11-51 | success iff the call returned a sorted list within the timeout, iff the message is empty; the timeout is checked before the order; a raised exception reports time `0.0` and its message |
| SortingAnalysis.RunAlgorithm | AnalisisDeAdO/sorting_analyzer.py:29 | when no recursion or memory limit is hit, running an available algorithm raises `ValueError` exactly in the Counting Sort range case and otherwise returns a sorted permutation |
| SortingAnalysis.MeasureAlgorithm | AnalisisDeAdO/sorting_analyzer.py:27-51 | when no recursion or memory limit is hit, measuring one of the eight algorithms succeeds iff it took no longer than the timeout and is not Counting Sort on too wide a range; "not sorted" is never reported |
| SortingAnalysis.FirstUnknownIs | AnalisisDeAdO/sorting_analyzer.py:82-84 | every name before the first unknown one has complexity information and the one at it has none |
| SortingAnalysis.ReportShape | AnalisisDeAdO/sorting_analyzer.py:86-119 | each algorithm's entry has as many times as sizes and at most one error; `success` iff no error iff every dataset succeeded; a successful entry has one size per dataset |
| SortingAnalysis.AnalyzeAlgorithm | AnalisisDeAdO/sorting_analyzer.py:86-111 | the inner loop collects the sizes and times of the leading successful datasets, in order, then stops at the first failure and records its index, size and message; it counts one attempt per dataset tried |
| SortingAnalysis.CountStep | AnalisisDeAdO/sorting_analyzer.py:79-91 | the test counter stays within `total_tests`, and reaches it when every dataset succeeds |
| SortingAnalysis.AnalyzeMultipleAlgorithms | AnalisisDeAdO/sorting_analyzer.py:62-121 | `KeyError` naming the first name without complexity information iff there is one; otherwise one entry per name as the inner loop describes, the last occurrence of a repeated name winning; `current_test` never exceeds `len(names) * len(datasets)` and equals it when everything succeeds |
| SortingAnalysis.AnalyzeSingleDataset | AnalisisDeAdO/sorting_analyzer.py:124-163 | the same `KeyError` case; otherwise one entry per name, with `size = len(dataset)`, the measurement's time and success, and `error` absent iff `success` |
| DatasetManagement.ValidateSize | AnalisisDeAdO/dataset_manager.py:14-20 | valid iff `0 < size <= 1000000`, iff the message is empty; one message for `size <= 0` and one for sizes over the limit |
| DatasetManagement.ValidateFilePath | AnalisisDeAdO/dataset_manager.py:109-115 | valid iff the path is non-empty and ends with `.txt`; the empty path gets its own message, checked first |
| DatasetManagement.GetSubsetSizes | AnalisisDeAdO/dataset_manager.py:95-106 | fifteen sizes; entry `i` is `(m // 15) * (i + 1)` and the last is `m` |
| DatasetManagement.ScheduleOrdered | AnalisisDeAdO/dataset_manager.py:98-104 | for `m >= 0` the schedule is non-decreasing, never negative and never above `m` |
| DatasetManagement.ScheduleSteps | AnalisisDeAdO/dataset_manager.py:35-40 | consecutive sizes differ by `m // 15`, and the last step also takes the remainder `m % 15` |
| DatasetManagement.GenerateSubsets | AnalisisDeAdO/dataset_manager.py:23-52 | fifteen lists, each an arrangement of `list(range(size))` for its size of the schedule, exactly that list when `ordered`, and of that length when `m >= 0` |
| DatasetManagement.Items | AnalisisDeAdO/dataset_manager.py:71-73 | the kept items are never empty, and there are no more of them than pieces |
| DatasetManagement.LoadFromContent | AnalisisDeAdO/dataset_manager.py:69-87 | the parsing loop returns what reading the content as a whole gives |
| DatasetManagement.ParseItemsSuccess | AnalisisDeAdO/dataset_manager.py:71-77 | the items parse iff every one is an integer, and then the numbers are their values in file order |
| DatasetManagement.ParseItemsFailure | AnalisisDeAdO/dataset_manager.py:74-77 | a failure names the first item that is not an integer |
| DatasetManagement.LoadContentCases | AnalisisDeAdO/dataset_manager.py:67-87 | a non-integer item fails with that item; otherwise no items gives the empty-file error, more than 1000000 the size error, and anything else the numbers in order |
| DatasetManagement.ParseFormatted | AnalisisDeAdO/dataset_manager.py:71-77 | the decimal forms of numbers parse back to those numbers |
| DatasetManagement.LoadRoundTrip | AnalisisDeAdO/dataset_manager.py:67-87 | reading `",".join(str(x) for x in numbers)` gives `numbers` back, for 1 to 1000000 numbers |
| DatasetGeneration.SizesIncrease | AnalisisDeAlgoritmos/dataset_generator.py:22-26 | the sizes `1, 2, 5, 12, …` (`s' = 2s + s // 2`) strictly increase |
| DatasetGeneration.GenerateIntDataset | AnalisisDeAlgoritmos/dataset_generator.py:19-27 | `max_size` lists (none for a non-positive count), list `i` being `[0..s_i)` |
| DatasetGeneration.StringShape | AnalisisDeAlgoritmos/dataset_generator.py:45-50 | every generated string is non-empty, lower-case and starts with `'a'` |
| DatasetGeneration.GenerateStringDataset | AnalisisDeAlgoritmos/dataset_generator.py:41-54 | `max_size` lists with the sizes of the integer dataset, string `j` of each being `StringAt(j)`: `j % 10 + 1` letters, the one at position `p` being `ascii_lowercase[(j * p) % 26]` |
| Text.StripUnchanged | AnalisisDeAdO/dataset_manager.py:72 | `strip` leaves a string alone iff it neither starts nor ends with whitespace |
| Text.SplitJoin | AnalisisDeAdO/dataset_manager.py:71 | splitting a join of separator-free pieces on the separator gives the pieces back |
| Text.ParseIntToString | AnalisisDeAdO/dataset_manager.py:75 | `int(str(x)) == x` |
| RecursionDetection.RecursionDetector.constructor | AnalisisDeAlgoritmos/complexity_detector.py:43-46 | a detector starts outside every function with no recursive names |
| RecursionDetection.RecursionDetector.Visit | AnalisisDeAlgoritmos/complexity_detector.py:48-63 | visiting a node adds exactly the names the specification function flags below it and restores the enclosing function name afterwards |
| RecursionDetection.RecursionDetector.GenericVisit | AnalisisDeAlgoritmos/complexity_detector.py:52-59 | `generic_visit` adds the names flagged in every child, in order, and keeps the enclosing name |
| RecursionDetection.DetectRecursion | AnalisisDeAlgoritmos/complexity_detector.py:60-63 | the recursive names are exactly the names `f` of some call `f(...)` whose innermost enclosing `def` is `f` |
| RecursionDetection.FlaggedIffSelfCallAt | AnalisisDeAlgoritmos/complexity_detector.py:48-58 | a name is flagged iff the tree has a path to a call of it in a context whose current function is that name |
| RecursionDetection.ContextIsEnclosingName | AnalisisDeAlgoritmos/complexity_detector.py:48-53 | the current function the visitor tracks at a node is the name of the innermost `def` around it, so it is restored after a nested `def` |
| RecursionDetection.FlaggedIffInnermostSelfCall | AnalisisDeAlgoritmos/complexity_detector.py:48-63 | a name is recursive iff some bare-name call to it has it as the innermost enclosing `def` |
| RecursionDetection.ModuleLevelCallsNotFlagged | AnalisisDeAlgoritmos/complexity_detector.py:56 | a node with no `def` above it has no enclosing function, so a module-level call is never flagged |
| LoopAnalysis.AnalyzeIterator | AnalisisDeAlgoritmos/complexity_detector.py:102-122 | `range(...)` gives `range`, dependent iff its first argument is a `BinOp` or a `Name`; `len(...)` gives `len`; a bare name gives `variable`, not dependent; anything else `unknown`, not dependent |
| LoopAnalysis.LoopAnalyzer.constructor | AnalisisDeAlgoritmos/complexity_detector.py:71-75 | an analyzer starts at depth 0 with no records and no dependent loop |
| LoopAnalysis.LoopAnalyzer.Visit | AnalisisDeAlgoritmos/complexity_detector.py:77-100 | visiting a node restores `current_depth`, raises `max_depth` to the current depth plus the node's loop nesting, appends the node's loop records in visiting order, and sets the dependent flag iff a dependent loop lies below |
| LoopAnalysis.LoopAnalyzer.GenericVisit | AnalisisDeAlgoritmos/complexity_detector.py:93-99 | `generic_visit` does the same for all children in order |
| LoopAnalysis.AnalyzeLoops | AnalisisDeAlgoritmos/complexity_detector.py:125-131 | the summary is the tree's loop nesting, its records from depth 0 and its dependent flag |
| LoopAnalysis.MaxDepthIsDeepestNesting | AnalisisDeAlgoritmos/complexity_detector.py:77-100 | `max_depth` bounds the number of loops on every root-to-node path and equals it on some path |
| LoopAnalysis.DependentIffDependentRecord | AnalisisDeAlgoritmos/complexity_detector.py:84-91 | the dependent flag is set iff some record is at depth above 1 and has a dependent iterator |
| LoopAnalysis.RecordDepthsBounded | AnalisisDeAlgoritmos/complexity_detector.py:78-88 | every record's depth is above the starting depth and at most the starting depth plus the nesting |
| PatternDetection.ContainsAny | AnalisisDeAlgoritmos/complexity_detector.py:138-140 | `any(w in s for w in ws)` holds iff some word of the list occurs in the string |
| PatternDetection.DivisionDetector.constructor | AnalisisDeAlgoritmos/complexity_detector.py:147-148 | a division detector starts with no division found |
| PatternDetection.DivisionDetector.Visit | AnalisisDeAlgoritmos/complexity_detector.py:150-153 | visiting a node sets the flag iff a `//` or `/` operation lies below it, and never clears it |
| PatternDetection.DivisionDetector.GenericVisit | AnalisisDeAlgoritmos/complexity_detector.py:153 | `generic_visit` does the same for all children |
| PatternDetection.Detected | AnalisisDeAlgoritmos/complexity_detector.py:133-159 | `sorting` iff one of the five sorting words occurs in the lower-cased code; `binary_search` iff `binary` occurs, or `while` occurs and `//` occurs; `dynamic_programming` iff `dp` or `memo`; `logarithmic` iff `//` or `log`; `divide_conquer` iff some node of the tree is a `/` or `//` when the code is recursive, and iff one of the four divide words occurs in the code as written otherwise |
| PatternDetection.DetectPatterns | AnalisisDeAlgoritmos/complexity_detector.py:133-159 | `detect_patterns` returns these flags |
| PatternDetection.HasDivisionIffSomeDivision | AnalisisDeAlgoritmos/complexity_detector.py:150-153 | the division flag holds iff some path leads to a `BinOp` with `FloorDiv` or `Div` |
| PatternDetection.RecursiveDivideConquerFromTree | AnalisisDeAlgoritmos/complexity_detector.py:145-157 | in recursive code `divide_conquer` holds iff the tree has a division, whatever the text says |
| PatternDetection.CaseInsensitivePatterns | AnalisisDeAlgoritmos/complexity_detector.py:135-142 | lower-casing the code first changes none of the keyword flags tested on the lower-cased text |
| PatternDetection.FloorDivisionPatterns | AnalisisDeAlgoritmos/complexity_detector.py:139-142 | code containing `//` is `logarithmic`, and code containing `//2` also `divide_conquer` by text |
| RecursiveAnalysis.WalkCount | AnalisisDeAlgoritmos/complexity_detector.py:177-181 | the `ast.walk` worklist loop counts exactly the matching nodes of the subtree |
| RecursiveAnalysis.CountUnfold | AnalisisDeAlgoritmos/complexity_detector.py:178-181 | the count of a subtree is the root's own match plus the counts of its children |
| RecursiveAnalysis.RecursiveAnalyzer.constructor | AnalisisDeAlgoritmos/complexity_detector.py:165-170 | an analyzer starts with no calls counted and no loop found |
| RecursiveAnalysis.RecursiveAnalyzer.Visit | AnalisisDeAlgoritmos/complexity_detector.py:172-193 | visiting a node raises the call count to the largest self-call count of a recursive `def` below it and sets both loop flags iff such a `def` contains a loop |
| RecursiveAnalysis.RecursiveAnalyzer.GenericVisit | AnalisisDeAlgoritmos/complexity_detector.py:190-193 | `generic_visit` does the same for all children |
| RecursiveAnalysis.FlaggedIsCounted | AnalisisDeAlgoritmos/complexity_detector.py:172-183 | a name the recursion detector flags has a counted self-call |
| RecursiveAnalysis.RecursiveHasSelfCall | AnalisisDeAlgoritmos/complexity_detector.py:172-183 | once recursion is detected the largest self-call count is at least 1 |
| ComplexityDetection.RecursiveComplexity | AnalisisDeAlgoritmos/complexity_detector.py:198-229 | the recursive table always reports `is_recursive`, confidence 0.85, one of four labels and a `T(n) = …` recurrence |
| ComplexityDetection.RecursiveComplexityCases | AnalisisDeAlgoritmos/complexity_detector.py:198-222 | which combinations of halving pattern, call count, linear work and loop give each of the four labels, in both directions |
| ComplexityDetection.RecursiveNotation | AnalisisDeAlgoritmos/complexity_detector.py:198-222 | the recurrence mentions `n/2` iff a divide-and-conquer or binary-search pattern was detected |
| ComplexityDetection.ManyCallsRecurrence | AnalisisDeAlgoritmos/complexity_detector.py:213-215 | a halving recursion with neither one nor two calls has at least three, and is `O(n log n)` with recurrence `T(n) = kT(n/2) + O(n)` |
| ComplexityDetection.IterativeComplexity | AnalisisDeAlgoritmos/complexity_detector.py:231-282 | the iterative table reports not recursive, notation equal to the label, `O(n^d)` with 0.75 from depth 4 on, and confidence between 0.75 and 0.95 |
| ComplexityDetection.IterativeConfidenceMonotone | AnalisisDeAlgoritmos/complexity_detector.py:239-282 | deeper nesting never gives a higher confidence, whatever the patterns |
| ComplexityDetection.IterativeNotationDeterminesDepth | AnalisisDeAlgoritmos/complexity_detector.py:239-282 | different depths never give the same notation |
| ComplexityDetection.Classify | AnalisisDeAlgoritmos/complexity_detector.py:18-38 | a parse failure gives exactly the error result with confidence 0 and no `is_recursive`; otherwise `is_recursive` says whether a recursive function was found, and the confidence is positive |
| ComplexityDetection.StraightLineIsConstant | AnalisisDeAlgoritmos/complexity_detector.py:237-243 | code with no recursion and no loop is `O(1)` with confidence 0.95 |
| ComplexityDetection.IterativeUsesDeepestNesting | AnalisisDeAlgoritmos/complexity_detector.py:234-282 | code without recursion is classified by the iterative table on the largest number of loops on any path, with the textual patterns |
| ComplexityDetection.ComplexityDetector.constructor | AnalisisDeAlgoritmos/complexity_detector.py:10-16 | a detector holds its code, no tree, no recursion, depth 0 and no divide-and-conquer |
| ComplexityDetection.ComplexityDetector.Analyze | AnalisisDeAlgoritmos/complexity_detector.py:18-38 | `analyze` returns the classification of its code and parse outcome, so the same input always gives the same result; a parse failure records nothing; otherwise the tree and the recursive functions are stored |
| ComplexityDetection.ComplexityDetector.DetectRecursion | AnalisisDeAlgoritmos/complexity_detector.py:40-66 | `detect_recursion` stores the recursive names, sets `has_recursion` iff there is one, and returns it |
| ComplexityDetection.ComplexityDetector.AnalyzeRecursiveComplexity | AnalisisDeAlgoritmos/complexity_detector.py:161-229 | the analyzer's findings over the stored tree feed the recursive table |

## Left out

- The user interface is not modelled: the Tkinter/matplotlib windows, menus, themes,
  tutorials, example snippets and entry points have no logic to model.
- `code_executor.py` and `complexity_analyzer.py` are not modelled: they run user code
  with `exec` and take means with NumPy.
- `ComplexityDetector.estimate_complexity_from_data` is not modelled (floating-point
  ratios and `np.mean`).
- Python's parser is not modelled: `analyze` receives the outcome of
  `ast.parse(self.code)` as an `Option<Node>`. So the link between the code text and
  its tree is an assumption of the caller.
- The syntax tree keeps only the node kinds the visitors inspect (`FunctionDef`, `Call`,
  `Name`, `For`, `While`, `BinOp`), with every other node as a generic node with
  children. This is all that `generic_visit` and `ast.walk` look at.
- `ast.walk` visits nodes in breadth-first order. `RecursiveAnalysis.WalkCount` only
  counts, so the model states the count and not the order.
- Confidences are whole percentages, so 0.85 is 85.
- `TreeSorting.Insert`: the tree is a datatype value rebuilt along the insertion path.
  It is not a `TreeNode` object whose `left`/`right` links are updated in place, so
  aliasing of nodes is not modelled.
- The dictionary of functions in `get_sorting_function` is the `Algorithm` datatype.
  `SortingAlgorithms.Sort` calls the algorithm it names.
- All sorting algorithms take and return immutable sequences. The caller's list cannot
  change, which matches the copies the source makes.
- `merge_sort`'s nested `merge` and `merge_sort_recursive` work on new lists, which
  fits sequences directly.
- `sys.setrecursionlimit`, and a `RecursionError` or `MemoryError` raised by deep
  recursion or a large input, are not modelled. `SortingAnalysis.Run` can still carry
  such an exception to `MeasureSortingTime`.
- SortingAlgorithms.Sort: does not model the `RecursionError` that Quick Sort and Tree
  Sort raise on long ordered inputs beyond `sys.setrecursionlimit(100000)`
  (`sorting_algorithms.py:6`), so its only failure is the Counting Sort range error.
- SortingAnalysis.RunAlgorithm: the same omission; a run never raises `RecursionError`
  or `MemoryError`.
- SortingAnalysis.MeasureAlgorithm: the same omission; the `RecursionError` message of
  `sorting_analyzer.py:44-45` is never produced for the eight algorithms.
- `time.perf_counter` is not modelled: the elapsed time of a run is a parameter
  (`Run.elapsed`, `elapsed`). In the two analysis loops each measurement is a supplied
  function of the algorithm and dataset indexes.
- The progress callback and its floating-point percentage are not modelled; they only
  report.
- The `complexity` entries copied from `get_algorithm_info()` into each result are not
  modelled: they are fixed display strings. Only the existence of a name's entry, whose
  absence raises `KeyError`, is modelled.
- `SortingAnalysis.AnalyzeMultipleAlgorithms`: its results are stated through the
  algorithm index of each name, by `IsResults`. The measurement of name `k` is
  `measure(k, d)`, supplied by the caller rather than computed from the name.
- `format_time` is not modelled (floating-point formatting).
- `generate_float_dataset` is not modelled (floating-point values).
- `save_dataset`, `load_dataset`, `get_or_create_dataset` and `ensure_dataset_dir` are
  not modelled (file I/O and JSON).
- `load_from_file`'s opening and reading of the file is not modelled, and neither are
  its `FileNotFoundError` and generic-exception messages. `DatasetManagement.LoadContent`
  starts from the text that `f.read()` returned.
- `DatasetManagement.ParseItems`: Python's `int()` is simplified to an optional sign and
  ASCII decimal digits (`Text.ParseInt`). Underscores, non-ASCII digits and inner
  whitespace are not accepted.
- `Text.Strip`: only ASCII whitespace is stripped, not every Unicode space.
- `Text.Lower`: only ASCII letters are lower-cased.
- `DatasetManagement.SizeTooLarge` is the text of `f"{MAX_SIZE:,}"` written out for
  `MAX_SIZE = 1000000`.
- `random.shuffle` in `generate_subsets` is a function parameter of
  `DatasetManagement.GenerateSubsets`. It is required only to rearrange its list.
- `RadixSorting.CountingSortForRadix`: the digit is `DigitAt(x, place)`, which equals
  the source's `(x // exp) % 10` by `RadixSorting.DigitOfQuotient`.
- `ComplexityDetection.RecursiveComplexity`: the recurrences are written with
  `Recurrence(calls, arg, work)`, which spells out the same strings as the source's
  literals and f-string.
- The run of `analyze` inside a background thread in the interface is not modelled.
