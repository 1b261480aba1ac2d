# arthoolbox core, modelled in Dafny

This project models the sequential core of the arthoolbox utility library and
proves properties of the model. It covers these parts:

- **C dynamic string.** `atb_String` is a heap buffer with `data`, `capacity`
  and `size`, and a NUL at `data[size]`. It has reserve, resize and fill,
  append, pop, shrink, compare, and the copying and moving constructors. The
  non-owning views are modelled too.
- **Intrusive circular doubly linked list** (`atb_DLinkedList`).
- **Process argument list builder** (`atb_ProcessArgs`).
- **Delimited byte reader** (`atb_Fd_ReadBytesUntil`).
- **A\* shortest-path search**, in both overloads.
- **Streaming statistics.** The C++ `RecurrentStatistics` class and its
  recurrences, the Python `update_*` functions, and the batch `mean` and
  `variance`.
- **Version numbers** (`VersionNumber::from_string`, `to_string` and the
  comparisons).
- **`swap_front`**, the strided iterator, and the compile-time type sequences.
- **Python lazy dictionary.**

Code that changes state in place is modelled as a Dafny class whose methods
are proved against a specification function on values:

- the string: `CString.DynString` against `CString.Str`;
- the list: `LinkedList.Nodes` against `LinkedList.Links`;
- the argument list: `Process.ProcessArgs` against `Process.ArgList`;
- the statistics: `Statistics.RecurrentStatistics` against `Statistics.Stats`;
- the dictionary: `LazyDict.LazyDictionary` against `LazyDict.State`;
- the iterator: `StridedIterator.StridedIter` against `StridedIterator.Strided`;
- the reader's file descriptor: `FdUtils.FileDescriptor`.

The library's promises are lemmas about those functions. Pure code (version
parsing, type sequences, the Python statistics) is modelled as functions and
lemmas. Loops in the source are `while`/`for` loops with invariants:

- the byte reader;
- the A\* main loop and path reconstruction;
- the argument copy and free loops;
- the list traversals;
- the dictionary constructor.

Shared modules:

- `Wrappers` holds `Option` and `Result`.
- `Decimal` holds decimal rendering (`std::to_string`) and parsing (`std::stoul`).
- `RealSums` holds sums over `real`, used by the three statistics modules.

C `assert`s on arguments become `requires`. Uninitialised memory returned by
`malloc`/`realloc` is a parameter `junk` that gives the byte at each offset.

## Model

| member | source | states |
|---|---|---|
| CString.DynString.MakeEmpty | c/String.h:267-279 | a new string has a NULL buffer, capacity 0 and size 0 |
| CString.DynString.Init | c/String.h:267-273 | the string becomes the empty, unallocated string |
| CString.DynString.Delete | c/String.c:70-78 | the string is reset to the empty string, whatever it held |
| CString.DynString.MakeCopyFromSubStr | c/String.h:281-289 | the new string is what appending the view to the empty string gives |
| CString.DynString.MakeCopyFrom | c/String.h:291-296 | copying an allocated string is appending its text to the empty string |
| CString.CopyProperties | c/String.h:281-289 | a copy of a non-empty text holds exactly that text, is terminated, and has size = length and capacity = length + 1; a copy of an empty view stays unallocated |
| CString.DynString.MakeByMovingSubStr | c/String.c:6-21 | the string takes the caller's buffer with the given capacity and size, writes NUL at size, and the caller's pointer becomes NULL |
| CString.DynString.MakeByMovingCStr | c/String.h:298-305 | moving a C string gives size = strlen and capacity = strlen + 1, and the contents are unchanged |
| CString.DynString.MakeByMoving | c/String.h:307-314 | the new string has the other's data, capacity and size, and the other is reset to the empty string |
| CString.Strlen | c/String.h:231 | the index of the first NUL |
| CString.FromCStr | c/String.h:226-233 | a view of a C string ends at its first NUL and holds no NUL |
| CString.FromStaticString | c/String.h:55-58 | a view of a static string literal has the array's length minus one |
| CString.StaticStringIsCStr | c/String.h:55-58 | for a literal that ends with its only NUL, the static-string view and the C-string view agree |
| CString.FromStr | c/String.h:256-264 | a view of a valid string shows exactly its text |
| CString.ReserveSpec | c/String.c:23-52 | a non-zero reserve allocates exactly the requested capacity; the size is kept when it still fits |
| CString.Realloc | c/String.c:29-43 | malloc or realloc to n bytes: exactly n bytes, the old ones copied as far as they fit and the rest indeterminate |
| CString.DynString.Reserve | c/String.c:23-52 | the string becomes ReserveSpec of its old value; the buffer is new unless the request was 0 |
| CString.ReserveProperties | c/String.c:23-52 | reserving 0 changes nothing; the capacity becomes exactly the request; an unallocated string gets size 0; a growing reserve keeps the text and the terminator; shrinking to n ≤ size keeps the first n - 1 characters and terminates them |
| CString.ReserveLeavesFirstByteUnset | c/String.c:29-36 | reserving on the empty, terminated string can leave a result whose data[0] is not NUL |
| CString.ReserveTerminatedKeepsTerminator | c/String.c:23-52 | the corrected reserve, which writes data[0] when it allocates, always leaves a terminated string, with the same capacity and text as Reserve |
| CString.ShrinkToFitIsReserve | c/String.h:338-344 | shrinking a string with spare room is reserving size + 1 |
| CString.DynString.ShrinkToFit | c/String.h:338-344 | the string becomes ShrinkToFitSpec of its old value |
| CString.ShrinkToFitSpec | c/String.h:338-344 | shrink_to_fit keeps size + 1 bytes when the capacity is larger, and otherwise changes nothing |
| CString.ShrinkToFitProperties | c/String.h:338-344 | the text and size are kept, the capacity becomes size + 1 when it was larger, the terminator is kept, and shrinking twice equals shrinking once |
| CString.DynString.ResizeAndFill | c/String.h:316-336 | the string becomes ResizeAndFillSpec of its old value |
| CString.ResizeAndFillSpec | c/String.h:316-336 | ResizeAndFill reserves new_size + 1 and calls the generator on [old size, new_size) only when new_size reaches the capacity, then sets the size to new_size and writes NUL there |
| CString.ResizeAndFillProperties | c/String.h:316-336 | afterwards the size is new_size, data[new_size] is NUL, the capacity is new_size + 1 exactly when new_size reached the old capacity (else unchanged), and the common prefix of the text is kept |
| CString.ResizeAndFillCallsGenerator | c/String.h:321-332 | when new_size reaches the old capacity, the text is the old text followed by the generator's output on [old size, new_size) |
| CString.FillWith | c/String.c:54-65 | Resize passes a generator exactly when fill ≥ 0, and that generator writes (unsigned char)fill everywhere |
| CString.DynString.Resize | c/String.c:58-68 | Resize is ResizeAndFill with the memset generator for fill |
| CString.ResizeFillsGrownRange | c/String.c:54-68 | a reallocating Resize with fill ≥ 0 keeps the old text and fills [old size, new_size) with fill |
| CString.ResizeWithinCapacityKeepsBuffer | c/String.h:321-335 | a resize below the capacity keeps the first new_size bytes of the buffer, so a grown range starts with the old NUL and not the fill |
| CString.ResizeAndFillGrowingFillsGrownRange | c/String.h:316-336 | the corrected resize fills [old size, new_size) with the generator whenever it grows, and keeps the capacity rule and the terminator |
| CString.ResizeAndFillGrowingAgreesWhenReallocating | c/String.h:321-335 | the corrected resize agrees with the source when it reallocates, shrinks, or has no generator |
| CString.DynString.AppendSubStr | c/String.c:80-97 | the string becomes AppendSpec of its old value and the view's text |
| CString.AppendSpec | c/String.c:80-97 | appending nothing changes nothing; otherwise the buffer grows to exactly size + length + 1 when it has no room, and the text is copied after the old one and terminated |
| CString.DynString.Append | c/String.h:346-354 | appending another string is AppendSubStr of its view, and the other string is unchanged |
| CString.AppendProperties | c/String.c:80-97 | the text becomes old text ++ appended text and is terminated; an empty view changes nothing; the capacity becomes size + view.size + 1 exactly when it was ≤ size + view.size |
| CString.DynString.PopN | c/String.h:356-367 | the string becomes PopNSpec of its old value, in the same buffer |
| CString.PopNSpec | c/String.h:356-367 | PopN leaves an unallocated string as it is, and otherwise drops min(n, size) characters and writes NUL at the new size |
| CString.PopNProperties | c/String.h:356-367 | an unallocated string is unchanged; otherwise min(n, size) characters go from the end, the prefix and the capacity are kept, and the result is terminated |
| CString.DynString.IsEqualToSubStr | c/String.c:99-106 | true exactly when the string's text equals the view's text |
| CString.DynString.IsEqualTo | c/String.h:369-375 | true exactly when the two strings' texts are equal |
| LinkedList.InitSpec | c/LinkedList.h:61-66 | Init leaves every link valid |
| LinkedList.InitIsRing | c/LinkedList.h:55-66 | an initialised node is self-linked and forms a ring on its own |
| LinkedList.ConnectSpec | c/LinkedList.h:74-81 | Connect leaves every link valid |
| LinkedList.InsertAfterSpec | c/LinkedList.h:86-93 | InsertAfter leaves every link valid |
| LinkedList.InsertAfterLinks | c/LinkedList.h:86-93 | node.next = n, n.prev = node, n.next = old node.next, old node.next.prev = n, and no other link changes |
| LinkedList.InsertBeforeSpec | c/LinkedList.h:98-105 | InsertBefore leaves every link valid |
| LinkedList.InsertBeforeLinks | c/LinkedList.h:98-105 | node.prev = n, n.next = node, n.prev = old node.prev, old node.prev.next = n, and no other link changes |
| LinkedList.InsertBeforeIsInsertAfterPrev | c/LinkedList.h:86-105 | inserting before a node is inserting after its predecessor |
| LinkedList.PopSpec | c/LinkedList.h:110-115 | Pop leaves every link valid |
| LinkedList.PopLinks | c/LinkedList.h:110-115 | the popped node is self-linked, its old neighbours are linked to each other, and popping a self-linked node changes nothing |
| LinkedList.InsertAfterKeepsConsistent | c/LinkedList.h:86-93 | inserting a self-linked node keeps x.next.prev = x and x.prev.next = x for every node |
| LinkedList.InsertBeforeKeepsConsistent | c/LinkedList.h:98-105 | the same for InsertBefore |
| LinkedList.PopKeepsConsistent | c/LinkedList.h:110-115 | the same for Pop |
| LinkedList.InsertAfterRing | c/LinkedList.h:86-93 | inserting after the k-th node of a ring gives the ring with the new node at position k + 1 |
| LinkedList.InsertAfterRingAt | c/LinkedList.h:86-93 | the same, for a given ring sequence described position by position |
| LinkedList.InsertBeforeRing | c/LinkedList.h:98-105 | inserting before the k-th node gives the ring with the new node just before it |
| LinkedList.PopRing | c/LinkedList.h:110-115 | popping the k-th node of a ring of two or more leaves the ring without it, and the node self-linked |
| LinkedList.PopRingAt | c/LinkedList.h:110-115 | the same, for a given ring sequence described position by position |
| LinkedList.Nodes.constructor | c/LinkedList.h:55-56 | every node starts self-linked |
| LinkedList.Nodes.Init | c/LinkedList.h:61-66 | the links become InitSpec of the old links |
| LinkedList.Nodes.Connect | c/LinkedList.h:74-81 | the links become ConnectSpec of the old links |
| LinkedList.Nodes.InsertAfter | c/LinkedList.h:86-93 | the links become InsertAfterSpec of the old links |
| LinkedList.Nodes.InsertBefore | c/LinkedList.h:98-105 | the links become InsertBeforeSpec of the old links |
| LinkedList.Nodes.Pop | c/LinkedList.h:110-115 | the links become PopSpec of the old links |
| LinkedList.Nodes.ForEach | c/LinkedList.h:138-139 | the nodes visited are the ring after the head, in next order |
| LinkedList.Nodes.ForEachReverse | c/LinkedList.h:149-150 | the nodes visited are the same nodes in the opposite order |
| Process.ArgList.Entries | c/Process.h:12-15 | the list holds size strings before its NULL terminator |
| Process.AppendSpec | c/Process.c:13-44 | appending keeps the list valid: size strings, then NULL |
| Process.AppendSpecEntries | c/Process.c:19-43 | the entries become old entries ++ appended strings and size grows by their number; appending none changes nothing; a non-empty append yields a list of size + count + 1 slots |
| Process.AppendTwice | c/Process.c:46-52 | appending two lists in turn yields their concatenation after the old entries |
| Process.AppendToInitCopies | c/Process.c:46-52 | appending a copy of another list to an empty one yields exactly its entries |
| Process.AppendCopyOfInitialisedArgsFailsAssert | c/Process.c:17-51 | a freshly initialised, empty argument list has a NULL array, so it fails the arg_list != NULL assertion that AppendCopy reaches, which is AppendCopy's precondition other.list != null |
| Process.ProcessArgs.Initializer | c/Process.h:20-21 | the static initialiser gives list = NULL and size = 0 |
| Process.ProcessArgs.Init | c/Process.h:26-31 | Init gives list = NULL and size = 0 |
| Process.ProcessArgs.AppendCStrList | c/Process.c:13-44 | the list becomes AppendSpec of the old list and the first count strings, in a new array when count > 0 |
| Process.Realloc | c/Process.c:22-27 | realloc of the list to n slots gives a new array of n slots whose common prefix with the old one is copied |
| Process.ProcessArgs.AppendCopy | c/Process.c:46-52 | appends all of other's entries, and other is unchanged |
| Process.ProcessArgs.AppendCopyOfAny | c/Process.c:46-52 | the corrected AppendCopy also accepts an unallocated empty list, appends all of other's entries, and leaves other unchanged |
| Process.ProcessArgs.Delete | c/Process.c:54-68 | every entry is released (set to NULL), then list = NULL and size = 0 |
| Process.ProcessRecord.Initializer | c/Process.h:71-72 | the path is the empty string and pid = 0 |
| Process.ProcessRecord.Init | c/Process.h:77-82 | the path is reset to the empty string and pid = 0 |
| FdUtils.Scan | c/FdUtils.c:14-23 | the number of bytes the loop takes is at most count and at most what is available |
| FdUtils.ReadUntilSpec | c/FdUtils.c:7-26 | the result is -1 or the number of bytes consumed, which is at most count |
| FdUtils.ScanStopsAtFirstDelimiter | c/FdUtils.c:14-23 | no byte before the last one taken is the delimiter, and the loop stops on count, end of input, or a delimiter just taken |
| FdUtils.ScanAtDelimiter | c/FdUtils.c:17-20 | a first delimiter at position d within count ends the read right after it |
| FdUtils.ScanWithoutDelimiter | c/FdUtils.c:14-15 | without a delimiter, min(count, available) bytes are taken |
| FdUtils.ReadNothing | c/FdUtils.c:14 | count = 0 returns 0 and reads nothing |
| FdUtils.ReadStopsAfterDelimiter | c/FdUtils.c:17-20 | the delimiter is stored and counted, and nothing after it is read |
| FdUtils.ReadFullCount | c/FdUtils.c:14-15 | with no delimiter among the first count available bytes, exactly count are read |
| FdUtils.ReadToEnd | c/FdUtils.c:15-25 | running out of input returns the bytes read so far at end of file, or -1 on a read error, however many were stored |
| FdUtils.FileDescriptor.Read | c/FdUtils.c:15 | read of one byte returns 1 and the next byte, or 0 at end of file, or -1 on an error |
| FdUtils.ReadBytesUntil | c/FdUtils.c:7-26 | the result is ReadUntilSpec's, the cursor moves by exactly the bytes consumed, and those bytes land in the buffer in stream order with nothing else changed |
| FdUtils.ReadLoop | c/FdUtils.c:11-23 | the loop consumes Scan bytes, stores them contiguously, and its last read is -1 exactly when the input ran out early on an error |
| AStar.MinIndex | cxx/include/arthoolbox/algo/path/a_star.hpp:50-77 | the queue hands out an entry of least f-score |
| AStar.Relax | cxx/include/arthoolbox/algo/path/a_star.hpp:97-123 | relaxing one neighbour keeps the sizes of the score maps and the visited set |
| AStar.RelaxOnlyImproves | cxx/include/arthoolbox/algo/path/a_star.hpp:104-116 | g-scores only appear or strictly decrease; g changes exactly when the new score is better, and then came_from[v] becomes the expanded position |
| AStar.RelaxNeverQueuesVisited | cxx/include/arthoolbox/algo/path/a_star.hpp:118-122 | at most one entry is queued, for the neighbour, and only when it was not yet expanded |
| AStar.RelaxKeepsQueued | cxx/include/arthoolbox/algo/path/a_star.hpp:113-122 | after a relaxation every scored position is still expanded or queued: a newly scored position is queued unless already expanded |
| AStar.RelaxDecreases | cxx/include/arthoolbox/algo/path/a_star.hpp:113-116 | an improving relaxation lowers (missing scores, sum of scores), so improvements cannot go on forever |
| AStar.InitialSearch | cxx/include/arthoolbox/algo/path/a_star.hpp:69-70 | the start has g-score 0 |
| AStar.InitialSearchInv | cxx/include/arthoolbox/algo/path/a_star.hpp:62-70 | the initial state satisfies the search invariant |
| AStar.RelaxKeepsInv | cxx/include/arthoolbox/algo/path/a_star.hpp:97-123 | relaxing a neighbour keeps the invariant: queued positions have scores and every came_from entry points to a neighbour |
| AStar.Pop | cxx/include/arthoolbox/algo/path/a_star.hpp:76-79 | popping removes one queue entry and marks its position visited |
| AStar.PopKeepsInv | cxx/include/arthoolbox/algo/path/a_star.hpp:76-79 | popping keeps the invariant, and the popped position has a score |
| AStar.PopKeepsQueued | cxx/include/arthoolbox/algo/path/a_star.hpp:76-79 | popping keeps every scored position expanded or queued, the popped one becoming expanded |
| AStar.WalkEndScored | cxx/include/arthoolbox/algo/path/a_star.hpp:72-125 | once the queue is empty, every walk through neighbour lists from a scored position ends at a scored position |
| AStar.ExhaustedSearchExpandedReachable | cxx/include/arthoolbox/algo/path/a_star.hpp:72-125 | once the queue is empty, every position reachable from the start has been expanded |
| AStar.Expand | cxx/include/arthoolbox/algo/path/a_star.hpp:95-125 | expanding a position keeps the invariant and either changes nothing or lowers the score measure; scores are never lost, every neighbour of the position gets a score, and scored positions stay expanded or queued |
| AStar.RelaxNeighbour | cxx/include/arthoolbox/algo/path/a_star.hpp:103-123 | the loop body for one neighbour computes Relax |
| AStar.ReconstructPath | cxx/include/arthoolbox/algo/path/a_star.hpp:85-91 | following came_from from the goal gives a path from goal to start in which each position is a neighbour of the next one |
| AStar.AStarShortestPath | cxx/include/arthoolbox/algo/path/a_star.hpp:27-129 | the result is empty or runs from goal (front) to start (back) through neighbours; start = goal gives [start]; when the goal is reachable from the start through neighbour lists, the result is not empty |
| AStar.UnitWeights | cxx/include/arthoolbox/algo/path/a_star.hpp:187-190 | each neighbour is paired with distance 1 |
| AStar.AStarShortestPathUnit | cxx/include/arthoolbox/algo/path/a_star.hpp:131-214 | the unit overload is the weighted search with every distance 1, with the same guarantees: a path through neighbours from goal back to start, and a non-empty result whenever the goal is reachable |
| AStar.UnitEdge | cxx/include/arthoolbox/algo/path/a_star.hpp:187-190 | under unit weights, v is a weighted neighbour of u exactly when v is in u's plain neighbour list |
| RealSums.SumIsCountTimesMean | python/src/arthoolbox/math/stats/discrete.py:25 | n · mean = sum for a non-empty list |
| RealSums.BalancedIsMean | python/src/arthoolbox/math/stats/discrete.py:25 | the mean is the only point c with n · c = sum |
| RealSums.SumDevSqExpand | python/src/arthoolbox/math/stats/discrete.py:46 | Σ(x - c)² = Σx² - 2cΣx + nc² |
| RealSums.SumDevSqAtMean | python/src/arthoolbox/math/stats/discrete.py:46 | Σ(x - mean)² = Σx² - n · mean² |
| RealSums.SumDevSqNonNegative | python/src/arthoolbox/math/stats/discrete.py:46 | a sum of squared deviations is never negative |
| RealSums.SumOfConstant | python/test/toolbox/math/stats/test_discrete.py:11 | n copies of c sum to n · c |
| RealSums.MeanOfConstant | python/test/toolbox/math/stats/test_discrete.py:11 | the mean of a constant list is that constant |
| RealSums.SumOfRange | python/test/toolbox/math/stats/test_discrete.py:14 | 1 + … + (n - 1) = n(n - 1)/2 |
| RealSums.MeanOfRange | python/test/toolbox/math/stats/test_discrete.py:14 | the mean of 1 … n - 1 is n/2 |
| Statistics.MeanIsWeightedAverage | cxx/include/arthoolbox/math/statistics.hpp:31-35 | n · M_n = (n - 1) · M_{n-1} + X_n |
| Statistics.UpdateRecurringMean | cxx/include/arthoolbox/math/statistics.hpp:31-35 | update_recurring_mean is M_n-1 + (X_n - M_n-1) / n, for n at least 1 |
| Statistics.UpdateRecurringVariance | cxx/include/arthoolbox/math/statistics.hpp:59-67 | update_recurring_variance is V_n-1 + ((X_n - M_n)(X_n - M_n-1) - V_n-1) / n, for n at least 1 |
| Statistics.UpdateRecurringSumSquare | cxx/include/arthoolbox/math/statistics.hpp:96-101 | update_recurring_sum_square is SUM_n-1 + (X_n - M_n)(X_n - M_n-1) |
| Statistics.VarianceIsWeightedAverage | cxx/include/arthoolbox/math/statistics.hpp:59-67 | n · V_n = (n - 1) · V_{n-1} + (X_n - M_n)(X_n - M_{n-1}) |
| Statistics.VarianceTracksSumSquare | cxx/include/arthoolbox/math/statistics.hpp:59-101 | if (n - 1) · V_{n-1} = S_{n-1}, then n · V_n = S_n |
| Statistics.UpdateSpec | cxx/include/arthoolbox/math/statistics.hpp:172-179 | updateWith increments N by exactly 1 |
| Statistics.Fold | cxx/include/arthoolbox/math/statistics.hpp:172-179 | folding k samples increments N by k |
| Statistics.FirstUpdate | cxx/include/arthoolbox/math/statistics.hpp:172-179 | after the first update the mean is the sample, whatever the initial mean, and the sum of squares keeps its initial value |
| Statistics.MeanStep | cxx/include/arthoolbox/math/statistics.hpp:31-35 | the recurring mean of the mean of the first n - 1 samples and the n-th sample is the mean of all n |
| Statistics.SumSquareStep | cxx/include/arthoolbox/math/statistics.hpp:96-101 | the recurring sum-of-squares update turns Σ(x - M_{n-1})² over n - 1 samples into Σ(x - M_n)² over n |
| Statistics.UpdateKeepsMeanAndSumSquare | cxx/include/arthoolbox/math/statistics.hpp:172-179 | an update of a state holding the mean and offset + Σ(x - mean)² of the first n - 1 samples holds those of all n |
| Statistics.FoldComputesMeanAndSumSquare | cxx/include/arthoolbox/math/statistics.hpp:172-179 | from any initial mean and sum of squares, after n samples: N = n, the mean is their arithmetic mean, and the sum of squares is the initial value + Σ(x - mean)² |
| Statistics.FoldFromDefault | cxx/include/arthoolbox/math/statistics.hpp:172-179 | from the default state, after n samples: N = n, the mean is their arithmetic mean, and the sum of squares is Σ(x - mean)² |
| Statistics.MeanVarianceStepTracks | cxx/tests/arthoolbox/math/test_statistics.cpp:74-84 | updating mean and variance side by side agrees with updateWith, the variance being the sum of squares over N |
| Statistics.MeanVarianceFoldTracksStats | cxx/tests/arthoolbox/math/test_statistics.cpp:70-84 | the side-by-side loop agrees with RecurrentStatistics after every sample |
| Statistics.MeanVarianceFoldIsPopulationVariance | cxx/tests/arthoolbox/math/test_statistics.cpp:70-87 | the side-by-side loop ends with the mean and the population variance Σ(x - mean)²/n |
| Statistics.RecurrentStatistics.constructor | cxx/include/arthoolbox/math/statistics.hpp:115 | N = 0, mean 0 and sum of squares 0 |
| Statistics.RecurrentStatistics.WithInitial | cxx/include/arthoolbox/math/statistics.hpp:118-120 | N = 0 with the given mean and sum of squares |
| Statistics.RecurrentStatistics.Reset | cxx/include/arthoolbox/math/statistics.hpp:127-131 | N = 0 with the given mean and sum of squares |
| Statistics.RecurrentStatistics.NumberOfMeasurements | cxx/include/arthoolbox/math/statistics.hpp:137-139 | getNumberOfMeasurements is the number of samples N |
| Statistics.RecurrentStatistics.GetMean | cxx/include/arthoolbox/math/statistics.hpp:145 | getMean is the mean held |
| Statistics.RecurrentStatistics.Variance | cxx/include/arthoolbox/math/statistics.hpp:152-155 | requires N ≥ 1 and returns S/N |
| Statistics.RecurrentStatistics.SampledVariance | cxx/include/arthoolbox/math/statistics.hpp:162-166 | requires N ≥ 2 and returns S/(N - 1) |
| Statistics.RecurrentStatistics.UpdateWith | cxx/include/arthoolbox/math/statistics.hpp:172-179 | the state becomes UpdateSpec of the old state: N + 1, the new mean from the new N, and S updated with the new and the old mean |
| Statistics.Format | cxx/include/arthoolbox/math/statistics.hpp:193-219 | the header with N and the mean, then Var shown exactly when N ≥ 1 and SVar exactly when N ≥ 2, each replaced by the placeholder otherwise |
| PyStatistics.UpdateMean | python/src/arthoolbox/math/statistics.py:10-33 | raises ZeroDivisionError exactly when num_data = 0 |
| PyStatistics.UpdateVariance | python/src/arthoolbox/math/statistics.py:35-73 | raises ZeroDivisionError exactly when num_data = 0 |
| PyStatistics.UpdateSumSquares | python/src/arthoolbox/math/statistics.py:76-113 | update_sum_squares is SUM_n-1 + (X_n - M_n-1)(X_n - M_n) |
| PyStatistics.MeanLoop | python/tests/arthoolbox/math/test_statistics.py:14-22 | the test loop applies update_mean to each sample in turn, from 0, stopping at the first ZeroDivisionError |
| PyStatistics.UpdateMeanOfOne | python/src/arthoolbox/math/statistics.py:33 | with num_data = 1 the new mean is the sample |
| PyStatistics.UpdateMeanMatchesRecurringMean | python/src/arthoolbox/math/statistics.py:33 | update_mean equals the C++ update_recurring_mean |
| PyStatistics.UpdateVarianceMatchesRecurringVariance | python/src/arthoolbox/math/statistics.py:67-73 | update_variance equals the C++ update_recurring_variance, whose factors come in the other order |
| PyStatistics.UpdateSumSquaresMatchesRecurringSumSquare | python/src/arthoolbox/math/statistics.py:113 | update_sum_squares equals the C++ update_recurring_sum_square |
| PyStatistics.MeanLoopAsWrittenRaises | python/tests/arthoolbox/math/test_statistics.py:14-22 | the test loop with num_data = i raises on the first sample of any non-empty data |
| PyStatistics.MeanLoopFollowsRecurrentStatistics | python/tests/arthoolbox/math/test_statistics.py:14-22 | with num_data = i + 1 the loop computes the mean RecurrentStatistics computes |
| PyStatistics.MeanLoopComputesMean | python/tests/arthoolbox/math/test_statistics.py:14-28 | with num_data = i + 1 the loop computes the arithmetic mean of the data |
| Discrete.Mean | python/src/arthoolbox/math/stats/discrete.py:12-25 | raises ZeroDivisionError exactly on an empty list |
| Discrete.MeanIsArithmeticMean | python/src/arthoolbox/math/stats/discrete.py:25 | mean(values) is the sum of the values over their number |
| Discrete.MeanOfFiftyFives | python/test/toolbox/math/stats/test_discrete.py:11-12 | mean([5]*50) = 5 |
| Discrete.MeanOfOneToFortyNine | python/test/toolbox/math/stats/test_discrete.py:14-15 | mean(range(1, 50)) = 25 |
| Discrete.Variance | python/src/arthoolbox/math/stats/discrete.py:28-46 | raises ZeroDivisionError exactly on an empty list |
| Discrete.VarianceIgnoresFalsyMean | python/src/arthoolbox/math/stats/discrete.py:43-44 | a mean_computed of None or 0 is ignored and recomputed |
| Discrete.Truthy | python/src/arthoolbox/math/stats/discrete.py:43-44 | Python's truth value of mean_computed: None and 0 are false |
| Discrete.VarianceWithOwnMean | python/src/arthoolbox/math/stats/discrete.py:43-46 | supplying the true mean gives the same result as omitting it |
| Discrete.VarianceOfSamples | python/src/arthoolbox/math/stats/discrete.py:46 | variance = Σx²/n - mean² |
| Discrete.MeanSquaredDeviationOfSums | python/src/arthoolbox/math/stats/discrete.py:46 | Σ(x - mean)²/n = Σx²/n - mean² |
| Discrete.VarianceIsMeanSquaredDeviation | python/src/arthoolbox/math/stats/discrete.py:46 | with the true mean, variance = Σ(x - mean)²/n |
| Discrete.VarianceNonNegative | python/src/arthoolbox/math/stats/discrete.py:46 | with the true mean, the variance is never negative |
| Decimal.DigitValueOfDigitChar | cxx/include/arthoolbox/version.hpp:52-54 | reading back a rendered digit gives the digit |
| Decimal.IsSpace | cxx/include/arthoolbox/version.hpp:33-36 | the white space std::stoul skips: the characters isspace accepts in the "C" locale |
| Decimal.SkipSpace | cxx/include/arthoolbox/version.hpp:33-36 | std::stoul first drops the leading white space |
| Decimal.NatToString | cxx/include/arthoolbox/version.hpp:52-54 | std::to_string of an unsigned value is a non-empty run of digits with no leading zero |
| Decimal.DigitsValueOfNatToString | cxx/include/arthoolbox/version.hpp:52-54 | the digits std::to_string renders have the value rendered |
| Decimal.DigitPrefixLengthIsLongestRun | cxx/include/arthoolbox/version.hpp:33-36 | std::stoul reads the longest run of digits |
| Decimal.DigitPrefixLengthOfDigits | cxx/include/arthoolbox/version.hpp:33-36 | a string of digits is read whole |
| Decimal.Stoul | cxx/include/arthoolbox/version.hpp:33-36 | a successful std::stoul returns at most ULONG_MAX |
| Decimal.StoulOfDigits | cxx/include/arthoolbox/version.hpp:33-36 | std::stoul of a string of digits is their value when it fits |
| Decimal.StoulOfNatToString | cxx/include/arthoolbox/version.hpp:33-54 | std::stoul(std::to_string(n)) = n |
| Decimal.StoulRejectsNonNumber | cxx/include/arthoolbox/version.hpp:33-36 | a text that starts with neither space, sign nor digit throws invalid_argument |
| Version.ToUnsigned | cxx/include/arthoolbox/version.hpp:33-36 | static_cast<unsigned> keeps values below 2^32 |
| Version.SubstrFrom | cxx/include/arthoolbox/version.hpp:36 | std::string::substr(pos) succeeds exactly when pos is at most the length, and then keeps the length - pos characters from pos |
| Version.ReadFields | cxx/include/arthoolbox/version.hpp:32-36 | the major, minor and patch texts are read with std::stoul in that order, the first exception thrown being the result |
| Version.FromString | cxx/include/arthoolbox/version.hpp:22-37 | from_string as written: the separators are found, and the minor and patch fields start one character after each |
| Version.FromStringFixed | cxx/include/arthoolbox/version.hpp:22-37 | from_string with the fields starting sep.size() characters after each separator |
| Version.ToString | cxx/include/arthoolbox/version.hpp:50-56 | to_string is the major number, sep, the minor number, sep, the patch number, each in decimal |
| Version.Less | cxx/include/arthoolbox/version.hpp:58-62 | operator< compares major, then minor on equal majors, then patch on equal minors |
| Version.Greater | cxx/include/arthoolbox/version.hpp:64-66 | operator> is rhs < lhs |
| Version.LessEq | cxx/include/arthoolbox/version.hpp:68-70 | operator<= is not (lhs > rhs) |
| Version.GreaterEq | cxx/include/arthoolbox/version.hpp:72-74 | operator>= is not (lhs < rhs) |
| Version.Equal | cxx/include/arthoolbox/version.hpp:76-79 | operator== compares the three fields |
| Version.NotEqual | cxx/include/arthoolbox/version.hpp:81-83 | operator!= is not (lhs == rhs) |
| Version.Find | cxx/include/arthoolbox/version.hpp:24-28 | std::string::find returns a position at or after pos where sep occurs |
| Version.FindIsFirst | cxx/include/arthoolbox/version.hpp:24-28 | find returns the first such position |
| Version.FieldRoundTrip | cxx/include/arthoolbox/version.hpp:33-54 | reading one rendered field gives it back |
| Version.ReadFieldsOfToString | cxx/include/arthoolbox/version.hpp:32-54 | reading three rendered fields gives the version back |
| Version.ReadFieldsRejectsMinor | cxx/include/arthoolbox/version.hpp:32-36 | a minor field that std::stoul rejects makes from_string throw that exception |
| Version.ParseSkippingOfFields | cxx/include/arthoolbox/version.hpp:22-56 | parsing to_string(v, sep) while skipping sep.size() characters after each separator gives v back, for any separator that does not start with a digit |
| Version.RoundTripSingleCharSeparator | cxx/include/arthoolbox/version.hpp:22-56 | from_string(to_string(v, sep), sep) = v for a one-character non-digit separator |
| Version.ParseSkippingOneOfDoubleColon | cxx/include/arthoolbox/version.hpp:26-35 | with "::", skipping one character leaves the minor field starting with ':', so from_string throws invalid_argument |
| Version.RoundTripFailsForDoubleColon | cxx/include/arthoolbox/version.hpp:26-35 | from_string(to_string(v, "::"), "::") throws invalid_argument for every v |
| Version.RoundTripFixed | cxx/include/arthoolbox/version.hpp:22-56 | with the next field starting sep.size() past the separator, the round trip holds for every separator that does not start with a digit |
| Version.LessIsKeyOrder | cxx/include/arthoolbox/version.hpp:58-79 | operator< is the order of (major, minor, patch) read as one number, and == is equality of that number |
| Version.EqualIsIdentity | cxx/include/arthoolbox/version.hpp:76-83 | == holds exactly for equal versions and != is its negation |
| Version.LessIsStrictTotalOrder | cxx/include/arthoolbox/version.hpp:58-62 | < is irreflexive and transitive, and exactly one of <, ==, > holds |
| Version.DerivedComparisons | cxx/include/arthoolbox/version.hpp:64-74 | > is the converse of <, <= is < or ==, >= is > or ==, and <= both ways means == |
| Algorithm.Find | cxx/include/arthoolbox/algorithm.hpp:27 | std::find returns the first position in [first, last) holding the value, or last |
| Algorithm.FindFindsOccurrence | cxx/include/arthoolbox/algorithm.hpp:27-28 | find stops before last exactly when the value occurs in the range |
| Algorithm.Swap | cxx/include/arthoolbox/algorithm.hpp:29 | iter_swap exchanges two elements and leaves the others |
| Algorithm.SwapFrontSpec | cxx/include/arthoolbox/algorithm.hpp:24-32 | swap_front exchanges first with the first occurrence of the value in [first, last), when there is one and it is not first already |
| Algorithm.SwapFrontResult | cxx/include/arthoolbox/algorithm.hpp:27-31 | swap_front returns first + 1 when the value occurs in [first, last), and first otherwise |
| Algorithm.SwapFront | cxx/include/arthoolbox/algorithm.hpp:24-32 | the array and the result are those of the swap_front specification on the old contents |
| Algorithm.SwapFrontAbsent | cxx/include/arthoolbox/algorithm.hpp:27-31 | with the value absent, the range is unchanged and the result is first |
| Algorithm.SwapFrontPresent | cxx/include/arthoolbox/algorithm.hpp:28-30 | with the value present, the element at first becomes the value and the result is first + 1 |
| Algorithm.SwapFrontTouchesTwo | cxx/include/arthoolbox/algorithm.hpp:27-29 | only first and the first occurrence can change |
| Algorithm.SwapFrontPermutes | cxx/include/arthoolbox/algorithm.hpp:29 | the result is a permutation of the input |
| Algorithm.SwapFrontInPlace | cxx/include/arthoolbox/algorithm.hpp:29-30 | when the value is already at first, nothing moves and the result is first + 1 |
| StridedIterator.Advance | cxx/include/arthoolbox/iterator.hpp:159-166 | moving the iterator never changes its stride |
| StridedIterator.AdvanceAdds | cxx/include/arthoolbox/iterator.hpp:159-166 | two moves by a and b are one move by a + b |
| StridedIterator.AdvanceBack | cxx/include/arthoolbox/iterator.hpp:159-195 | moving by n then by -n returns to the start |
| StridedIterator.Sum | cxx/include/arthoolbox/iterator.hpp:265-270 | iterator + iterator is the sum of the bases |
| StridedIterator.Difference | cxx/include/arthoolbox/iterator.hpp:272-277 | iterator - iterator is the raw difference of the bases, not divided by the stride |
| StridedIterator.DifferenceOfAdvance | cxx/include/arthoolbox/iterator.hpp:272-277 | the difference after moving n steps is n · stride |
| StridedIterator.EqualIgnoresStride | cxx/include/arthoolbox/iterator.hpp:222-226 | == compares the bases only, even for different strides |
| StridedIterator.Equal | cxx/include/arthoolbox/iterator.hpp:222-226 | operator== compares the base iterators |
| StridedIterator.NotEqual | cxx/include/arthoolbox/iterator.hpp:228-232 | operator!= is not (lhs == rhs) |
| StridedIterator.Less | cxx/include/arthoolbox/iterator.hpp:234-245 | operator< compares the base iterators |
| StridedIterator.Greater | cxx/include/arthoolbox/iterator.hpp:247-251 | operator> is rhs < lhs |
| StridedIterator.LessEqual | cxx/include/arthoolbox/iterator.hpp:253-257 | operator<= is not (rhs < lhs) |
| StridedIterator.GreaterEqual | cxx/include/arthoolbox/iterator.hpp:259-263 | operator>= is not (lhs < rhs) |
| StridedIterator.LessIsTrichotomous | cxx/include/arthoolbox/iterator.hpp:222-245 | exactly one of <, ==, > holds |
| StridedIterator.LessIsTransitive | cxx/include/arthoolbox/iterator.hpp:234-245 | < is transitive |
| StridedIterator.DerivedComparisons | cxx/include/arthoolbox/iterator.hpp:228-263 | <= is < or ==, >= is > or ==, and != is < or > |
| StridedIterator.AdvanceOrders | cxx/include/arthoolbox/iterator.hpp:234-245 | with a positive stride, moving forward gives a greater iterator |
| StridedIterator.StridedIter.constructor | cxx/include/arthoolbox/iterator.hpp:35-36 | base() and stride() are the constructor's arguments |
| StridedIterator.StridedIter.Copy | cxx/include/arthoolbox/iterator.hpp:38-39 | a copy has the other's base and stride |
| StridedIterator.StridedIter.Assign | cxx/include/arthoolbox/iterator.hpp:54-61 | assignment takes the other's base and stride |
| StridedIterator.StridedIter.Base | cxx/include/arthoolbox/iterator.hpp:66 | base() is the current underlying position |
| StridedIterator.StridedIter.Stride | cxx/include/arthoolbox/iterator.hpp:71 | stride() is the stride in use |
| StridedIterator.StridedIter.Increment | cxx/include/arthoolbox/iterator.hpp:90-93 | prefix ++ advances the base by one stride |
| StridedIterator.StridedIter.PostIncrement | cxx/include/arthoolbox/iterator.hpp:100-104 | postfix ++ returns the old iterator and advances by one stride |
| StridedIterator.StridedIter.Decrement | cxx/include/arthoolbox/iterator.hpp:113-120 | prefix -- moves the base back by one stride |
| StridedIterator.StridedIter.PostDecrement | cxx/include/arthoolbox/iterator.hpp:129-137 | postfix -- returns the old iterator and moves back by one stride |
| StridedIterator.StridedIter.AddAssign | cxx/include/arthoolbox/iterator.hpp:159-166 | += n moves the base by n · stride |
| StridedIterator.StridedIter.SubtractAssign | cxx/include/arthoolbox/iterator.hpp:188-195 | -= n moves the base by -n · stride |
| StridedIterator.StridedIter.Plus | cxx/include/arthoolbox/iterator.hpp:139-150 | it + n refers to base + n · stride, with the same stride |
| StridedIterator.StridedIter.Minus | cxx/include/arthoolbox/iterator.hpp:168-179 | it - n refers to base - n · stride, with the same stride |
| StridedIterator.IncrementDecrementRoundTrip | cxx/include/arthoolbox/iterator.hpp:90-120 | ++ then -- returns to the constructor's base and stride |
| StridedIterator.AddSubtractRoundTrip | cxx/include/arthoolbox/iterator.hpp:159-195 | += n then -= n returns to the constructor's base and stride |
| TypeTraits.Items | cxx/include/arthoolbox/type_traits.hpp:35-52 | a single type contributes itself and a sequence contributes its types |
| TypeTraits.Head | cxx/include/arthoolbox/type_traits.hpp:10-19 | Head of a non-empty sequence is its first type |
| TypeTraits.Tail | cxx/include/arthoolbox/type_traits.hpp:23-32 | Tail drops the first type, and the Tail of the empty sequence is empty |
| TypeTraits.Cons | cxx/include/arthoolbox/type_traits.hpp:34-54 | Cons lays out its first argument, then its second, each a single type or a sequence |
| TypeTraits.SizeOf | cxx/include/arthoolbox/type_traits.hpp:66-73 | SizeOf is the number of types in the sequence |
| TypeTraits.ConsConcatenates | cxx/include/arthoolbox/type_traits.hpp:35-52 | all four cases of Cons lay out the first argument's types, then the second's |
| TypeTraits.ConsHeadTail | cxx/include/arthoolbox/type_traits.hpp:11-43 | Cons of Head and Tail rebuilds a non-empty sequence |
| TypeTraits.Last | cxx/include/arthoolbox/type_traits.hpp:57-62 | Last of a non-empty sequence is its final type |
| TypeTraits.AtImpl | cxx/include/arthoolbox/type_traits.hpp:76-82 | AtImpl with counter Idx is the type at I - Idx |
| TypeTraits.At | cxx/include/arthoolbox/type_traits.hpp:84-86 | At requires I < SizeOf and is the type at I |
| TypeTraits.SubViewImpl | cxx/include/arthoolbox/type_traits.hpp:92-108 | one type is appended to Out per index, and Out is kept as a prefix |
| TypeTraits.SubViewImplSelects | cxx/include/arthoolbox/type_traits.hpp:92-108 | SubViewImpl appends the types at the indexes, in order, to Out |
| TypeTraits.SubView | cxx/include/arthoolbox/type_traits.hpp:110-114 | SubView is [s[i] for i in idxs], in order |
| TypeTraits.IndexSequence | cxx/include/arthoolbox/type_traits.hpp:133 | std::make_index_sequence<n> is 0, …, n - 1 |
| TypeTraits.OffsetIndexSequence | cxx/include/arthoolbox/type_traits.hpp:120-125 | N is added to every index |
| TypeTraits.SubViewOfRange | cxx/include/arthoolbox/type_traits.hpp:110-125 | SubView over an offset index sequence is a slice |
| TypeTraits.SubViewOfPrefix | cxx/include/arthoolbox/type_traits.hpp:133 | SubView over make_index_sequence<I> is the first I types |
| TypeTraits.ReplaceIsUpdate | cxx/include/arthoolbox/type_traits.hpp:131-144 | for I < SizeOf, Replace(s, I, t) equals s[..I] + [t] + s[I+1..], the sequence with t at I |
| TypeTraits.ReplaceEmptyAtZero | cxx/include/arthoolbox/type_traits.hpp:143-144 | the I = 0 specialisation also applies to the empty sequence: Replace of TypeSequence<> at 0 is the one-type sequence [t] |
| TypeTraits.ReplaceSpec | cxx/include/arthoolbox/type_traits.hpp:131-144 | for every index Replace accepts (I = 0, or I < SizeOf), the result is s with t at I, or [t] when s is empty; its size is SizeOf(s), or 1 for the empty sequence |
| TypeTraits.Replace | cxx/include/arthoolbox/type_traits.hpp:131-144 | Replace accepts I = 0 on any sequence and any other I below SizeOf; I = 0 conses t onto the Tail, any other I splices t between the sub-views before and after I |
| TypeTraits.ReplaceGeneral | cxx/include/arthoolbox/type_traits.hpp:131-141 | the general Replace: the sub-view of the first I types, then t consed onto the sub-view of the types after I |
| TypeTraits.ReplaceGeneralIsUpdate | cxx/include/arthoolbox/type_traits.hpp:131-141 | the general definition of Replace is the sequence with t at I |
| TypeTraits.ReplaceAtZeroAgrees | cxx/include/arthoolbox/type_traits.hpp:131-144 | the I = 0 specialisation agrees with the general definition |
| LazyDict.MakeLazy | python/src/arthoolbox/collections/lazydict.py:14-23 | a callable is kept with its arguments; anything else becomes the first argument of the packing lambda; keyword arguments are kept |
| LazyDict.KeywordItems | python/src/arthoolbox/collections/lazydict.py:20 | kwargs.items() as (name, value) tuples, in order |
| LazyDict.Construct | python/src/arthoolbox/collections/lazydict.py:25-26 | construct() calls the stored callable with the stored arguments and keyword arguments |
| LazyDict.ConstructCallsCallable | python/src/arthoolbox/collections/lazydict.py:14-26 | construct() of a LazyValue of a callable calls it with exactly the given arguments |
| LazyDict.ConstructPacksNonCallable | python/src/arthoolbox/collections/lazydict.py:19-26 | construct() of a LazyValue of a non-callable returns (func, *args, *kwargs.items()) |
| LazyDict.Remove | python/src/arthoolbox/collections/lazydict.py:54-55 | removing a key keeps exactly the other keys |
| LazyDict.SetItemSpec | python/src/arthoolbox/collections/lazydict.py:41-42 | setitem stores the value at the key, a new key going last in the order |
| LazyDict.GetItemSpec | python/src/arthoolbox/collections/lazydict.py:44-51 | getitem raises KeyError on an absent key, replaces a LazyValue by what construct() returns, and returns the stored value |
| LazyDict.DelItemSpec | python/src/arthoolbox/collections/lazydict.py:54-55 | delitem raises KeyError on an absent key, and otherwise removes it from the entries and the order |
| LazyDict.SetItemKeepsValid | python/src/arthoolbox/collections/lazydict.py:41-42 | setitem stores the value at the key and no other key changes |
| LazyDict.DelItemKeepsValid | python/src/arthoolbox/collections/lazydict.py:54-55 | delitem removes the key and no other key changes |
| LazyDict.SetThenDelete | python/src/arthoolbox/collections/lazydict.py:41-55 | setting a new key then deleting it restores the dictionary |
| LazyDict.DelAbsentRaises | python/src/arthoolbox/collections/lazydict.py:54-55 | deleting an absent key raises KeyError |
| LazyDict.GetItemKeepsValid | python/src/arthoolbox/collections/lazydict.py:44-51 | getitem keeps the keys listed once each |
| LazyDict.GetItemAbsent | python/src/arthoolbox/collections/lazydict.py:45-46 | getitem on an absent key raises KeyError and changes nothing |
| LazyDict.GetItemConstructs | python/src/arthoolbox/collections/lazydict.py:48-51 | the first getitem on a LazyValue stores and returns construct()'s result |
| LazyDict.GetItemPlain | python/src/arthoolbox/collections/lazydict.py:51 | getitem on a plain value returns it and changes nothing |
| LazyDict.GetItemCaches | python/src/arthoolbox/collections/lazydict.py:48-51 | a later getitem returns the stored value without constructing again |
| LazyDict.CardinalityIsLength | python/src/arthoolbox/collections/lazydict.py:62-67 | the number of keys is the number iteration yields |
| LazyDict.LazyDictionary.constructor | python/src/arthoolbox/collections/lazydict.py:35-36 | the keyword arguments become the entries, in order |
| LazyDict.LazyDictionary.SetItem | python/src/arthoolbox/collections/lazydict.py:41-42 | the state becomes SetItemSpec of the old state |
| LazyDict.LazyDictionary.DelItem | python/src/arthoolbox/collections/lazydict.py:54-55 | KeyError with nothing changed, or the key removed |
| LazyDict.LazyDictionary.GetItem | python/src/arthoolbox/collections/lazydict.py:44-51 | the state and result are GetItemSpec's |
| LazyDict.LazyDictionary.Contains | python/src/arthoolbox/collections/lazydict.py:58-59 | true exactly for the keys present, lazy ones included |
| LazyDict.LazyDictionary.Len | python/src/arthoolbox/collections/lazydict.py:62-63 | the number of keys, which is the number of keys iteration yields |
| LazyDict.LazyDictionary.Keys | python/src/arthoolbox/collections/lazydict.py:66-67 | iteration yields exactly the keys present, each once, in insertion order |

## Left out

- Allocation failure (`perror` then `exit`) in c/String.c and c/Process.c is not modelled: allocation always succeeds.
- Freeing memory is not modelled beyond resetting fields and entries: Dafny has no `free`. Indeterminate bytes from `malloc`/`realloc` are the parameter `junk`.
- `size_t`, `ssize_t` and `int` widths are not modelled: sizes and counts are unbounded naturals.
- `atb_StringView` and `atb_ConstStringView` are one type: constness is not modelled.
- CString.View: a view is a whole array and a length, with no offset, so a view into the middle of a buffer cannot be expressed. That includes a view into the string's own buffer, which c/String.c:84 does not exclude (it only asserts `str->data != view.data`). For the string "abc" with capacity 10, appending the view (data + 1, 2) gives "abcbc" without reallocation, and reads freed memory when the append reallocates. Neither case is modelled: AppendSubStr requires the view's array to differ from the string's buffer.
- The fill callback of `atb_String_Generator` is a function from offset to character. A callback that reads other state or writes outside its range is not modelled.
- `atb_DLinkedList_Entry` (c/LinkedList.h:127-128) is not modelled: it is `offsetof` pointer arithmetic. Nodes are indexes into `next`/`prev` arrays.
- The `ForEach` macros' user-supplied loop bodies are not modelled: the traversal returns the sequence of nodes it visits.
- Process control in c/Process.c (IsAlive, GetStatus, Launch, Kill) is not modelled: those are fork, exec, kill and waitid OS calls. `atb_ProcessStatus` is only the datatype `Process.ProcessStatus`.
- `strdup` copies are string values, so the model cannot tell a copy from the original.
- The reader's file descriptor delivers its bytes and then an end of file or an error. An error before the available bytes are used up, `errno`, and partial or interrupted reads are not modelled.
- The weights and heuristic of A\* are natural numbers, not doubles. The infinite g-score of an unseen position is a missing score.
- Positions in A\* are the numbers below n: hashing and equality become number equality.
- The priority queue breaks ties by taking the first entry of least f-score. `std::priority_queue`'s own tie-breaking is not modelled.
- AStar.AStarShortestPath: does not state that the path is a shortest one, although the header promises one ("Compute the shortest path using A* algorithm", cxx/include/arthoolbox/algo/path/a_star.hpp:14). The model does not prove it, and the promise can fail: the function requires no consistent or admissible heuristic, and an expanded position is never queued again, even when its score later improves (cxx/include/arthoolbox/algo/path/a_star.hpp:79, 118-122), so with an inconsistent heuristic the path returned need not be shortest. Scores are also doubles in the source. Optimality under a consistent heuristic is not proved. Completeness is proved: a reachable goal gives a non-empty path.
- AStar.AStarShortestPathUnit: does not state that the path is a shortest one, for the same reasons as the weighted search it calls. A reachable goal gives a non-empty path.
- The statistics use `real`, not IEEE doubles: rounding and numerical stability are not modelled.
- `format` renders numbers through a `show` function given as a parameter, and N through `Decimal.NatToString`. `std::stringstream` formatting is not modelled.
- `stddev` in discrete.py is not modelled: it needs a square root.
- `math.fsum` and `math.pow` are exact sums and squares over reals.
- Python's dynamic typing is not modelled: samples are reals and `num_data` is an integer.
- python/toolbox/math/stats/discrete.py is not modelled separately: it is a byte-identical copy of python/src/arthoolbox/math/stats/discrete.py.
- `std::stoul` is modelled for base 10 in the "C" locale: white space, one sign and a run of digits. Base prefixes and other locales are not modelled.
- `from_string` on a text missing a separator is not modelled: the source asserts the separators are found, and the model requires it.
- The iterator's underlying iterator is an integer position. Dereferencing (`operator*`, `operator->`, `operator[]`) and the `static_assert`s on the iterator category are not modelled.
- StridedIterator.StridedIter.Plus, StridedIterator.StridedIter.Minus: the source builds the result with a one-argument constructor that does not exist (cxx/include/arthoolbox/iterator.hpp:149, 178). The documented result is modelled.
- StridedIterator.StridedIter.Increment: the source's return type `reference&` (cxx/include/arthoolbox/iterator.hpp:90) does not compile. The documented effect is modelled, and the return value is left out.
- StridedIterator.StridedIter.Decrement: the source's prefix `--` returns `reference` (cxx/include/arthoolbox/iterator.hpp:113-119), the element type, not the iterator, so it does not compile as written. The documented effect is modelled, one stride back, and the return value is left out.
- StridedIterator.StridedIter.PostIncrement: the source's postfix `++` calls the prefix `++`, whose `reference&` return type (cxx/include/arthoolbox/iterator.hpp:90) does not compile. The documented effect is modelled: the old iterator is returned and the base moves one stride forward.
- StridedIterator.StridedIter.PostDecrement: the source's postfix `--` calls the prefix `--`, which does not compile (cxx/include/arthoolbox/iterator.hpp:113-119). The documented effect is modelled: the old iterator is returned and the base moves one stride back.
- StridedIterator.IncrementDecrementRoundTrip: it composes the documented effects of prefix `++` and `--`, whose source does not compile as written (cxx/include/arthoolbox/iterator.hpp:90, 113-119). The round trip is proved for the documented effects.
- StridedIterator.StridedIter.Assign: the converting `operator=` assigns the `const` stride (cxx/include/arthoolbox/iterator.hpp:59), which does not compile. The model assigns it, as documented.
- The type sequences are sequences of values of a type parameter. `FromSequence` (template templates) is not modelled.
- A Cons argument is marked as one type or a sequence (`TypeTraits.Arg`). An element that is itself a `TypeSequence` is not told apart automatically.
- TypeTraits.SizeOf: it is the number of elements, |s|. In the source, `SizeOf<TypeSequence<T...>>` derives from `SizeOf<T...>` (cxx/include/arthoolbox/type_traits.hpp:71), and that specialisation matches again when the only element is itself a `TypeSequence`. So `SizeOf_v<TypeSequence<TypeSequence<A, B>>>` is 2, while the model gives 1 for that one-element sequence. `At`'s bound (type_traits.hpp:85) and `Replace`'s bound and after-indexes (type_traits.hpp:132-136) inherit the difference. For example, the source accepts `Replace<TypeSequence<TypeSequence<A, B>>, 1, N>` and gives `TypeSequence<TypeSequence<A, B>, N>`, while `TypeTraits.Replace` and `TypeTraits.At` reject index 1 there. The model's elements are values of a type parameter, so it cannot tell an element that is a sequence from one that is not.
- The `__repr__` methods of the lazy dictionary are not modelled.
- A LazyValue's callable is an opaque function of its arguments: side effects of `construct()` are not modelled.
- Keys are `LazyDict.Value`s with structural equality: Python hashing and object identity are not modelled.
- The dictionary constructor requires distinct keyword names, which Python guarantees for `**kwargs`.

## Findings

| source | as written | input that shows it | evidently intended | confidence | as-written member | corrected member |
|---|---|---|---|---|---|---|
| cxx/include/arthoolbox/version.hpp:26-30 | the next field starts one character after each separator match | `to_string({1, 2, 3}, "::")` is `"1::2::3"`; `from_string` reads the minor field `":2"`, and `std::stoul` throws `invalid_argument` | start each field `sep.size()` characters after the match, so the round trip holds for every separator | high (not executed) | Version.RoundTripFailsForDoubleColon | Version.RoundTripFixed |
| c/String.c:29-36 | `Reserve` on an unallocated string sets size 0 but never writes `data[0]` | `atb_String_Reserve(&s, 10)` on an empty `s`: `data[0]` is whatever `malloc` returned, so `data` is not a C string of length `size` | write the terminator at `data[0]`, as every other path writes `data[size]` | medium (not executed) | CString.ReserveLeavesFirstByteUnset | CString.ReserveTerminatedKeepsTerminator |
| c/String.h:321-332 | `ResizeAndFill` calls the generator only when `new_size` reaches the old capacity | `Resize(&s, 10, 'A')`, then `Resize(&s, 5, 'A')`, then `Resize(&s, 8, 'B')`: capacity 11 leaves room, so byte 5 is the old NUL and bytes 6-7 stay 'A', not "AAAAABBB" | fill [old size, new_size) whenever the string grows, as the header documents at c/String.h:156-168 | medium (not executed) | CString.ResizeWithinCapacityKeepsBuffer | CString.ResizeAndFillGrowingFillsGrownRange |
| c/Process.c:17-51 | `AppendCStrList` asserts `arg_list != NULL` before its `count == 0` early return, and `AppendCopy` passes `other->list` as is | `AppendCopy(&args, &other)` with `other` freshly initialised (`list` NULL, `size` 0) fails the assertion | appending an empty list changes nothing | high (not executed) | Process.AppendCopyOfInitialisedArgsFailsAssert | Process.ProcessArgs.AppendCopyOfAny |
| python/tests/arthoolbox/math/test_statistics.py:15-22 | the test passes `num_data = i` from `enumerate`, starting at 0 | any non-empty `data`: the first `update_mean` divides by 0 and raises `ZeroDivisionError` | `num_data = i + 1` | high (not executed) | PyStatistics.MeanLoopAsWrittenRaises | PyStatistics.MeanLoopComputesMean |
