# Edit distance, quicksort and Dijkstra's shortest path, verified in Dafny

This project models three algorithms from the EECS-630 course repository and
proves what each one promises.

- `edit_distance.dfy` (module `MyEditDistance`) covers `EditDistance` and the row
  building of `PrintAlignment`:
  - `EditDistance` fills the (|str1|+1) x (|str2|+1) dynamic-programming table.
    It then backtracks from the last cell, prepending one tag per step to
    `operations`. The tags are `M`atch, `C`onvert, `I`nsert and `D`elete. The
    result is `dp[len1][len2]`.
  - `PrintAlignment` replays a script into three rows: the first string with
    gaps, the markers, and the second string with gaps.
  - The model proves that the table value:
    - is the least number of edits over all scripts;
    - does not depend on the order of the two strings.
  - It also proves that:
    - the backtracked script turns `str1` into `str2` with exactly that many edits;
    - the rows give both strings back once the gaps are dropped.
- `quicksort.dfy` (module `MyQuicksort`) covers the quicksort header: `IsSorted`,
  `InsertionSort`, `ArrayMedian3`, the recursive `Quicksort` and its driver.
  - Each sort works in place on an `array<int>`. It takes an inclusive range
    `left..right` and a `reverse` flag.
  - The model proves that each sort:
    - sorts its range;
    - keeps the multiset of elements;
    - leaves everything outside the range alone.
  - It also proves that two sorted arrangements of one multiset are equal, so
    the driver leaves an already sorted array as it was.
- `dijkstra.dfy` (module `MyDijkstra`) covers `ShortestPath_Dijkstra`:
  - `dist` starts at INT_MAX and `prev` at -1.
  - A min-priority queue of (distance, node) pairs drives the search. Stale
    entries are skipped, and the loop stops early once the target is popped.
  - After the loop, the path is read back along `prev` and reversed.
  - The model proves that:
    - no walk from source to target weighs less than `path_len`;
    - when `path_len` is below INT_MAX, the returned path is a walk of the
      graph from source to target whose edge weights add up to `path_len`;
    - otherwise the path is just the target.

The queue is a multiset of entries. `top()` is the least entry in the
lexicographic order of pairs, which is what `std::greater` gives
`std::priority_queue`. Ghost state records the order in which nodes are
settled, and the proofs use it.

## Model

| member | source | states |
|---|---|---|
| MyEditDistance.Min3 | MyEditDistance_a676m513.h:47 | the result is one of the three values and no larger than any of them |
| MyEditDistance.Dist | MyEditDistance_a676m513.h:33-50 | the value of cell dp[i][j]: i in the first column, j in the first row, the diagonal when str1[i-1] and str2[j-1] agree, and one more than the least of diagonal, left and up otherwise. FillTable proves the table holds it; Minimal and BacktrackCorrect prove it is the least edit count |
| MyEditDistance.DistUpper | MyEditDistance_a676m513.h:33-50 | a cell is at most the longer of the two prefix lengths |
| MyEditDistance.DistLower | MyEditDistance_a676m513.h:33-50 | a cell is at least the difference of the two prefix lengths |
| MyEditDistance.DistBounds | MyEditDistance_a676m513.h:33-50 | a cell lies between the difference of the prefix lengths and the longer of them |
| MyEditDistance.Edits | MyEditDistance_a676m513.h:16-17 | the edits of a script (every C, I and D, not M), never more than its length |
| MyEditDistance.Consumed1 | MyEditDistance_a676m513.h:16-17 | the characters of the first string a script consumes (M, C and D), never more than its length |
| MyEditDistance.Consumed2 | MyEditDistance_a676m513.h:16-17 | the characters of the second string a script consumes (M, C and I), never more than its length |
| MyEditDistance.TagCount | MyEditDistance_a676m513.h:16-17 | a script holds no more tags than characters |
| MyEditDistance.Converts | MyEditDistance_a676m513.h:16-17 | what a script means: M consumes two equal characters, C one of each string, I one of the second, D one of the first, and nothing else is a tag. Minimal, BacktrackCorrect and SwapRolesConverts are stated with it |
| MyEditDistance.ConvertsLength | MyEditDistance_a676m513.h:16-17 | a script turning str1[..i] into str2[..j] is no shorter than either prefix and no longer than both together |
| MyEditDistance.Flush | MyEditDistance_a676m513.h:78-86 | the third backtracking loop emits one tag per remaining column of str2, each of them C or I. FlushFromFirstColumn shows that from column 0 it is inserts only |
| MyEditDistance.Backtrack | MyEditDistance_a676m513.h:54-86 | the script backtracking emits from (i, j): delete before insert before the diagonal on ties, then deletes for the remaining rows and the third loop for the remaining columns. BacktrackCorrect proves it converts with exactly dp[i][j] edits |
| MyEditDistance.BacktrackShape | MyEditDistance_a676m513.h:54-86 | the backtracked script holds only tags, and its length lies between the longer prefix and the sum of the two |
| MyEditDistance.Repeat | MyEditDistance_a676m513.h:74-77 | n copies of one character: length n, every position that character |
| MyEditDistance.CountPrefix | MyEditDistance_a676m513.h:57-86 | a prefix of a script holds no more of any tag than the whole script |
| MyEditDistance.Adjacent | MyEditDistance_a676m513.h:34-50 | neighbouring table cells differ by at most one |
| MyEditDistance.Minimal | MyEditDistance_a676m513.h:42-50 | every script that turns s[..i] into t[..j] has at least dp[i][j] edits |
| MyEditDistance.ConvertsCounts | MyEditDistance_a676m513.h:16-17 | a script relating s[..i] and t[..j] consumes exactly i characters of s and j of t, and holds nothing but tags |
| MyEditDistance.FlushFromFirstColumn | MyEditDistance_a676m513.h:74-86 | the convert branch of the third backtracking loop never fires, because the second loop leaves i at 0: the third loop prepends j inserts |
| MyEditDistance.DeletesConvert | MyEditDistance_a676m513.h:74-77 | i deletes turn s[..i] into the empty string with i edits |
| MyEditDistance.InsertsConvert | MyEditDistance_a676m513.h:78-86 | j inserts turn the empty string into t[..j] with j edits |
| MyEditDistance.BacktrackCorrect | MyEditDistance_a676m513.h:54-86 | the backtracked script turns s[..i] into t[..j] with exactly dp[i][j] edits |
| MyEditDistance.DeleteCell | MyEditDistance_a676m513.h:58-60 | a step up (tag D) keeps the script converting, with the edit count equal to the cell |
| MyEditDistance.InsertCell | MyEditDistance_a676m513.h:61-63 | a step left (tag I) keeps the script converting, with the edit count equal to the cell |
| MyEditDistance.DiagCell | MyEditDistance_a676m513.h:64-72 | a diagonal step (tag M when the cell equals the diagonal, else C) keeps the script converting, with the edit count equal to the cell |
| MyEditDistance.BacktrackTag | MyEditDistance_a676m513.h:58-72 | the tag chosen at an inner cell is one of M, C, I, D |
| MyEditDistance.PrependStep | MyEditDistance_a676m513.h:57-73 | the backtracked script from an inner cell is the script from the neighbour its tag names (up for D, left for I, diagonal for M and C) followed by that tag, so each branch of the main loop prepends that tag and moves to that neighbour |
| MyEditDistance.SnocConverts | MyEditDistance_a676m513.h:16-17 | appending a tag to a script for the prefixes that tag leaves over converts the longer prefixes, with one more edit unless the tag is M |
| MyEditDistance.IdenticalStrings | MyEditDistance_a676m513.h:44-45 | a string is at distance 0 from itself and backtracks into matches only |
| MyEditDistance.SwapRoles | MyEditDistance_a676m513.h:16-17 | exchanging I and D in a script keeps its length |
| MyEditDistance.SwapRolesConverts | MyEditDistance_a676m513.h:16-17 | a script for (s, t) with I and D exchanged converts t into s with the same number of edits |
| MyEditDistance.Symmetric | MyEditDistance_a676m513.h:21-90 | the edit distance of (s, t) equals that of (t, s) |
| MyEditDistance.FillRow | MyEditDistance_a676m513.h:43-49 | the inner fill loop sets row i to the specification's values and changes no other row |
| MyEditDistance.FillTable | MyEditDistance_a676m513.h:31-50 | every cell dp[i][j] of the fresh table holds the edit distance of str1[..i] and str2[..j] |
| MyEditDistance.TrailingInserts | MyEditDistance_a676m513.h:78-86 | the third backtracking loop prepends exactly the flush script of its start cell |
| MyEditDistance.BacktrackStep | MyEditDistance_a676m513.h:58-72 | one step of the main backtracking loop, testing the dp cells as the source does, prepends exactly the tag the specification picks at (i, j) and moves to the neighbour that tag names |
| MyEditDistance.Backtrace | MyEditDistance_a676m513.h:54-86 | the three backtracking loops prepend the backtracked script of the last cell |
| MyEditDistance.EditDistance | MyEditDistance_a676m513.h:21-90 | returns dp[len1][len2] and prepends the backtracked script. That script converts str1 into str2 with exactly `distance` edits, counts the characters of each string, and holds only tags. No script has fewer edits. Identical strings give 0 and all matches. The distance lies between the difference of the two lengths and the longer length, and the script's length between the longer length and the sum |
| MyEditDistance.Tags | MyEditDistance_a676m513.h:137-165 | the characters the replay acts on (unknown characters fall through the switch) are at most the whole script |
| MyEditDistance.Row1 | MyEditDistance_a676m513.h:137-165 | the first row has one column per tag |
| MyEditDistance.Row2 | MyEditDistance_a676m513.h:137-165 | the third row has one column per tag |
| MyEditDistance.Markers | MyEditDistance_a676m513.h:137-165 | the middle row holds `\|` for M, `*` for C and a space for I and D, one per tag |
| MyEditDistance.Marker | MyEditDistance_a676m513.h:144-162 | the marker is `\|` exactly for M and `*` exactly for C; I and D give a space |
| MyEditDistance.ConsumedPrefix | MyEditDistance_a676m513.h:133-165 | a prefix of a script consumes no more of either string |
| MyEditDistance.Row1Gapless | MyEditDistance_a676m513.h:137-165 | dropping the insert columns of the first row gives back the consumed prefix of str1 |
| MyEditDistance.Row2Gapless | MyEditDistance_a676m513.h:137-165 | dropping the delete columns of the third row gives back the consumed prefix of str2 |
| MyEditDistance.Row1Without | MyEditDistance_a676m513.h:152-157 | when str1 has no '-', erasing every '-' from the first row gives back the consumed prefix |
| MyEditDistance.Row2Without | MyEditDistance_a676m513.h:158-163 | when str2 has no '-', erasing every '-' from the third row gives back the consumed prefix |
| MyEditDistance.GapColumns | MyEditDistance_a676m513.h:152-163 | insert columns show '-' in the first row, delete columns show '-' in the third |
| MyEditDistance.MatchColumns | MyEditDistance_a676m513.h:140-145 | for a converting script every column is a tag and the two rows agree in every match column |
| MyEditDistance.RowsRestore | MyEditDistance_a676m513.h:103-119 | the three properties of the alignment rows together, for any script and for a whole converting script |
| MyEditDistance.Alignment | MyEditDistance_a676m513.h:121-165 | builds exactly the three rows, and they give both strings back, keep gaps in the insert and delete columns, and agree in the match columns |
| MyEditDistance.TagsOfTags | MyEditDistance_a676m513.h:137-139 | a script made of tags only is replayed character for character |
| MyEditDistance.RowsSnoc | MyEditDistance_a676m513.h:137-165 | one more pass of the replay loop: an M or C appends the next character of each string and `\|` or `*`; an I appends '-', the next character of str2 and a space; a D appends the next character of str1, '-' and a space; any other character changes nothing |
| MyEditDistance.DocumentedAlignment | MyEditDistance_a676m513.h:111-119 | replaying "DMMMICM" against "ACAACC" and "CAAAAC" consumes both strings and gives the rows "ACAA-CC", " \|\|\| *\|" and "-CAAAAC" |
| MyEditDistance.DocumentedRow1Start | MyEditDistance_a676m513.h:111-117 | the first four columns of that example's first row are "ACAA" |
| MyEditDistance.DocumentedRow1 | MyEditDistance_a676m513.h:111-117 | that example's first row is "ACAA-CC" and it consumes all of "ACAACC" |
| MyEditDistance.DocumentedMarkers | MyEditDistance_a676m513.h:114-118 | that example's middle row is " \|\|\| *\|" |
| MyEditDistance.DocumentedRow2Start | MyEditDistance_a676m513.h:113-119 | the first four columns of that example's third row are "-CAA" |
| MyEditDistance.DocumentedRow2 | MyEditDistance_a676m513.h:113-119 | that example's third row is "-CAAAAC" and it consumes all of "CAAAAC" |
| MyQuicksort.Median3 | MyQuicksort_a676m513.hpp:69-72 | the median is one of the three values, with at least two of them no greater and at least two no less |
| MyQuicksort.InOrder | MyQuicksort_a676m513.hpp:22 | x may stand before y exactly when the test of IsSorted does not report the pair as out of order |
| MyQuicksort.Before | MyQuicksort_a676m513.hpp:119 | x must stand before y (x < y, or x > y when reverse), the strict test of the partition loop and of the shift at line 57, which holds exactly when y may not stand before x |
| MyQuicksort.InOrderTotal | MyQuicksort_a676m513.hpp:22 | of two values one may stand before the other, and each before the other only when they are equal |
| MyQuicksort.InOrderTrans | MyQuicksort_a676m513.hpp:22 | the order the sorts test with is transitive, ascending and descending |
| MyQuicksort.AdjacentIffSorted | MyQuicksort_a676m513.hpp:16-30 | neighbouring pairs in order holds if and only if every pair is in order |
| MyQuicksort.SortedUnique | MyQuicksort_a676m513.hpp:137-140 | two sorted sequences with the same multiset of elements are equal |
| MyQuicksort.BoundKept | MyQuicksort_a676m513.hpp:128-129 | sorting one side of the pivot keeps every element on that side of it |
| MyQuicksort.RangePermuted | MyQuicksort_a676m513.hpp:128-129 | a permutation that fixes everything outside a range permutes the range |
| MyQuicksort.JoinAroundPivot | MyQuicksort_a676m513.hpp:126-129 | a sorted part before the pivot, the pivot, and a sorted part not before it make a sorted range |
| MyQuicksort.IsSorted | MyQuicksort_a676m513.hpp:16-30 | true exactly when every neighbouring pair is in order (ascending, or descending when reverse), which holds exactly when the whole array is sorted |
| MyQuicksort.ArrayMedian3 | MyQuicksort_a676m513.hpp:74-91 | as written: returns one of x, y, z, the index of the median except when a[x] == a[y] < a[z], where it returns z, whose value is not the median |
| MyQuicksort.ArrayMedian3MissesTie | MyQuicksort_a676m513.hpp:78-88 | on [1, 1, 2] the as-written test returns index 2 (value 2) while the median is 1 |
| MyQuicksort.ArrayMedian3Fixed | MyQuicksort_a676m513.hpp:69-72 | returns one of x, y, z whose value is the median of the three, for every input |
| MyQuicksort.InsertionSort | MyQuicksort_a676m513.hpp:50-66 | sorts a[left..right], keeps the multiset, changes nothing outside the range, and leaves the array alone when left >= right |
| MyQuicksort.InsertOne | MyQuicksort_a676m513.hpp:54-62 | inserting a[i] into the sorted a[left..i-1] sorts a[left..i], keeping the multiset and everything else |
| MyQuicksort.Inserted | MyQuicksort_a676m513.hpp:57-62 | dropping the saved element into the free slot after the shift gives a sorted permutation of the range |
| MyQuicksort.InsertedPermutes | MyQuicksort_a676m513.hpp:57-62 | the shift followed by the store is a permutation |
| MyQuicksort.InsertedPair | MyQuicksort_a676m513.hpp:57-62 | every pair of positions in the range is in order after the store |
| MyQuicksort.Put | MyQuicksort_a676m513.hpp:57-62 | the store a[k] = x changes a[k] to x and nothing else |
| MyQuicksort.Partition | MyQuicksort_a676m513.hpp:110-126 | with the pivot ArrayMedian3 picks among a[left], a[mid] and a[right], returns its final position p, where a[p] is that picked value: every element before it must stand before the pivot, none after it must, and the multiset and everything outside the range are kept |
| MyQuicksort.Swap | MyQuicksort_a676m513.hpp:112-126 | std::swap of a[i] and a[j] exchanges the two and changes nothing else, so it keeps the multiset |
| MyQuicksort.LongRange | MyQuicksort_a676m513.hpp:101-108 | a range of more than BOUNDARY_SIZE elements has left < right, so the second base case is never reached |
| MyQuicksort.Gather | MyQuicksort_a676m513.hpp:115-124 | the Lomuto loop leaves the pivot at `right` and splits a[left..right-1] at i into the elements that must stand before the pivot and the rest |
| MyQuicksort.Quicksort | MyQuicksort_a676m513.hpp:98-132 | sorts a[left..right], keeps the multiset, changes nothing outside the range, and changes nothing for an empty range |
| MyQuicksort.Recombine | MyQuicksort_a676m513.hpp:126-129 | sorting the two sides of a partition sorts the whole range |
| MyQuicksort.QuicksortAll | MyQuicksort_a676m513.hpp:137-140 | sorts the whole array, keeps its multiset, and leaves an already sorted array unchanged |
| MyDijkstra.Reversed | MyDijkstra_a676m513.h:75 | position k of the result is position n-1-k of the input |
| MyDijkstra.ValidGraph | MyDijkstra_a676m513.h:30-35 | what the model demands of the graph: every edge leads to a node, and every weight is at most UINT_MAX - INT_MAX |
| MyDijkstra.SumReversed | MyDijkstra_a676m513.h:75 | reversing a path keeps its total weight |
| MyDijkstra.ReversedChain | MyDijkstra_a676m513.h:71-75 | a chain of back-links read in reverse is a walk of the graph of the same weight |
| MyDijkstra.TopExists | MyDijkstra_a676m513.h:43-47 | a non-empty queue has a least entry for top() to return |
| MyDijkstra.EntryLe | MyDijkstra_a676m513.h:40 | a may leave the queue before b exactly when std::greater does not rank a above b: the lexicographic order of (distance, node) |
| MyDijkstra.IsTop | MyDijkstra_a676m513.h:47 | the entry top() returns is queued, and no queued entry has a smaller distance, nor the same distance and a smaller node |
| MyDijkstra.TopUnique | MyDijkstra_a676m513.h:40 | the least entry in the pair order is unique |
| MyDijkstra.Initial | MyDijkstra_a676m513.h:38-42 | dist at INT_MAX except 0 at the source, prev at -1 and the queue holding (0, source) satisfy the loop invariant |
| MyDijkstra.SkipStale | MyDijkstra_a676m513.h:53-56 | popping an entry whose distance exceeds dist[u] keeps the invariant |
| MyDijkstra.Settle | MyDijkstra_a676m513.h:47-57 | popping the top entry (d, u) with d <= dist[u] settles u at exactly d, the largest settled distance so far, and keeps the invariant |
| MyDijkstra.RelaxEdge | MyDijkstra_a676m513.h:61-66 | lowering dist[v] to dist[u] + w, setting prev[v] = u and pushing the pair keeps the invariant, one more edge of u relaxed |
| MyDijkstra.SettledPush | MyDijkstra_a676m513.h:63 | lowering an unsettled node's distance keeps what holds of the settled ones |
| MyDijkstra.HasPrevPush | MyDijkstra_a676m513.h:63-64 | a node given a distance is given a predecessor |
| MyDijkstra.QueuePush | MyDijkstra_a676m513.h:65 | the pushed pair names a node and a distance no smaller than the last settled one |
| MyDijkstra.RelaxedPush | MyDijkstra_a676m513.h:61-63 | the relaxed edge now bounds its target's distance, and earlier relaxed edges still do |
| MyDijkstra.CoveredPush | MyDijkstra_a676m513.h:63-65 | every reached unsettled node still has its current distance in the queue |
| MyDijkstra.LinksPush | MyDijkstra_a676m513.h:61-64 | the new prev link is an edge from a settled node of the recorded weight |
| MyDijkstra.KeepEdge | MyDijkstra_a676m513.h:61 | an edge that does not lower its target's distance leaves the state relaxed one edge further |
| MyDijkstra.Processed | MyDijkstra_a676m513.h:57-67 | once all of u's edges are followed, u is an ordinary settled node |
| MyDijkstra.WalkBound | MyDijkstra_a676m513.h:43-68 | along any walk from the source, the last node's distance is at most the walk's weight, or the walk weighs at least the frontier bound |
| MyDijkstra.LoopExit | MyDijkstra_a676m513.h:43-52 | when the queue is empty or the target is on top, no walk to the target weighs less than dist[target] |
| MyDijkstra.TotalLowered | MyDijkstra_a676m513.h:63 | lowering one distance lowers the sum of all distances, which bounds the number of rounds |
| MyDijkstra.LoweredProgress | MyDijkstra_a676m513.h:61-66 | a lowering round makes progress toward termination |
| MyDijkstra.NoProgress | MyDijkstra_a676m513.h:61 | a round that changes nothing is neutral for termination |
| MyDijkstra.ProgressTrans | MyDijkstra_a676m513.h:57-67 | progress composes over the edges of u |
| MyDijkstra.FramedLowered | MyDijkstra_a676m513.h:61-64 | when edge k of u lowers its target v, v now has predecessor u and distance L + w along that edge; every other node keeps its record of the first k edges (a changed distance came from one of u's edges, with predecessor u, and an unchanged one kept its predecessor) |
| MyDijkstra.FramedKept | MyDijkstra_a676m513.h:61 | an edge that lowers nothing leaves that record as it was, now over k+1 edges |
| MyDijkstra.KeptGrow | MyDijkstra_a676m513.h:65 | a step that pushes at most one entry keeps every entry the queue held when the loop began |
| MyDijkstra.KeptIncluded | MyDijkstra_a676m513.h:57-67 | keeping every entry is multiset inclusion of the old queue in the new |
| MyDijkstra.RelaxStep | MyDijkstra_a676m513.h:59-66 | one pass of the inner loop for edge i of u keeps the loop invariant, dist[u] == L and progress, extends the record of changed nodes to i+1 edges, and either leaves the queue as it was or adds exactly (L + w, v) |
| MyDijkstra.Lower | MyDijkstra_a676m513.h:63-64 | dist[v] becomes x and prev[v] becomes u and nothing else changes |
| MyDijkstra.RelaxOne | MyDijkstra_a676m513.h:59-66 | following edge i of u to v with weight w: when dist[v] > dist[u] + w, dist[v] becomes dist[u] + w, prev[v] becomes u and (dist[v], v) is pushed; otherwise dist, prev and the queue are unchanged. dist[u] stays as it was |
| MyDijkstra.StepLowered | MyDijkstra_a676m513.h:61-66 | when edge k of u lowers its target, the update RelaxOne makes keeps the loop invariant for k+1 edges and lowers the total distance |
| MyDijkstra.StepKept | MyDijkstra_a676m513.h:61 | when edge k of u does not lower its target, the unchanged state satisfies the invariant for k+1 edges |
| MyDijkstra.Relax | MyDijkstra_a676m513.h:57-67 | relaxing every edge of the settled node u keeps the invariant and never raises a distance; every node whose distance changed now has predecessor u and distance L + w along one of u's edges, every other node keeps its predecessor, and the old queue is contained in the new one |
| MyDijkstra.LinkAt | MyDijkstra_a676m513.h:71-74 | a prev link the path walk follows names a settled node, settled earlier, joined to the node by an edge of the recorded weight that accounts for its distance |
| MyDijkstra.FollowPrev | MyDijkstra_a676m513.h:71-74 | the chain starts at the target and every step is an edge of the recorded weight back to the previous node. A reached target's chain ends at the source with weight at most dist[target]. An unreached target, or one without a predecessor, gives [target] |
| MyDijkstra.Search | MyDijkstra_a676m513.h:38-68 | at loop exit no walk from source to target weighs less than dist[target], and the prev links can be followed back |
| MyDijkstra.ShortestPathDijkstra | MyDijkstra_a676m513.h:30-77 | path_len is at most INT_MAX and no walk weighs less. Below INT_MAX, the path is a walk from source to target whose weights sum to path_len. At INT_MAX the path is [end]. Source equal to end gives 0 and [source] |

## Left out

- The closest-pair header is not part of this model, because it works on
  floating point.
- Console output is not modelled. This covers the printing in `IsSorted`, the
  `std::cout` lines of `PrintAlignment` (the model returns the three rows) and
  `PrintArray`.
- The templates over `Comparable` are modelled with `int` elements and the
  `<` / `>` of `int`.
- `std::priority_queue` is modelled as a multiset of entries whose `top()` is the
  least entry in the pair order. The binary heap behind it is not modelled.
- `std::swap`, `std::reverse`, `std::min` and `std::string` concatenation are
  modelled by their meaning (`Swap`, `Reversed`, `Min3`, sequence concatenation).
  Their implementations are not modelled.
- MyDijkstra.ValidGraph: the model requires every edge target to be a node and
  every weight to be at most UINT_MAX - INT_MAX. With such weights,
  `dist[u] + w` cannot wrap around 32 bits. The source places no such
  demand, so heavier weights, whose sums wrap in unsigned arithmetic, are not
  modelled. The 32-bit wrap-around of `dist[u] + w` is not modelled either.
- MyDijkstra.ShortestPathDijkstra: the node type is unbounded. `prev` holds
  `int`, with -1 as "no predecessor", where the source stores -1 in an
  unsigned slot. The edge weights of the path are a ghost result.
- Unsigned 32-bit counters and table cells in `EditDistance` are unbounded
  naturals. No table value can exceed the string lengths, so nothing wraps for
  strings shorter than UINT_MAX characters (DistBounds bounds every cell, and
  BacktrackShape bounds the script's length). Longer strings are not modelled:
  lines 28-29 of the edit distance header narrow `str.length()` (a `size_t`)
  into an `unsigned int`, which truncates a length of 2^32 or more, and
  `len1 + 1` at line 31 wraps to 0 when `len1` is UINT_MAX.
- MyEditDistance.Alignment requires the script to consume no more characters of
  either string than it has. The source's `str[index++]` on a `const
  std::string&` is defined one place past the end, where it yields `'\0'`, and
  undefined beyond. So the requires also excludes a script that consumes exactly
  one character too many, which the source renders with a NUL character.
- MyQuicksort.Quicksort keeps the source's `left >= right` test, but that branch
  cannot be taken: the size test before it already catches every range of at
  most ten elements. Quicksort calls LongRange before the test, which states this.
- MyQuicksort.QuicksortAll: the driver passes `a.size() - 1` as `right`. For an
  empty array this is -1, which the model passes as is, giving an empty range.
- MyQuicksort.QuicksortAll: arrays of INT_MAX elements or more are not modelled.
  The model passes `a.Length - 1`, an unbounded integer, but at line 139 of the quicksort
  header `a.size() - 1` (a `size_t`) narrows into the `int right` of line 98.
  With 2^31 elements `right` is INT_MAX, and `right - left + 1` at line 101
  overflows, which is undefined behaviour. With 2^31 + 1 elements `right` wraps
  to INT_MIN, the size test passes, InsertionSort does nothing, and the vector
  comes back unsorted. For such arrays the model's sortedness ensures is
  stronger than what the source does. Quicksort on a range has the same bound:
  `right - left + 1` must fit in an `int`.
- Each operation is split into helper methods that follow the blocks of the
  source; a helper carries the loops of its block, if it has any:
  - edit distance: `FillTable` / `FillRow`, `Backtrace` / `BacktrackStep` / `TrailingInserts`;
  - quicksort: `InsertOne`, `Put`, `Swap`, `Partition` / `Gather`;
  - Dijkstra: `Search`, `Relax` / `RelaxStep` / `RelaxOne`, `Lower`, `FollowPrev`.

  Together they run the same statements in the same order as the source.

## Findings

| source | as written | input that shows it | evidently intended | confidence | as-written member | corrected member |
|---|---|---|---|---|---|---|
| MyQuicksort_a676m513.hpp:78-88 | the test for returning x compares both of its tests strictly, so when a[x] == a[y] < a[z] none of the three branches picks x or y and z is returned | a = [1, 1, 2], x, y, z = 0, 1, 2: returns index 2 (value 2, the maximum) while the median is 1 | return an index holding the median of a[x], a[y], a[z] | not executed | MyQuicksort.ArrayMedian3MissesTie | MyQuicksort.ArrayMedian3Fixed |
