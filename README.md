# Verified model of the geometry and statistics helpers of `model/util.py`

This project models the helper functions that the handwriting-analysis
model uses on point data. They are:

- `find_all`: the indexes of every occurrence of a value.
- `dfs` and `_dfs`: the connected group of one vertex of an adjacency
  dictionary, found by depth-first search.
- `get_quartiles`: quartiles by index arithmetic on a sorted copy.
- `get_set_distance`: distances between every pair of points.
- `point_2_set`: distance from a point to its nearest neighbour in a set.
- `get_average`: the arithmetic mean.

Python exceptions become the `Err` case of `Wrappers.Result`, with the
exception class as `Wrappers.Error`. The built-ins the helpers call are in
module `Builtins`: `min`, `sum` and `list.sort`, the last specified by its
result. A dictionary that `dfs` changes through `popitem` becomes the class
`Components.AdjacencyList`. Its field `order` keeps the keys in insertion
order, because `popitem` removes the newest entry.

Each module states what its operation computes and proves it against an
independent definition:

- `FindAll` against `Occurrences`.
- `Dfs` against `Reachable`, i.e. walks in the graph.
- `GetSetDistance` against the pair enumeration `Pairs`.
- `Quartiles` against `Median` of the sorted list and its halves.

## Model

| member | source | states |
|---|---|---|
| Indexes.FindAll | model/util.py:121-133 | returns `Occurrences(data, value)`: strictly increasing indexes, an index is listed iff it is in range and holds `value`, and there are as many as `value` occurs in `data` |
| Indexes.OccurrencesExact | model/util.py:129-133 | the occurrence list is strictly increasing and holds exactly the in-range indexes whose element equals the value |
| Indexes.OccurrencesCount | model/util.py:129-133 | the number of indexes found equals the multiplicity of the value in the data |
| Indexes.StrictlyIncreasingUnique | model/util.py:121-133 | two strictly increasing index lists with the same members are equal, so the result is determined by the set of matching positions |
| Components.AdjacencyList.constructor | model/util.py:136-140 | a dictionary with distinct keys in insertion order, each mapped to its adjacency list |
| Components.AdjacencyList.PopItem | model/util.py:144 | `popitem()` removes and returns the newest key with its list and keeps the dictionary well formed; on an empty dictionary it raises KeyError and changes nothing |
| Components.Visit | model/util.py:155-165 | `_dfs` only adds to the group; on success every neighbour of `index` is grouped, and every newly added vertex has an entry, is reachable from `index` and has all its neighbours grouped; a KeyError is raised only when some vertex reachable from `index` that was not grouped before (or `index` itself) has no entry |
| Components.Dfs | model/util.py:136-152 | pops the newest entry as the start and removes only that entry; an empty dictionary raises KeyError; otherwise it succeeds iff every vertex reachable from the start has an entry, and then returns exactly the vertices reachable from the start |
| Components.ReachableTrans | model/util.py:160-165 | reachability through a vertex added by the recursion composes |
| Components.ReachableInPart | model/util.py:144-151 | a walk in the dictionary after the start entry is popped is a walk in the original dictionary |
| Components.WalkStaysInClosed | model/util.py:147-152 | a walk starting inside a group that holds all neighbours of its members stays inside it |
| Components.ClosedHoldsReachable | model/util.py:147-152 | such a closed group contains every vertex reachable from its members, which is why the returned group is complete |
| Geometry.SquaredDistance | model/util.py:35-42 | the distance of two points (squared) is never negative |
| Geometry.DistanceSymmetric | model/util.py:35-42 | the distance does not depend on the order of the two points |
| Geometry.Point2Set | model/util.py:59-69 | raises ValueError iff the set is empty; otherwise returns the distance to some point of the set, no greater than the distance to any point of the set |
| SetDistance.GetSetDistance | model/util.py:105-118 | returns `n*(n-1)/2` distances; entry k is the distance between `data[i]` and `data[j]` for the k-th pair `(i, j)` of `Pairs(n)` |
| SetDistance.PairsEnumeration | model/util.py:112-116 | the pairs visited are exactly those with `i < j < n`, each once, in lexicographic order, `n*(n-1)/2` of them |
| SetDistance.RowUpToMembers | model/util.py:113-116 | the inner `while` loop of row `i` visits exactly the `j` with `i < j` below its bound |
| SetDistance.RowUpToStep | model/util.py:114-116 | one more turn of the inner loop appends the pair `(i, j)` |
| SetDistance.RowsBeforeBelowRow | model/util.py:112-116 | every pair of an earlier row precedes every pair of the current row |
| SetDistance.RowsBeforeMembers | model/util.py:112-116 | the rows before `i` hold exactly the pairs whose first index is below `i` |
| SetDistance.RowsBeforeSorted | model/util.py:112-116 | the rows before `i` are in lexicographic order |
| SetDistance.RowsBeforeLength | model/util.py:112-116 | the rows before `i` hold `i*(2n-i-1)/2` pairs |
| Statistics.Average | model/util.py:85-91 | raises ZeroDivisionError iff the list is empty; otherwise the average times the length equals the sum |
| Statistics.AverageWithinBounds | model/util.py:85-91 | the average lies within any lower and upper bound of the elements |
| Statistics.AverageWithinRange | model/util.py:85-91 | the average lies between the minimum and the maximum |
| Statistics.Quartiles | model/util.py:168-195 | raises IndexError iff the list is empty; below three elements returns `(data[0]-1, data[0], data[0]+1)` from the unsorted list; otherwise the second quartile is the median of the sorted copy |
| Statistics.SecondQuartileIsMedian | model/util.py:180-184 | on a list of at least three elements, q2 is its median |
| Statistics.ThirdQuartileIsUpperMedian | model/util.py:186-194 | q3 is the median of the upper half (the elements after the middle one) |
| Statistics.FirstQuartileIsLowerMedian | model/util.py:186-194 | q1 is the median of the lower half whenever the length is not 2 modulo 4 |
| Statistics.FirstQuartileWhenTwoModFour | model/util.py:187 | at lengths 2 modulo 4, q1 is element `n/4 - 1` of the sorted list while the median of the lower half is element `n/4` |
| Statistics.FirstQuartileOffByOne | model/util.py:187 | on the sorted list `[0, 1, 2, 3, 4, 5]` the code picks q1 = 0, while the lower half `[0, 1, 2]` has median 1 |
| Statistics.QuartilesCorrected | model/util.py:168-195 | the same errors and short-input result as `Quartiles` |
| Statistics.CorrectedQuartilesAreHalfMedians | model/util.py:186-194 | with the corrected index, q1, q2 and q3 are the medians of the lower half, the whole and the upper half at every length of at least three |
| Statistics.CorrectionOnlyChangesTwoModFour | model/util.py:186-194 | the correction changes nothing at lengths other than 2 modulo 4 |
| Statistics.QuartilesOrdered | model/util.py:168-195 | q1 <= q2 <= q3 for every non-empty list |
| Statistics.PickedQuartilesOrdered | model/util.py:180-194 | the indexes picked from a sorted list give q1 <= q2 <= q3 |
| Statistics.QuartilesIgnoreOrder | model/util.py:174-175 | from three elements on, the quartiles depend only on the multiset of values |
| Statistics.ShortInputDependsOnOrder | model/util.py:177-178 | below three elements the result depends on the order of the input, because the unsorted list is used |
| Statistics.TruncOf | model/util.py:182 | `int()` of a non-negative number in `[k, k+1)` is `k` |
| Statistics.Middle | model/util.py:182 | `int(len / 2)` is `n // 2` |
| Statistics.LowerLeft | model/util.py:187 | `int(n/2 - 1 - int(n/2)/2)` is `n//4 - 1`, plus one when `n % 4 == 3` |
| Statistics.LowerRight | model/util.py:191 | `int(n/2 - int(n/2)/2)` is `n//4`, plus one when `n % 4 == 3` |
| Statistics.UpperMiddle | model/util.py:188 | `int(n/2 + int(n/2)/2)` is `n//2 + n//4`, plus one when `n % 4 == 3` |
| Statistics.UpperLeft | model/util.py:192 | `int(n/2 - 1 + n%2 + int(n/2)/2)` is `n//2 + n//4 - 1 + n%2`, plus one when `n % 4 == 3` |
| Statistics.UpperRight | model/util.py:193 | `int(n/2 + n%2 + int(n/2)/2)` is `n//2 + n//4 + n%2`, plus one when `n % 4 == 3` |
| Statistics.PickOddHalf | model/util.py:186-188 | when `h = n//2` is odd, q1 is sorted element `h//2 - 1 + n%2` and q3 is element `h + h//2 + n%2` |
| Statistics.PickEvenHalf | model/util.py:189-193 | when `h = n//2` is even, q1 averages sorted elements `h//2 - 1` and `h//2`, and q3 averages elements `h + h//2 - 1 + n%2` and `h + h//2 + n%2` |
| Builtins.SortedCopy | model/util.py:174-175 | `copy.copy` then `sort()` gives a sorted permutation of the data |
| Builtins.SortedUnique | model/util.py:174-175 | two sorted permutations of the same values are equal, so the sorted copy does not depend on the sort algorithm |
| Builtins.SortedCopyOfSorted | model/util.py:174-175 | sorting a sorted list leaves it unchanged |
| Builtins.SortedCopyDependsOnElementsOnly | model/util.py:174-175 | lists with the same values have the same sorted copy |
| Builtins.Min | model/util.py:69 | `min` returns an element of the non-empty list that is no greater than any element |
| Builtins.SumBounds | model/util.py:91 | the sum of n elements within `[lo, hi]` lies within `[n*lo, n*hi]` |

## Left out

- `point_2_point` takes a square root. The model uses the squared distance, which has the same order and the same minima. `Geometry.SquaredDistance` therefore does not state the true Euclidean value.
- Geometry.SquaredDistance: does not state that the distance is zero exactly for equal points.
- Floating-point rounding: all arithmetic is on exact reals.
- The sort algorithm (Timsort) is modelled only through its result, a sorted permutation.
- `_dfs` mutates the group set in place. `Components.Visit` takes the set and returns its new value, so aliasing of the set is not modelled. On a KeyError the partly filled set is dropped, as it is in the source when the exception propagates.
- Python's recursion depth limit on `_dfs` is not modelled.
- `point_2_line`, `calculate_angle`, `get_average_point`, `Point.length`, `Point.__add__`/`__radd__` and the `Stroke` record are not part of this model. They are floating-point geometry with trigonometry and square roots.
- `model/mlp.py` and the other front-end and writer code of the repository are not part of this model.

## Findings

| source | as written | input that shows it | evidently intended | confidence | as-written member | corrected member |
|---|---|---|---|---|---|---|
| model/util.py:187 | in the odd-half branch, q1 is `ordered_data[int(n/2 - 1 - int(n/2)/2)]`, i.e. sorted index `n/4 - 1` when n is 2 modulo 4 | `get_quartiles([0, 1, 2, 3, 4, 5])` gives q1 = 0 | q1 = 1, the median of the lower half `[0, 1, 2]`, matching how q3 is taken from the upper half | not executed | Statistics.FirstQuartileOffByOne | Statistics.CorrectedQuartilesAreHalfMedians |
