# Skyline by divide and conquer

This project models `SkylineDC.findSkyline`, the recursive skyline routine of the
Skyline-Queries-with-Divide-and-Conquer program, together with the x-only sort that
`main` applies to the points before it calls the routine.

The skyline of a set of points is the set of points that no other point dominates. A
point `a` dominates `b` when `a` lies no further right (`a.x <= b.x`) and no higher
(`a.y <= b.y`) than `b`, and `a` is a different point. `findSkyline` computes it in
these steps:

1. It returns a list of at most one point unchanged.
2. It splits the list by position: the first n/2 points go left and the rest go right.
3. It computes the skyline of each half.
4. It scans the left result for its least y, starting from the constant 1001.
5. It removes from the right result every point whose y is at least that minimum.
6. It appends what is left of the right result to the left result.
7. It collapses adjacent points with equal x, keeping the one with the smaller y.

The project has three files:

- `Points.dfy` (module `Points`) holds the point value, the dominance vocabulary and
  `IsSkylineOf`. `IsSkylineOf` is the definition of a correct result: points of the
  input, a staircase (x strictly ascending, y strictly descending), undominated by
  any input point, and covering every input point.
- `SkylineSpec.dfy` (module `SkylineSpec`) states each step as a pure function:
  `MinY`, `Kept`, `CollapseFrom`/`Collapse`, `Merge` and `Skyline`. The lemmas there
  state what each step does and what the whole recursion computes.
  - Every function takes the initial value of `minY` as a parameter `init`.
  - The program's routine is `Skyline(s, Sentinel)` with `Sentinel == 1001`.
  - The skyline theorems assume every y lies below `init`. `SkylineShift` extends
    them to every y at most `init`, which for the program means every y is at most
    1001. That is the exact bound: above it the start value can lose points (see
    Findings).
  - The staircase shape of the result and its idempotence hold on every x-sorted
    input, whatever the y-coordinates.
- `SkylineDC.dfy` (module `SkylineDC`) holds the routine as the program runs it.
  - Each `ArrayList` is a sequence that the loops grow or shrink one element at a time.
  - Each loop is proved to compute the matching function of `SkylineSpec`.
  - `FindSkyline` is proved equal to `Skyline(points, Sentinel)`.

## Model

| member | source | states |
|---|---|---|
| SkylineDC.FindSkyline | src/skylinedc/SkylineDC.java:68-127 | The routine returns exactly `Skyline(points, Sentinel)`. A list of at most one point comes back unchanged. On any x-sorted input the result is a staircase. On x-sorted input with every y at most 1001 it is the skyline of the input. |
| SkylineDC.SplitHalves | src/skylinedc/SkylineDC.java:74-84 | The two copying loops split by position. The left part has n/2 points and the two parts concatenate to the input. For n >= 2 both parts are non-empty and shorter than the input, which gives termination. |
| SkylineDC.ComputeMinY | src/skylinedc/SkylineDC.java:90-95 | The scan that starts from 1001 ends with `MinY(left, Sentinel)`. |
| SkylineDC.RemoveDominated | src/skylinedc/SkylineDC.java:98-106 | The in-place removal loop, where the index stays on a removal, leaves exactly `Kept(right, minY)`. |
| SkylineDC.CollapseEqualX | src/skylinedc/SkylineDC.java:111-124 | The adjacent-pair removal loop over the merged list leaves exactly `Collapse(merged)`. |
| SkylineSpec.MinY | src/skylinedc/SkylineDC.java:90-95 | `minY` is at most the initial value and at most every y of the left result. It equals the initial value or the y of one of the left result's points, so it is min(init, least y). |
| SkylineSpec.MinYIsLeastY | src/skylinedc/SkylineDC.java:90-95 | For a non-empty left result whose y all lie below the initial value, `minY` is the y of one of its points and no point has a smaller y. |
| SkylineSpec.KeptMembers | src/skylinedc/SkylineDC.java:98-106 | A point survives the filter exactly when it is in the right result and its y is strictly below `minY`. |
| SkylineSpec.KeptConcat | src/skylinedc/SkylineDC.java:98-106 | The filter decides point by point: filtering a concatenation is the concatenation of the filtered parts. |
| SkylineSpec.KeptRemove | src/skylinedc/SkylineDC.java:100-101 | Removing a point whose y is at least `minY` does not change what the filter keeps. |
| SkylineSpec.KeptStaircase | src/skylinedc/SkylineDC.java:98-106 | The filter keeps the order of what it keeps, so it maps a staircase to a staircase. |
| SkylineSpec.KeptAllBelow | src/skylinedc/SkylineDC.java:98-106 | When every y lies below `minY`, the filter removes nothing. |
| SkylineSpec.CollapseFromWithin | src/skylinedc/SkylineDC.java:111-124 | The collapse only drops points: each point it keeps is the current point or a later one. |
| SkylineSpec.CollapseWithin | src/skylinedc/SkylineDC.java:111-124 | Every point the collapse keeps occurs in its input. |
| SkylineSpec.CollapseIncreasing | src/skylinedc/SkylineDC.java:111-124 | On x-sorted input no two kept points share an x-coordinate and x strictly ascends. Equal adjacent x are gone, and with them duplicate points. |
| SkylineSpec.CollapseKeepsLowest | src/skylinedc/SkylineDC.java:113-119 | On x-sorted input, each kept point has the least y of all input points with its x. |
| SkylineSpec.CollapseCovers | src/skylinedc/SkylineDC.java:111-124 | In any order, every input point meets a kept point with the same x and no larger y. |
| SkylineSpec.CollapseNoAdjacentEqualX | src/skylinedc/SkylineDC.java:111-124 | On any input, sorted or not, no two neighbours in the collapse's result share an x-coordinate, so equal adjacent points are gone too. |
| SkylineSpec.CollapseDistinctX | src/skylinedc/SkylineDC.java:111-124 | When the x-coordinates strictly ascend, the collapse removes nothing. |
| SkylineSpec.CollapseStaircase | src/skylinedc/SkylineDC.java:111-124 | An x-sorted list with strictly descending y collapses to a staircase. |
| SkylineSpec.Kept | src/skylinedc/SkylineDC.java:98-106 | The order-preserving filter that `RemoveDominated` computes. Its own contract bounds only the length; `KeptMembers`, `KeptConcat`, `KeptStaircase` and `KeptAllBelow` characterise it. |
| SkylineSpec.CollapseFrom | src/skylinedc/SkylineDC.java:111-124 | The collapse pass from a current point: the result is non-empty, no longer than the points it is given, and starts with a point at the current point's x. `CollapseFromWithin`, `CollapseFromNoAdjacentEqualX` and `CollapseFromTailWithin` characterise it further. |
| SkylineSpec.Collapse | src/skylinedc/SkylineDC.java:111-124 | The collapse that `CollapseEqualX` computes: no longer than its input, and empty exactly when the input is. `CollapseWithin`, `CollapseIncreasing`, `CollapseKeepsLowest`, `CollapseCovers` and `CollapseNoAdjacentEqualX` characterise it. |
| SkylineSpec.Merge | src/skylinedc/SkylineDC.java:89-124 | The step after the two recursive calls: minY scan, filter, append, collapse. The result is no longer than both inputs together and non-empty when the left result is. `MergeWithin`, `MergeStaircase` and `MergeCovers` characterise it. |
| SkylineSpec.Skyline | src/skylinedc/SkylineDC.java:68-127 | findSkyline as a function of the input and the initial `minY`. The result is no longer than the input and empty exactly when the input is. `SkylineWithin`, `SkylineStaircase`, `SkylineCorrect` and `SkylineIdempotent` characterise it. |
| SkylineSpec.MergeWithin | src/skylinedc/SkylineDC.java:89-124 | The merge step, which filters, appends and collapses, keeps only points of the two results it merges. |
| SkylineSpec.SkylineWithin | src/skylinedc/SkylineDC.java:68-127 | Whatever the input, the result holds only points of the input. |
| SkylineSpec.SplitSorted | src/skylinedc/SkylineDC.java:74-84 | Both halves of the positional split of an x-sorted list are x-sorted, and they concatenate to the list. |
| SkylineSpec.SplitLeftOf | src/skylinedc/SkylineDC.java:74-84 | In the positional split of an x-sorted list, no left point lies right of a right point. |
| SkylineSpec.MergedOrdered | src/skylinedc/SkylineDC.java:108 | Take a left staircase and a filtered right staircase to its right, whose y all lie below every left y. Appending them gives an x-sorted list with strictly descending y. |
| SkylineSpec.MergeStaircase | src/skylinedc/SkylineDC.java:86-124 | Merging two staircases drawn from a left part and a part to its right gives a staircase, whatever the y-coordinates. |
| SkylineSpec.MergeCovers | src/skylinedc/SkylineDC.java:86-124 | Take a non-empty left result whose y all lie below the initial `minY`, drawn from a part left of the right part. Every point covered by one of the two halves' results is then covered by the merged result. Without the y condition this fails (see Findings). |
| SkylineSpec.CoveredTransitive | src/skylinedc/SkylineDC.java:108-124 | Covering composes: what covers a cover covers the original points. |
| SkylineSpec.MinYShift | src/skylinedc/SkylineDC.java:90-95 | When every y of a non-empty left result is at most the start value, starting the scan one higher gives the same `minY`, the true least y. |
| SkylineSpec.SkylineShift | src/skylinedc/SkylineDC.java:68-127 | When every y is at most the start value, starting `minY` one higher gives the same result. |
| SkylineSpec.SkylineCorrectUpTo | src/skylinedc/SkylineDC.java:68-127 | On x-sorted input with every y at most the start value, the result is the skyline of the input. For the program's 1001 start, that means every y at most 1001. |
| SkylineSpec.SkylineStaircase | src/skylinedc/SkylineDC.java:68-127 | On any x-sorted input, whatever its y-coordinates, the result has strictly ascending x and strictly descending y, so the merge never needs a re-sort. |
| SkylineSpec.SkylineTailBelow | src/skylinedc/SkylineDC.java:89-124 | On any input, every point of the result after the first has y below the initial `minY`: it survived a filter against a `minY` no larger than that. |
| SkylineSpec.SkylineCorrect | src/skylinedc/SkylineDC.java:59-127 | On x-sorted input with every y below the initial `minY`, the result is the skyline of the input. It holds only input points, is a staircase, is undominated by any input point, and covers every input point. |
| Points.SkylineMembership | src/skylinedc/SkylineDC.java:59-66 | A skyline holds exactly the input points that no input point dominates, in both directions. |
| Points.StaircaseUndominated | src/skylinedc/SkylineDC.java:59-66 | A staircase of input points that covers the input is not dominated by any input point. |
| Points.StaircaseDeterminedBySet | src/skylinedc/SkylineDC.java:59-66 | Two staircases with the same points are the same sequence. |
| SkylineSpec.StaircaseHalves | src/skylinedc/SkylineDC.java:74-84 | Both halves of the positional split of a staircase are staircases. |
| SkylineSpec.MergeStaircaseHalves | src/skylinedc/SkylineDC.java:88-124 | Take a staircase split into a non-empty left half and a right half whose y all lie below the initial `minY`. Merging the halves gives the staircase back: the filter and the collapse remove nothing. |
| SkylineSpec.StaircaseFixpoint | src/skylinedc/SkylineDC.java:68-127 | A staircase whose points after the first have y below the initial `minY` is returned unchanged. |
| SkylineSpec.SkylineIdempotent | src/skylinedc/SkylineDC.java:68-127 | On any x-sorted input, whatever its y-coordinates, applying the routine to its own result changes nothing. |
| SkylineSpec.SkylineIndependentOfTieOrder | src/skylinedc/SkylineDC.java:143-151 | The sort orders only by x, so points with equal x keep their file order. Any two x-sorted orders of the same multiset of points, with every y below the initial `minY`, give the same result. Without the y condition this fails (see Findings). |
| SkylineSpec.SentinelDropsUndominatedPoint | src/skylinedc/SkylineDC.java:90 | With the 1001 start, input `[(1,2000), (2,1500)]` yields `[(1,2000)]`. The result drops `(2,1500)`, although no input point dominates it. |
| SkylineSpec.SentinelTieOrderMatters | src/skylinedc/SkylineDC.java:90-101 | With the 1001 start, `[(1,2000), (1,1500)]` yields `[(1,2000)]` and `[(1,1500), (1,2000)]` yields `[(1,1500)]`. The result depends on the order of equal-x points, and the first result keeps a point that (1,1500) dominates. |
| SkylineSpec.CorrectedIndependentOfTieOrder | src/skylinedc/SkylineDC.java:143-151 | If `minY` starts at `Integer.MAX_VALUE`, any two x-sorted orders of the same points with `short` y give the same result. |
| SkylineSpec.CorrectedSkylineIsSkyline | src/skylinedc/SkylineDC.java:49 | If `minY` starts at `Integer.MAX_VALUE`, the result on x-sorted input is the skyline for every y that `nextShort` can read. The corrected routine is also idempotent. |

## Left out

- `openFile` and `readFile` (src/skylinedc/SkylineDC.java:20-57) are not modelled. They do file and `Scanner` I/O, and errors end in `System.exit`. The model takes the point list as its input. The only fact taken from them is that coordinates are Java `short` values (`ShortYs`).
- `main` (src/skylinedc/SkylineDC.java:133-162) is not modelled: printing, timing and argument handling.
- The `Collections.sort` call with the x comparator is not modelled as a sort routine. Its result, a list sorted by x with ties in any order, is the precondition `SortedByX` of the correctness lemmas. `SkylineIndependentOfTieOrder` covers the freedom in how ties are ordered.
- `java.awt.Point` identity and aliasing are not modelled, and points are values. In the base case the routine returns the very list it was given, and later steps mutate that list in the caller through `addAll` and `remove`. Each list here is a fresh sequence value, which gives the same contents.
- Java `int` overflow is not modelled. Coordinates are `short` values and the only arithmetic is comparison, so no overflow can occur.
- FindSkyline: the skyline property is stated only for inputs whose y are all at most 1001. Above that the routine as written can fail to compute the skyline, namely when some left result has every y above 1001; many such inputs still come out right (see Findings). The staircase shape holds on every x-sorted input.
- Skyline, Merge, Kept, Collapse and CollapseFrom: their own `ensures` state only lengths, emptiness and the first point's x. What they compute is stated by the lemmas in the table above.

## Findings

| source | as written | input that shows it | evidently intended | confidence | as-written member | corrected member |
|---|---|---|---|---|---|---|
| src/skylinedc/SkylineDC.java:90 | `minY` starts at 1001. When every y of a left result exceeds 1001, `minY` stays 1001 instead of the least left y. The filter then removes right points with y from 1001 up to below that least left y, although no point of the two halves being merged dominates them. `readFile` accepts any `short`, up to 32767. | `[(1,2000), (2,1500)]`, sorted by x: the result is `[(1,2000)]` instead of `[(1,2000), (2,1500)]` | `minY` starts at a value above every possible y, such as `Integer.MAX_VALUE` | medium (the program's inputs may stay within 0..1000); not executed | SkylineSpec.SentinelDropsUndominatedPoint | SkylineSpec.CorrectedSkylineIsSkyline |
| src/skylinedc/SkylineDC.java:90-101 | With `minY` at 1001 and a left result whose y all exceed 1001, the filter removes every right point with y >= 1001. In the example that is the whole right result, so which point of an equal-x group survives depends on the order the stable sort left the group in. | `[(1,2000), (1,1500)]` yields `[(1,2000)]`, which (1,1500) dominates; `[(1,1500), (1,2000)]` yields `[(1,1500)]` | the result depends only on the set of points, as with `minY` starting at `Integer.MAX_VALUE` | medium (the program's inputs may stay within 0..1000); not executed | SkylineSpec.SentinelTieOrderMatters | SkylineSpec.CorrectedIndependentOfTieOrder |
