# spot_it: projective planes and FloatRange, in Dafny

This project models two parts of the Spot-It card generator and proves their properties.

**The projective plane generator** (`src/spot_it/projective_plane.py`).
- It builds the points and lines of the plane of order n over the integers modulo n.
- Two kinds of point:
  - the affine points `(x, y)`;
  - the points at infinity, one per slope `0..n-1`, plus one for the vertical direction.
- The source marks the vertical direction with `None`; here it is the `Vertical` case of `Direction`.
- Generators and `map` become sequences, kept in the order the source yields them.
- `get_order` maps a point count back to the order. Its `ProjectivePlaneError` becomes a result value that carries the nearest valid count.
- Proved for every order n:
  - the counts, the order of enumeration and the distinctness of the points;
  - which points lie on each line;
  - every element of every line is a point of the plane;
  - two lines through the same point at infinity meet only there.
- For prime n, any two distinct lines meet in exactly one point. This is the property the card deck depends on.
- For n = 4 the construction is not a plane: two of its lines share two points.

**FloatRange** (`src/spot_it/utils.py`), a set of reals kept as a list of ranges `(lower, upper)`.
- Here it is a class whose `ranges` field is a `seq<Range>`; its methods mirror the source's methods and keep its loops.
- Each loop is proved equal to a function of module `Intervals` (`Has`, the scan of `__contains__`, to `Contains`).
- Bounds are exact reals.
- The properties of those functions are proved as lemmas, stated as the set of reals each result holds:
  - normalization: sorted, separated and membership-preserving;
  - union;
  - difference by a range and by a FloatRange;
  - intersection;
  - buffering;
  - non-emptiness;
  - the length-weighted sampler, which lands inside the set and inverts its distribution function.
- `random()` takes as a parameter the number `u` in [0, 1) that `random.random()` would return.
- `create_mapping` becomes a `map` built from two sequences.

## Modules and files

- `projective_plane.dfy`: module `ProjectivePlane`, the generator and `get_order`.
- `plane_incidence.dfy`: module `PlaneIncidence`, the enumeration and incidence theorems.
- `mod_arith.dfy`: module `ModArith`, the modular arithmetic those theorems need. It proves Bezout's identity and the existence of inverses modulo a prime.
- `intervals.dfy`: module `Intervals`, the value semantics of FloatRange.
- `utils.dfy`: module `Utils`, the `FloatRange` class and `create_mapping`.

`with_buffer` returns a new FloatRange, and construction normalizes it, so buffered ranges that come to overlap or touch merge (`src/spot_it/utils.py:74-77`).

## Model

| member | source | states |
|---|---|---|
| ProjectivePlane.PointAtInfinity.Line | src/spot_it/projective_plane.py:32-43 | a line has order+1 elements and starts with its point at infinity |
| ProjectivePlane.PointAtInfinity.Lines | src/spot_it/projective_plane.py:28-43 | a point at infinity has `order` lines, and line k is the one with offset k |
| ProjectivePlane.PointsAtInfinity | src/spot_it/projective_plane.py:48-57 | there are n+1 points at infinity |
| ProjectivePlane.InfinityPoints | src/spot_it/projective_plane.py:62 | n+1 elements; no further contract: the points at infinity as line elements, proved by `PlaneIncidence.InfinityPointsMembers` |
| ProjectivePlane.LinesThrough | src/spot_it/projective_plane.py:63-64 | no contract; the lines of each given point at infinity in turn, proved by `PlaneIncidence.LinesThroughAt` |
| ProjectivePlane.AllLines | src/spot_it/projective_plane.py:60-65 | no contract; defined as the lines through the points at infinity followed by the line at infinity, proved by `PlaneIncidence.AllLinesShape` and `PlaneIncidence.LinesMeetOnce` |
| ProjectivePlane.Row | src/spot_it/projective_plane.py:71-72 | n elements; no further contract: the inner loop, the points (i, 0) to (i, n-1) |
| ProjectivePlane.AffinePoints | src/spot_it/projective_plane.py:70-72 | no contract; the first rows of the nested loop, proved by `PlaneIncidence.AffinePointsMembers`, `AffinePointsAt` and `AffinePointsDistinct` |
| ProjectivePlane.AllPoints | src/spot_it/projective_plane.py:68-73 | no contract; defined as the affine points followed by the points at infinity, proved by `PlaneIncidence.AllPointsEnumerate` and `PlaneIncidence.AllPointsOrder` |
| ProjectivePlane.FloorSqrt | src/spot_it/projective_plane.py:82 | the result r satisfies r*r <= m < (r+1)*(r+1), i.e. it is floor(sqrt(m)) |
| ProjectivePlane.GetOrder | src/spot_it/projective_plane.py:76-88 | an order n satisfies n*n+n+1 == number; an error reports the count q*q+q+1, with q = floor(sqrt(number-1)), which differs from number |
| ProjectivePlane.FloorSqrtUnique | src/spot_it/projective_plane.py:82 | the floor square root is the only r with r*r <= m < (r+1)*(r+1) |
| ProjectivePlane.GetOrderOfCount | src/spot_it/projective_plane.py:82-88 | get_order(p*p+p+1) returns p, for every p >= 0 |
| ProjectivePlane.GetOrderFails | src/spot_it/projective_plane.py:83-87 | get_order fails exactly when number is not p*p+p+1 for any p |
| ProjectivePlane.GetOrderNearest | src/spot_it/projective_plane.py:82-87 | the count an error reports is the nearest valid count: no p*p+p+1 is closer to number (ties at number = q*q+1 go to the larger) |
| ProjectivePlane.GetOrderOfTwo | src/spot_it/projective_plane.py:82-87 | 2 is rejected with 3, although 1 is as near |
| ProjectivePlane.GetOrderOfSix | src/spot_it/projective_plane.py:82-87 | 6 is rejected with nearest valid count 7 |
| PlaneIncidence.PointsAtInfinityEnumerate | src/spot_it/projective_plane.py:48-57 | the points at infinity are slopes 0..n-1 in order, then the vertical direction; all have order n; all differ; a point is among them iff it is a direction of order n |
| PlaneIncidence.InfinityPointsMembers | src/spot_it/projective_plane.py:62 | the list of points at infinity holds exactly the directions of order n |
| PlaneIncidence.AffinePointsMembers | src/spot_it/projective_plane.py:70-72 | the first `rows` rows give rows*n points, exactly those (i, j) with 0 <= i < rows and 0 <= j < n |
| PlaneIncidence.AffinePointsAt | src/spot_it/projective_plane.py:70-72 | point (i, j) is at index i*n+j: i is the outer loop and j the inner |
| PlaneIncidence.AffinePointsDistinct | src/spot_it/projective_plane.py:70-72 | no affine point is yielded twice |
| PlaneIncidence.AllPointsEnumerate | src/spot_it/projective_plane.py:68-73 | all_points(n) has n*n+n+1 pairwise distinct elements, exactly the affine points with coordinates in [0, n) and the points at infinity of order n |
| PlaneIncidence.AllPointsOrder | src/spot_it/projective_plane.py:68-73 | index i*n+j holds (i, j), and index n*n+k holds the k-th point at infinity |
| PlaneIncidence.LineMembers | src/spot_it/projective_plane.py:32-43 | e lies on line k of a point at infinity iff e is that point, or an affine (x, (m*x+k) mod n) with x in [0, n) for slope m, or (k, y) with y in [0, n) for the vertical direction |
| PlaneIncidence.LinesThroughAt | src/spot_it/projective_plane.py:63-64 | the lines through the points at infinity come point by point: index d*n+k holds line k of the d-th point |
| PlaneIncidence.AllLinesShape | src/spot_it/projective_plane.py:60-65 | all_lines(n) has n*(n+1)+1 lines of n+1 elements each; line d*n+k is line k through the d-th point at infinity, and the last line is the list of points at infinity |
| PlaneIncidence.LinesArePoints | src/spot_it/projective_plane.py:60-73 | every element of every line is one of all_points(n) |
| PlaneIncidence.ParallelLinesMeetAtInfinity | src/spot_it/projective_plane.py:32-43 | two different lines through the same point at infinity share only that point, for every n |
| PlaneIncidence.SlopeMeetsVertical | src/spot_it/projective_plane.py:32-43 | a sloped line and a vertical line share exactly one point, for every n |
| PlaneIncidence.CrossingSlopesMeetOnce | src/spot_it/projective_plane.py:33-40 | for prime n, lines of two different slopes share exactly one point |
| PlaneIncidence.LineMeetsInfinity | src/spot_it/projective_plane.py:60-65 | each line through a point at infinity meets the line at infinity only in that point |
| PlaneIncidence.AffineLinesMeetOnce | src/spot_it/projective_plane.py:60-64 | for prime n, two different lines through points at infinity share exactly one point |
| PlaneIncidence.LinesMeetOnce | src/spot_it/projective_plane.py:60-65 | for prime n, any two different lines of all_lines(n) share exactly one point, as needed for a projective plane |
| PlaneIncidence.CompositeOrderLinesMeetTwice | src/spot_it/projective_plane.py:33-40 | for n = 4, line 0 of slope 0 and line 0 of slope 2 share both (0, 0) and (2, 0), so the result is not a projective plane |
| Intervals.Contains | src/spot_it/utils.py:79-83 | no contract; the scan of `__contains__`, characterised by `Intervals.ContainsIff` |
| Intervals.NonEmpty | src/spot_it/utils.py:135-136 | no contract; `__bool__`, tied to membership by `Intervals.NonEmptyIffMember` |
| Intervals.ContainsIff | src/spot_it/utils.py:79-83 | `v in r` iff some range of r has lower <= v <= upper |
| Intervals.NonEmptyIffMember | src/spot_it/utils.py:135-136 | with lower <= upper throughout, having at least one range is the same as holding some real |
| Intervals.Insert | src/spot_it/utils.py:51 | no contract; places a range before the first range whose lower bound is not below its own, so ties keep their order as in `sorted` |
| Intervals.SortByLo | src/spot_it/utils.py:51 | no contract; `sorted` by lower bound, proved by `Intervals.SortByLoSpec` and `Intervals.SortByLoSorted` |
| Intervals.MergeStep | src/spot_it/utils.py:55-61 | no contract; one iteration of the merge loop, proved by `Intervals.MergeStepSpec` and `Intervals.MergeStepContains` |
| Intervals.Merged | src/spot_it/utils.py:54-62 | the merge never lengthens the list and keeps a non-empty list non-empty; its meaning is proved by `Intervals.MergedSpec` and `Intervals.MergedContains` |
| Intervals.Normalize | src/spot_it/utils.py:50-63 | no contract; sort then merge, proved by `Intervals.NormalizeSpec` and `Intervals.NormalizeIdempotent` |
| Intervals.SortByLoSpec | src/spot_it/utils.py:51 | sorting gives a list ordered by lower bound that is a permutation of the input |
| Intervals.SortByLoSorted | src/spot_it/utils.py:51 | sorting an already sorted list leaves it unchanged |
| Intervals.MergeStepContains | src/spot_it/utils.py:55-61 | one merge step holds exactly the reals of the ranges so far and of the current range |
| Intervals.MergeStepSpec | src/spot_it/utils.py:55-61 | one merge step of a sorted, separated list keeps it sorted and separated, and keeps lower <= upper and lower < upper |
| Intervals.MergedSpec | src/spot_it/utils.py:54-62 | merging a sorted list gives ranges that stay sorted, with each ending strictly before the next begins; lower <= upper and lower < upper survive |
| Intervals.MergedContains | src/spot_it/utils.py:54-62 | merging a sorted list holds the same reals |
| Intervals.MergedSeparated | src/spot_it/utils.py:54-62 | merging a list whose ranges are already strictly apart changes nothing |
| Intervals.NormalizeSpec | src/spot_it/utils.py:50-63 | normalized ranges are sorted and strictly apart and hold the same reals; lower <= upper and lower < upper are kept; the result is empty iff the input is |
| Intervals.ConstructedContains | src/spot_it/utils.py:46-48 | `v in FloatRange(*rs)` iff one of the given ranges holds v |
| Intervals.NormalizeIdempotent | src/spot_it/utils.py:50-63 | normalizing twice gives the same as normalizing once |
| Intervals.NormalizeExamples | src/tests/test_floatrange.py:4-12 | the four construction examples of the tests |
| Intervals.UnionContains | src/spot_it/utils.py:85-88 | `a + b` holds v iff a or b holds v |
| Intervals.Cut | src/spot_it/utils.py:95-105 | no contract; the five branches of one iteration of the tuple loop, proved by `Intervals.CutSpec` and `Intervals.CutInside` |
| Intervals.SubtractPieces | src/spot_it/utils.py:92-105 | no contract; the pieces the tuple loop collects, in order |
| Intervals.SubtractRange | src/spot_it/utils.py:90-106 | no contract; `r - (l, u)`, proved by `Intervals.SubtractRangeSpec` and `Intervals.SubtractRangeInside` |
| Intervals.SubtractAll | src/spot_it/utils.py:107 | no contract; the left fold of `SubtractRange` over the other's ranges, proved by `Intervals.SubtractAllSpec` |
| Intervals.CutSpec | src/spot_it/utils.py:95-105 | the pieces kept from one range lie inside it, keep its reals below lower or above upper, and, for a range with lower < upper, keep none strictly between lower and upper |
| Intervals.SubtractPiecesSpec | src/spot_it/utils.py:92-105 | the same three facts for the whole loop; lower < upper is preserved |
| Intervals.SubtractRangeSpec | src/spot_it/utils.py:90-106 | `r - (l, u)` is inside r and keeps its reals below l or above u; if every range of r has lower < upper, no real strictly between l and u remains |
| Intervals.CutInside | src/spot_it/utils.py:95-105 | a real strictly between lower and upper survives one iteration only when the current range is the single point at that real |
| Intervals.SubtractPiecesInside | src/spot_it/utils.py:92-105 | the same for the whole loop: such a real survives only if [v, v] is one of the ranges |
| Intervals.SubtractRangeInside | src/spot_it/utils.py:90-106 | `r - (l, u)` holds a real strictly between l and u only if [v, v] is one of r's ranges |
| Intervals.CutKeepsPoint | src/spot_it/utils.py:95-105 | every branch of one iteration leaves a single-point range whole |
| Intervals.SubtractPiecesKeepsPoint | src/spot_it/utils.py:92-105 | a single-point range of the input is held by the loop's pieces |
| Intervals.SubtractRangeKeepsPoint | src/spot_it/utils.py:90-106 | a single-point range of r always survives `r - (l, u)`; with `SubtractRangeInside` and `SubtractRangeSpec` this is the exact effect outside [l, u] and strictly inside (l, u) |
| Intervals.SubtractRangeDropsBound | src/spot_it/utils.py:98 | [0.5, 0.6] minus (0.5, 0.6) is empty, so the bound 0.5 is dropped, while [0, 1] minus (0.5, 0.6) keeps it |
| Intervals.SubtractAllSpec | src/spot_it/utils.py:107 | `r - s` (the fold over s's ranges) is inside r, keeps every real outside all of s's ranges, and, if every range of r has lower < upper, removes every real strictly inside one of them |
| Intervals.SubtractExamples | src/spot_it/utils.py:95-106 | [0, 1] minus (0.5, 0.6) is [0, 0.5] and [0.6, 1]; minus a covering range it is empty |
| Intervals.SubtractKeepsInnerPoint | src/spot_it/utils.py:98-105 | a single-point range strictly inside the subtracted interval is kept |
| Intervals.Overlap | src/spot_it/utils.py:116-123 | no contract; the four cases of the inner loop, proved by `Intervals.OverlapSpec` |
| Intervals.PairPieces | src/spot_it/utils.py:115-123 | no contract; the inner loop's pieces in order |
| Intervals.IntersectPieces | src/spot_it/utils.py:113-123 | no contract; the nested loops' pieces in order |
| Intervals.Intersect | src/spot_it/utils.py:112-124 | no contract; `a & b`, proved by `Intervals.IntersectContains` |
| Intervals.OverlapSpec | src/spot_it/utils.py:116-123 | the four cases give exactly the common reals, a shared endpoint included; an inverted range overlaps nothing |
| Intervals.PairPiecesSpec | src/spot_it/utils.py:115-123 | the inner loop holds v iff the range of self and some range of other hold v |
| Intervals.IntersectPiecesSpec | src/spot_it/utils.py:113-123 | the nested loops hold v iff both operands hold v |
| Intervals.IntersectContains | src/spot_it/utils.py:112-127 | `a & b` holds v iff both a and b hold v, inverted ranges included |
| Intervals.Buffered | src/spot_it/utils.py:75-77 | as many ranges as the original; each range widened by the buffer on both sides, proved by `Intervals.WithBufferContains` |
| Intervals.WithBufferContains | src/spot_it/utils.py:74-77 | for a buffer b >= 0 and ranges with lower <= upper, `with_buffer(b)` holds v iff some real held by the original is within b of v |
| Intervals.WithBufferExamples | src/tests/test_floatrange.py:26-34 | the four buffering examples of the tests, including two ranges that merge |
| Intervals.TotalLength | src/spot_it/utils.py:66 | no contract; `total_length`, the sum of upper - lower |
| Intervals.Walk | src/spot_it/utils.py:67-71 | no contract; the decrementing loop with its early return, proved by `Intervals.WalkInside` and `Intervals.WalkMeasure` |
| Intervals.Sample | src/spot_it/utils.py:65-72 | no contract; `random()` given u, with None for the IndexError on an empty FloatRange, proved by `Intervals.SampleSpec` |
| Intervals.TotalLengthNonNegative | src/spot_it/utils.py:66 | the total length of ranges with lower <= upper is at least 0 |
| Intervals.WalkInside | src/spot_it/utils.py:67-71 | started between 0 and the total length, the loop returns, and its value lies in a range |
| Intervals.WalkMeasure | src/spot_it/utils.py:67-71 | on sorted and separated ranges, the value returned has exactly the starting amount of length at or below it |
| Intervals.SampleSpec | src/spot_it/utils.py:65-72 | `random()` fails exactly when there are no ranges; otherwise, for ranges with lower <= upper, it returns a held real; on normalized ranges that real has the share u of the total length at or below it |
| Intervals.SampleExample | src/spot_it/utils.py:65-71 | sampling [0, 1] and [2, 3] with u = 0.75 gives 2.5 |
| Utils.FloatRange.constructor | src/spot_it/utils.py:46-48 | the new FloatRange holds the normalized input |
| Utils.FloatRange.Cleanup | src/spot_it/utils.py:50-63 | the sort-and-merge loop leaves the normalization of the old ranges in the field |
| Utils.FloatRange.Random | src/spot_it/utils.py:65-72 | the loop gives the sampled value; no value iff there are no ranges; for ranges with lower <= upper the value is held; on normalized ranges it has the share u of the length at or below it |
| Utils.FloatRange.WithBuffer | src/spot_it/utils.py:74-77 | a new FloatRange of the ranges widened by the buffer, normalized |
| Utils.FloatRange.Has | src/spot_it/utils.py:79-83 | the scan answers true iff some range holds the value, which is `Contains` |
| Utils.FloatRange.IsNonEmpty | src/spot_it/utils.py:135-136 | `bool(r)` iff there is a range, which for ranges with lower <= upper is iff r holds some real |
| Utils.FloatRange.Add | src/spot_it/utils.py:85-88 | a new FloatRange of both operands' ranges (the tuple, or the other's ranges), normalized |
| Utils.FloatRange.Or | src/spot_it/utils.py:109-110 | the same result as `+` |
| Utils.FloatRange.SubBounds | src/spot_it/utils.py:91-106 | the tuple loop gives a new FloatRange holding the difference by the tuple |
| Utils.FloatRange.Sub | src/spot_it/utils.py:90-107 | tuple difference, or the fold of it over the other's ranges: self itself when the other has no ranges, a new FloatRange otherwise |
| Utils.FloatRange.Intersection | src/spot_it/utils.py:112-124 | the nested loops give a new FloatRange holding the intersection |
| Utils.AppendOverlaps | src/spot_it/utils.py:115-123 | the inner loop of `intersection` appends, in order, the overlap of one range of self with each range of other, by the source's four cases |
| Utils.FloatRange.And | src/spot_it/utils.py:126-127 | the same result as `intersection` |
| Utils.MappingOf | src/spot_it/utils.py:18 | no contract; the dictionary of the first n pairs, inserted in order, proved by `Utils.MappingOfSpec` |
| Utils.CreateMapping | src/spot_it/utils.py:16-18 | no contract; `dict(zip(seq1, seq2))`, proved by `Utils.CreateMappingSpec` and `Utils.CreateMappingDistinct` |
| Utils.MappingOfSpec | src/spot_it/utils.py:16-18 | the first n pairs give exactly their keys, each mapped to the value of its last occurrence |
| Utils.CreateMappingSpec | src/spot_it/utils.py:16-18 | the keys are those of the zipped pairs (up to the shorter length); each maps to the value of its last occurrence |
| Utils.CreateMappingDistinct | src/spot_it/utils.py:16-18 | with distinct keys and enough values, the i-th key maps to the i-th value |

## Left out

- `src/spot_it/randomization.py`, `images.py`, `pdfs.py` and `spot_it.py` are not part of this model: they do floating-point geometry, image drawing, PDF output and orchestration.
- `get_images` is not modelled: it globs a directory and loads images.
- `to_int_tuple` and `to_complex` are not modelled: they convert between complex floats and integers.
- `FloatRange.__repr__` and `__str__` are not modelled: they only format text.
- Floating point: bounds are exact reals, so rounding (which the tests absorb with `pytest.approx`) is not modelled.
- GetOrder: `math.sqrt` becomes an exact integer floor square root, so precision loss for very large counts is not modelled. Counts below 1, where `math.sqrt` raises, are excluded by the precondition.
- Orders are natural numbers, so `range` over a negative order is not modelled.
- Randomness: `random.random()` becomes the parameter `u` of `Random` and `Sample`. The claim that a uniform u gives a uniform value is stated through the distribution function (`LengthBelow`), not as a probability.
- Intervals.SubtractRangeSpec: removal of the reals strictly inside the subtracted range is stated only when every range has lower < upper. The source keeps a single-point range that lies strictly inside, as `SubtractKeepsInnerPoint` shows; `SubtractRangeInside` states that this is the only way such a real survives.
- Intervals.SubtractRangeInside: at the bounds l and u themselves the result is not characterised. Whether a bound survives depends on the branch: [0.5, 0.6] minus (0.5, 0.6) drops 0.5 (`SubtractRangeDropsBound`), while [0, 1] minus (0.5, 0.6) keeps it (`SubtractExamples`).
- Intervals.SubtractAllSpec: the same restriction as `SubtractRangeSpec` (every range of r has lower < upper). The exact survivors of a fold are not characterised, because normalization between steps can merge a kept single point into a neighbouring range.
- Intervals.WithBufferContains: stated only for ranges with lower <= upper. An inverted range holds no real, yet buffering can turn it into one that does: (1, 0) buffered by 1 becomes [0, 1].
- Intervals.SortByLoSpec: states sortedness and permutation. Stability is built into `Insert`, which places a range before the first range whose lower bound is not below its own; it is not stated as a separate lemma.
- The dual incidence properties (every point lies on n+1 lines; two points share exactly one line) are not stated.
- The prime-order theorem covers prime orders only. Prime powers, where a genuine plane exists over a different field, are not constructed by the source either.
- Aliasing: `Sub` with a FloatRange operand reads that operand's ranges once, before the fold. The source also iterates over a list that the fold does not change.
