# visimerge in Dafny

visimerge computes the region that is visible from the origin when the plane
holds opaque line segments. Each segment endpoint becomes a *view ray*. A ray
records:

- its angle `t` in `[0, 2 pi]`;
- its unit direction `v`;
- a left limit `l` and a right limit `r`, the distances at which the
  obstacles on either side of the ray cut the line of sight.

The serial C++ implementation works in three steps:

1. It builds the two rays of every segment.
2. It sorts all rays by angle with a bottom-up merge sort: pass `p` merges
   adjacent runs of `2 << p` rays and ping-pongs between the output array and
   a heap buffer.
3. Inside every two-run merge it recomputes the pair of limits at each
   boundary between consecutive output rays. For this it cuts the segment
   spanned by the bracketing pair of each run in turn, first a's and then
   b's; b's pair replaces a's result when it gives a tighter limit.

A Python prototype does the same top-down:

- it splits any segment that crosses the positive x-axis;
- it merges the halves of the segment list recursively;
- it takes ties from the second run, and it range-checks the intersection
  parameter on `[0, 1]`.

The model is written over exact reals. It has one module for each source file:

- `Util`, `Vectors`, `Segments`, `ViewRays` hold the value types and the
  geometric primitives.
- `CMath` passes `sqrt`, `atan2` and pi in as a value `Libm`. The ghost
  predicate `ValidLibm` states the only facts the proofs use about them: the
  signs of `sqrt` and the range of `atan2`.
- `SerialVisimerge` holds the intersection, cut and limit helpers, each as a
  method with its out-parameters returned. It also holds the two-run merge as
  a method that writes into an `array` and is proved against the function
  `MergeRuns`.
- `SerialVisimergesort` holds `log2`, `init_viewrays` (a loop over an
  `array`) and the sort itself, with its two arrays and pointer swaps. The
  sort is proved against the function `Visimergesort`.
- `VisimergesortProperties` proves what the sort delivers: the headings
  (angle and direction) of the initial rays are permuted, the output is
  sorted, and the limits that face a neighbour are finite and well formed.
- `NotebookVisimerge` is the Python prototype. Its `merge` loop is a method
  proved against the function `Merged`. The permutation, sortedness, tie and
  limit-rewrite properties of `merge` are proved there, and so are the
  permutation and sortedness of `visimerge`.

Two behaviours of the code are easy to misread:

- `init_viewrays` builds the opening ray with `l = norm(a)` and `r = INF`,
  because the constructor order is `(t, v, l, r)`.
- The C++ acceptance test for the intersection parameter has no upper bound:
  `IntersectionBeyondEndpoint` exhibits a hit at parameter 2. The Python
  prototype does check `i <= 1`.

Limits are represented as follows:

- In the C++ model a limit is `Lim = Fin(x) | Inf`, so a finite `-1` ("no
  limit") and `0` (equal angles) are ordinary values.
- The Python prototype stores `-1` for a missing limit.
- `NotebookVisimerge.AsViewRay` maps the Python representation to the C++ one.

## Model

| member | source | states |
|---|---|---|
| Util.AlmostEqualReflexive | src/visimerge/util.h:9-14 | every value is almost equal to itself |
| Util.AlmostEqualSymmetric | src/visimerge/util.h:9-14 | almost_equal does not depend on the order of its arguments |
| Util.AlmostEqualScale | src/visimerge/util.h:12-13 | when both magnitudes are at most 1 the test is the absolute bound 1e-9, otherwise 1e-9 times the larger magnitude |
| Util.AlmostEqualZero | src/visimerge/util.h:12-13 | almost_equal(x, 0) holds exactly when abs(x) <= 1e-9 |
| Util.NotAlmostZeroIsNonZero | src/visimerge/util.h:9-14 | a value that is not almost zero is non-zero, so the divisions guarded by the test are defined |
| Vectors.ComponentSelects | src/visimerge/vec2.h:15-18 | v[0] is x, v[i] for any other i is y, and the default vector is (0, 0) |
| Vectors.CrossAntisymmetric | src/visimerge/vec2.h:23-27 | cross(a, a) = 0 and cross(b, a) = -cross(a, b) |
| Vectors.AddSubInverse | src/visimerge/vec2.h:30-55 | over the reals (a + b) - b = a, (a - b) + b = a, and (a * s) / s = a for s != 0 |
| Vectors.NormNonNegative | src/visimerge/vec2.h:58-62 | norm is non-negative, and positive away from the origin |
| Vectors.NormalizeRoundTrip | src/visimerge/vec2.h:65-69 | normalize(a) scaled by norm(a) gives a back, where norm(a) != 0 |
| Vectors.Atan2Range | src/visimerge/vec2.h:72-77 | the remapped angle lies in [0, 2 pi) |
| Vectors.Atan2PositiveXAxis | src/visimerge/vec2.h:72-77 | points on the positive x-axis have angle 0 |
| Vectors.AreCollinearProperties | src/visimerge/vec2.h:80-86 | are_collinear(a, a, c) holds, and swapping b and c does not change the result |
| Vectors.AlmostEqualVecProperties | src/visimerge/vec2.h:89-93 | componentwise almost_equal of vectors is reflexive and symmetric |
| Segments.SegmentAccessors | src/visimerge/segment.h:10-20 | the constructor stores a then b, s[0] is a and s[i] for i != 0 is b, and the default segment has both ends at the origin |
| Segments.AlmostEqualSegmentProperties | src/visimerge/segment.h:23-27 | the in-order endpoint comparison is reflexive and symmetric |
| ViewRays.ViewRayFields | src/visimerge/viewray.h:27-31 | the constructor stores angle, direction, left and right limit in that order; vx and vy return the direction's components; the default ray is all zero |
| ViewRays.Headings | src/visimerge/viewray.h:17-39 | the headings of a run are the (angle, direction) pairs of its rays, index by index |
| SerialVisimerge.AcceptsIsLowerBoundOnly | src/visimerge/serial_visimerge.h:29 | the acceptance test holds exactly for parameters that are non-negative or almost zero: the "almost 1 or at least 1" half is subsumed, and there is no upper bound |
| SerialVisimerge.IntersectionOnBothLines | src/visimerge/serial_visimerge.h:14-36 | (almost) parallel lines and zero-length segments give no point; a found point is seg.a + u*i with i accepted, lies on the ray's line and on the segment's line |
| SerialVisimerge.IntersectionBeyondEndpoint | src/visimerge/serial_visimerge.h:29-33 | a ray that meets the segment's line at parameter 2, beyond endpoint b, is still reported as a hit |
| SerialVisimerge.RaySegmentIntersection | src/visimerge/serial_visimerge.h:14-36 | returns true exactly when the intersection exists, and overwrites the out-parameter only then |
| SerialVisimerge.CutProperties | src/visimerge/serial_visimerge.h:39-52 | a cut exists exactly when the segment is not degenerate and both rays hit it; its ends are the two hits |
| SerialVisimerge.CutSegment | src/visimerge/serial_visimerge.h:39-52 | returns true exactly when the cut exists and then writes its two ends; on failure b is untouched and a holds the first hit when only the second ray missed |
| SerialVisimerge.TighterLimitsProperties | src/visimerge/serial_visimerge.h:55-80 | an update needs positive bracket limits and a successful cut, yields the norms of the two cut points, strictly lowers a non-negative sum l + r, and is non-negative under a valid sqrt |
| SerialVisimerge.FindRightLeftLimit | src/visimerge/serial_visimerge.h:55-80 | returns true exactly when the bracket gives a tighter pair, and then sets l and r to it; otherwise l and r are unchanged |
| SerialVisimerge.MergedFrom | src/visimerge/serial_visimerge.h:91-98 | the rays copied from cursors ai, bi onward, ties going to a, number the rays left in both runs |
| SerialVisimerge.Cursors | src/visimerge/serial_visimerge.h:88-98 | after i steps the cursors stay within their runs and ai + bi = i |
| SerialVisimerge.BoundaryLimitsUseHeadings | src/visimerge/serial_visimerge.h:105-116 | the limits of a boundary depend only on the angles and directions of the two rays around it |
| SerialVisimerge.MergeRuns | src/visimerge/serial_visimerge.h:83-121 | the merged output holds a_count + b_count rays |
| SerialVisimerge.MergeRunsAt | src/visimerge/serial_visimerge.h:98-119 | output ray k is the k-th copied ray with the limits of the boundaries on either side of it |
| SerialVisimerge.ComputeBoundaryLimits | src/visimerge/serial_visimerge.h:102-116 | the computed limits are 0 for equal angles, otherwise -1 unless the bracketing pair of a, and then that of b, offers a tighter pair |
| SerialVisimerge.MergeRunsShape | src/visimerge/serial_visimerge.h:98-119 | output ray k keeps the copied angle and direction; its left limit is written at step k + 1 and its right limit at step k; dest[0].r and dest[count-1].l keep their copied values |
| SerialVisimerge.MergeRunsBoundary | src/visimerge/serial_visimerge.h:105-119 | the pair computed at step i from dest[i-1] and dest[i] is the left limit of output ray i-1 and the right limit of output ray i |
| SerialVisimerge.MergedFromHeadings | src/visimerge/serial_visimerge.h:91-98 | every angle and direction of the rest of both runs is copied exactly once |
| SerialVisimerge.MergedFromBounded | src/visimerge/serial_visimerge.h:94-98 | for sorted runs every copied angle is at least any lower bound of the two cursor rays |
| SerialVisimerge.MergedFromSorted | src/visimerge/serial_visimerge.h:94-98 | two runs sorted by angle are copied in sorted order |
| SerialVisimerge.MergeRunsKeepsHeadings | src/visimerge/serial_visimerge.h:98-119 | the output has the angles and directions of the copied rays in merge order; only limits are rewritten |
| SerialVisimerge.MergeRunsPermutation | src/visimerge/serial_visimerge.h:91-98 | the output's headings are a permutation of those of a and b together |
| SerialVisimerge.MergeRunsSorted | src/visimerge/serial_visimerge.h:94-98 | non-decreasing runs merge into a non-decreasing output |
| SerialVisimerge.BoundaryLimitsRange | src/visimerge/serial_visimerge.h:105-116 | under a valid sqrt a boundary gets (0, 0) for equal angles, and otherwise (-1, -1) or two non-negative distances |
| SerialVisimerge.MergeRunsBoundaryLimits | src/visimerge/serial_visimerge.h:105-119 | both limits that face each other across a boundary are finite, 0 for equal angles, and both -1 or both non-negative under a valid sqrt |
| SerialVisimerge.MergeRunsInteriorFinite | src/visimerge/serial_visimerge.h:98-119 | every limit facing a neighbour is finite; the first right and the last left limit are those of the rays copied there |
| SerialVisimerge.MergeStateFirst | src/visimerge/serial_visimerge.h:98-100 | step 0 stores the first copied ray and establishes the loop invariant |
| SerialVisimerge.MergeStateStep | src/visimerge/serial_visimerge.h:98-119 | a later step stores the copied ray, completes ray i-1 and keeps the loop invariant |
| SerialVisimerge.MergeStateDone | src/visimerge/serial_visimerge.h:91-121 | after the last step the merged run is in place and nothing outside it has changed |
| SerialVisimerge.CursorsStep | src/visimerge/serial_visimerge.h:94-98 | the cursors and the rest of the copied rays advance together, in the run the selection picks |
| SerialVisimerge.StoreFirst | src/visimerge/serial_visimerge.h:98-100 | the first loop step writes dest[dOff] and keeps the merge state |
| SerialVisimerge.StoreSealed | src/visimerge/serial_visimerge.h:98-119 | a later loop step writes dest[i], dest[i-1].l and dest[i].r and keeps the merge state |
| SerialVisimerge.MergeStep | src/visimerge/serial_visimerge.h:91-120 | one loop step selects the run, advances its cursor and keeps the merge state |
| SerialVisimerge.SerialVisimerge | src/visimerge/serial_visimerge.h:83-121 | dest[dOff .. dOff + a_count + b_count) becomes MergeRuns(a, b) and every other element of dest is unchanged |
| SerialVisimerge.MergerMerges | src/visimerge/serial_visimerge.h:83-121 | the merge value the sort is stated over is serial_visimerge's merge |
| SerialVisimergesort.Log2Small | src/visimerge/serial_visimergesort.h:10-13 | log2(x, p) = p for x <= 1 |
| SerialVisimergesort.Log2Floor | src/visimerge/serial_visimergesort.h:10-13 | for x >= 1, 2^log2(x) <= x < 2^(log2(x)+1) |
| SerialVisimergesort.Log2OfPow2 | src/visimerge/serial_visimergesort.h:10-13 | log2(2^k) = k |
| SerialVisimergesort.PowerOfTwoByLog2 | src/visimerge/serial_visimergesort.h:10-13 | a positive n is a power of two exactly when 2^log2(n) = n |
| SerialVisimergesort.CountAcceptedIffPowerOfTwo | tests/test_serial_visimergesort.cpp:19 | the guard 1 << log2(n, true) == n accepts exactly the powers of two from 2 on |
| SerialVisimergesort.Oriented | src/visimerge/serial_visimergesort.h:24-28 | the local endpoints are the segment's, swapped exactly when cross(a, b) < 0, so that cross(a, b) >= 0 |
| SerialVisimergesort.SegmentRaysProperties | src/visimerge/serial_visimergesort.h:27-34 | the opening ray is (atan2 a, normalize a, l = norm a, r = INF), the closing ray has l = INF, r = norm b and angle 2 pi in place of 0; under a valid libm the angles lie in [0, 2 pi) and (0, 2 pi] |
| SerialVisimergesort.InitialRaysAt | src/visimerge/serial_visimergesort.h:33-34 | the rays of segment i sit at 2i and 2i + 1 |
| SerialVisimergesort.WriteSegmentRays | src/visimerge/serial_visimergesort.h:24-34 | one loop body writes dest[j] and dest[j + 1] with the rays of the segment and nothing else |
| SerialVisimergesort.InitViewrays | src/visimerge/serial_visimergesort.h:16-36 | dest[0 .. 2 count) holds the rays of all segments in order, the rest of dest is unchanged |
| SerialVisimergesort.Pass | src/visimerge/serial_visimergesort.h:55-63 | a pass over the first e rays produces e rays |
| SerialVisimergesort.Passes | src/visimerge/serial_visimergesort.h:53-66 | every pass keeps the number of rays |
| SerialVisimergesort.Pow2Divides | src/visimerge/serial_visimergesort.h:55-57 | 2^a divides 2^b for a <= b, so run lengths of later passes are multiples of earlier ones |
| SerialVisimergesort.CountDivides | src/visimerge/serial_visimergesort.h:44 | for count a power of two, 2 count = 2^(log2(count) + 1) |
| SerialVisimergesort.Visimergesort | src/visimerge/serial_visimergesort.h:39-69 | the sort returns 2 count rays |
| SerialVisimergesort.PassesDefined | src/visimerge/serial_visimergesort.h:44-57 | when count is a power of two, every pass p <= log2(count) splits the 2 count rays into whole pairs of runs |
| SerialVisimergesort.PassInBounds | src/visimerge/serial_visimergesort.h:57-62 | every pair of runs a start offset names lies inside the array, and the next offset is aligned again |
| SerialVisimergesort.PassStep | src/visimerge/serial_visimergesort.h:57-63 | one more inner-loop iteration appends the merge of one more pair of runs |
| SerialVisimergesort.PassesStep | src/visimerge/serial_visimergesort.h:53-66 | pass p + 1 runs over the result of the first p + 1 passes with runs of 2 << (p + 1) |
| SerialVisimergesort.MergeInto | src/visimerge/serial_visimergesort.h:62 | the call of serial_visimerge writes the merge of the two runs at the offset and nothing else |
| SerialVisimergesort.MergeAt | src/visimerge/serial_visimergesort.h:57-63 | one inner iteration merges the pair at start into buffer at the same offset and extends the pass by one pair |
| SerialVisimergesort.MergePass | src/visimerge/serial_visimergesort.h:57-63 | the inner loop leaves input unchanged and fills buffer with one pass over input |
| SerialVisimergesort.EvenIsRemainder | src/visimerge/serial_visimergesort.h:49 | the pointer-swap parity is the remainder of the pass count modulo 2 |
| SerialVisimergesort.RunPasses | src/visimerge/serial_visimergesort.h:53-66 | after num_passes passes the result is in input for an even count of passes and in buffer for an odd one, and holds all passes over the initial rays; the other pointer then holds the other array |
| SerialVisimergesort.SerialVisimergesort | src/visimerge/serial_visimergesort.h:39-69 | the swap before the passes makes the last pass land in output, which then holds Visimergesort(segs), and the array released by `delete[] buffer` is the fresh heap allocation, never output |
| VisimergesortProperties.PassKeeps | src/visimerge/serial_visimergesort.h:57-63 | a pass turns runs of sub rays with a property the merge keeps into runs of 2 sub rays with it |
| VisimergesortProperties.PassesKeep | src/visimerge/serial_visimergesort.h:53-66 | after p passes the runs of 2^(p+1) rays have any property the initial pairs have and the merge keeps |
| VisimergesortProperties.InitialPairs | src/visimerge/serial_visimergesort.h:33-34 | the pairs init_viewrays writes have a property when the rays of every segment do |
| VisimergesortProperties.VisimergesortKeeps | src/visimerge/serial_visimergesort.h:39-69 | the output has every property the merge keeps and the rays of each segment have |
| VisimergesortProperties.MergeKeepsSorted | src/visimerge/serial_visimerge.h:94-98 | serial_visimerge keeps sortedness by angle |
| VisimergesortProperties.VisimergesortSorted | src/visimerge/serial_visimergesort.h:53-66 | if every initial pair is in angle order, the output is sorted by angle |
| VisimergesortProperties.PassesSortBlocks | src/visimerge/serial_visimergesort.h:53-66 | after p passes every aligned block of 2^(p+1) rays, the runs pass p + 1 merges, is sorted |
| VisimergesortProperties.MergeKeepsInteriorFinite | src/visimerge/serial_visimerge.h:98-119 | serial_visimerge keeps every limit facing a neighbour finite |
| VisimergesortProperties.PassesInteriorFinite | src/visimerge/serial_visimergesort.h:53-66 | every run handed to serial_visimerge has finite facing limits, so find_right_left_limit never reads an infinite bracket limit |
| VisimergesortProperties.VisimergesortInteriorFinite | src/visimerge/serial_visimergesort.h:39-69 | in the output every limit facing a neighbour is finite |
| VisimergesortProperties.CountIsMultiplicity | src/visimerge/serial_visimerge.h:91-98 | the count of a heading is its multiplicity in the multiset of headings |
| VisimergesortProperties.MergerCount | src/visimerge/serial_visimerge.h:91-98 | the merge adds the heading counts of its two runs |
| VisimergesortProperties.PassHeadings | src/visimerge/serial_visimergesort.h:57-63 | one pass keeps the heading counts of the rays it covers |
| VisimergesortProperties.PassesHeadings | src/visimerge/serial_visimergesort.h:53-66 | all passes keep the heading counts of the initial rays |
| VisimergesortProperties.VisimergesortPermutation | src/visimerge/serial_visimergesort.h:39-69 | the output's headings are a permutation of those init_viewrays produced |
| VisimergesortProperties.PassesEndInOneMerge | src/visimerge/serial_visimergesort.h:53-66 | for count > 1 the last pass is one merge of the two halves |
| VisimergesortProperties.VisimergesortSingle | src/visimerge/serial_visimergesort.h:44-53 | for one segment no pass runs and the output is the segment's two rays |
| VisimergesortProperties.LastMergeLimits | src/visimerge/serial_visimerge.h:105-119 | across every boundary of the last merge the facing limits are finite, and both -1 or both non-negative |
| VisimergesortProperties.VisimergesortLimits | src/visimerge/serial_visimergesort.h:39-69 | under a valid sqrt every pair of facing limits in the output is finite and either both -1 or both non-negative |
| NotebookVisimerge.HeadingsEqual | notebook/visimerge.py:13 | two runs have equal headings exactly when they are equally long and agree on angle and direction at every index |
| NotebookVisimerge.HeadingsAppend | notebook/visimerge.py:13 | the headings of a concatenation are the concatenated headings |
| NotebookVisimerge.SortedByHeadings | notebook/visimerge.py:13 | sortedness by angle depends only on the headings |
| NotebookVisimerge.ViewraysMatchInitViewrays | notebook/visimerge.py:72-81 | viewrays_for_segment builds the rays init_viewrays writes, with -1 for the infinite limits and fields in the order a v r l |
| NotebookVisimerge.CrossingPointFacts | notebook/visimerge.py:98-101 | the crossing point lies on the positive x-axis, and both halves are counter-clockwise again |
| NotebookVisimerge.VisibleRegionForSegmentCases | notebook/visimerge.py:86-105 | a horizontal segment or one not crossing the positive x-axis keeps its two rays; a crossing one gives the rays of (c, b) then those of (a, c), with new rays along c at angles 0 and 2 pi |
| NotebookVisimerge.VisibleRegionForSegmentSize | notebook/visimerge.py:86-105 | exactly the crossing segments give four rays, the others two |
| NotebookVisimerge.LineParameterUnique | notebook/visimerge.py:110-121 | when the lines are not parallel, the computed i is the one parameter at which the segment's line meets the ray's line |
| NotebookVisimerge.IntersectionExact | notebook/visimerge.py:110-126 | the result is the point at parameter t exactly when s != 0, t is in [0, 1] and the point is on the ray's line; s == 0 or a zero-length segment gives None |
| NotebookVisimerge.IntersectionOnSegment | notebook/visimerge.py:110-126 | a found point is the segment point at some parameter in [0, 1] on the ray's line |
| NotebookVisimerge.CutSegmentProperties | notebook/visimerge.py:129-136 | a cut exists exactly when both rays hit, and runs from the hit on v to the hit on w |
| NotebookVisimerge.Select | notebook/visimerge.py:150-153 | the selected run is one that still has rays |
| NotebookVisimerge.CutsAreCuts | notebook/visimerge.py:169 | the filtered list holds exactly the cuts of candidate segments, and no more entries than candidates |
| NotebookVisimerge.LeastIndex | notebook/visimerge.py:169-173 | the first cut of the stable sort by (norm, norm): no cut has a smaller key, and every earlier one a larger key |
| NotebookVisimerge.Boundary | notebook/visimerge.py:161-173 | the inner loop and rewrite give the limit rewrite of the specification function |
| NotebookVisimerge.Turn | notebook/visimerge.py:150-173 | one turn selects the run as Select does and performs one Step |
| NotebookVisimerge.MergeLoop | notebook/visimerge.py:141-177 | the while loop returns MergeFrom from the initial state |
| NotebookVisimerge.Merge | notebook/visimerge.py:141-177 | merge(a, b) returns Merged(a, b) |
| NotebookVisimerge.InterleaveFrom | notebook/visimerge.py:148-155 | the interleaving of the rests holds as many rays as they do |
| NotebookVisimerge.RelimitHeadings | notebook/visimerge.py:171-173 | the limit rewrite leaves all angles and directions alone |
| NotebookVisimerge.StepHeadings | notebook/visimerge.py:155-173 | one turn appends the heading of the selected ray and changes no other heading |
| NotebookVisimerge.MergeFromStep | notebook/visimerge.py:148-175 | one turn moves the merge to the state with the selected index advanced |
| NotebookVisimerge.MergeFromHeadings | notebook/visimerge.py:148-177 | apart from limits, the rest of the merge is the interleaving of the rest of the runs |
| NotebookVisimerge.MergedInterleaves | notebook/visimerge.py:141-177 | merge returns len(a) + len(b) rays with the headings of the interleaving |
| NotebookVisimerge.InterleaveDrains | notebook/visimerge.py:150-151 | once one run is exhausted the other is drained in order |
| NotebookVisimerge.InterleavePermutation | notebook/visimerge.py:148-155 | the interleaving is a permutation of the rest of the two runs |
| NotebookVisimerge.InterleaveSorted | notebook/visimerge.py:150-155 | sorted runs interleave into a sorted run bounded below by any bound of the two rests |
| NotebookVisimerge.InterleaveHeadingsPermutation | notebook/visimerge.py:148-155 | the headings of the interleaving are a permutation of those of the two rests |
| NotebookVisimerge.MergedPermutation | notebook/visimerge.py:141-177 | the headings of merge(a, b) are a permutation of those of a and b |
| NotebookVisimerge.MergedSorted | notebook/visimerge.py:141-177 | merge of two sorted runs is sorted |
| NotebookVisimerge.MergedTiesGoToB | notebook/visimerge.py:153 | the first ray is a's only when its angle is strictly smaller; on equal angles b's ray comes first |
| NotebookVisimerge.StepLimits | notebook/visimerge.py:155-173 | a turn rewrites s[-2].l and s[-1].r exactly when some candidate is cut, and then to the norms of the ends of a cut with the least key; nothing else changes |
| NotebookVisimerge.MergeFromKeepsPrefix | notebook/visimerge.py:171-173 | every ray before the last one of s is final: later turns never touch it |
| NotebookVisimerge.StepPrefix | notebook/visimerge.py:155-173 | a turn appends one ray and touches only the ray before it |
| NotebookVisimerge.RegionsAppend | notebook/visimerge.py:182-195 | the regions of concatenated segment lists are the concatenated regions |
| NotebookVisimerge.MergeKeepsHeadings | notebook/visimerge.py:141-177 | merge keeps length and the multiset of headings for all runs |
| NotebookVisimerge.MergeKeepsSorted | notebook/visimerge.py:141-177 | merge keeps sortedness for all runs |
| NotebookVisimerge.VisimergeWithPermutation | notebook/visimerge.py:182-195 | the recursion over a heading-preserving merge returns the rays of all single-segment regions, permuted |
| NotebookVisimerge.VisimergeWithSorted | notebook/visimerge.py:182-195 | the recursion over a sortedness-preserving merge of sorted single regions is sorted |
| NotebookVisimerge.VisimergePermutation | notebook/visimerge.py:182-195 | visimerge returns as many rays as the single-segment regions hold, with their headings permuted |
| NotebookVisimerge.VisimergeSorted | notebook/visimerge.py:182-195 | visimerge is sorted when every single-segment region is |
| NotebookVisimerge.Visible | notebook/visimerge.py:199 | the comprehension keeps exactly the segments not collinear with the origin, each as many times as it occurs |
| NotebookVisimerge.VisibleAppend | notebook/visimerge.py:199 | the comprehension keeps the input order: filtering a concatenation concatenates the filtered parts |
| NotebookVisimerge.NotCollinearOffOrigin | notebook/visimerge.py:199 | a segment not collinear with the origin has both ends off the origin, so its rays are defined |
| NotebookVisimerge.VisibleRegion | notebook/visimerge.py:198-200 | visible_region returns the rays of the regions of the non-collinear segments, with their headings permuted |

## Left out

- Floating point: all arithmetic is over exact reals. `sqrt`, `atan2` and pi are parameters, and only their signs and ranges are assumed, so nothing depends on rounding or on the tolerance of `almost_equal` absorbing rounding error.
- Geometric optimality of the limits: the model states where each limit comes from and its range, not that it is the true visibility distance.
- SerialVisimerge.TighterLimits: a bracketing ray with an infinite limit gives no update. The code multiplies a direction by `CUDART_INF` there. `VisimergesortProperties.PassesInteriorFinite` proves that the sort never hands such a bracket to the merge.
- SerialVisimerge.FindRightLeftLimit: inherits the infinite-limit case of TighterLimits.
- Integer widths: `size_t` and the `2 << p` shift are unbounded naturals. The `1u << log2(...)` guard is modelled as 2^log2(...), without the 32-bit overflow of very large counts.
- The sort promises an in-range run structure only when count is a power of two. `SerialVisimergesort.SerialVisimergesort` requires this, as the test driver ensures with its guard.
- Aliasing and pointers: the runs a and b of `serial_visimerge` are passed as sequences, which are read-only. The `new[]`/`delete[]` buffer and the `std::swap` of pointers are modelled by the two arrays and the parity of the pass count.
- The CUDA build of `viewray.h` (no direction field, cos/sin accessors), `vray_array` and all device code are not part of this model.
- `src/visimerge/io_common.h` is file parsing and formatted printing, and is not part of this model.
- The test driver's `main` and `solve` and its profiling flag are not modelled; only its power-of-two guard is.
- The scripts and the other notebook files are I/O, plotting and drivers, and are not part of this model.
- `draw` is matplotlib rendering and is not modelled.
- The `sympy` switch is not modelled: `sp.pi` is the `pi` of the `Libm` value.
- `Vec2`, `Segment`, `cross` and `are_collinear` of the prototype come from a module that is not part of this model. Their C++ counterparts in `Vectors` and `Segments` stand in for them. `norm`, `normalize` and `atan2` of `notebook/stuff.py` agree with those counterparts.
- NotebookVisimerge.LeastIndex: Python's `sorted` by key is modelled by the index of the first least key, because only `p[0]` is read.
- NotebookVisimerge.MergedPermutation: the permutation is stated on headings, because the limits are rewritten.
- NotebookVisimerge.VisimergeSorted: takes the sortedness of each single-segment region as a hypothesis, because the atan2 geometry that makes the split halves sorted is not modelled.
- VisimergesortProperties.VisimergesortSorted: takes the angle order of each initial pair as a hypothesis, for the same reason.
- Normalisation needs a non-zero norm, stated as both ends being off the origin (`SerialVisimergesort.OffOrigin`). The segments of `visible_region` meet it by `NotebookVisimerge.NotCollinearOffOrigin`.
