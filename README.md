# libCGeo Graham scan, modelled in Dafny

libCGeo is a small C library for computational geometry. This project
models the core of its convex hull: the point set and its list operations,
the orientation (turn) test, the choice of the lowest point, the guard of
the angle computation, the stable linked-list merge sort, and the Graham
scan itself. The scan has four steps. An angle pass gives every point its
angle from the pivot, which is the lowest point. The points are sorted by
that angle. A stack scan keeps only left or inline turns. An optional pass
removes collinear points.

The files are:

- `cgeo_types.dfy` (module `Types`): points, turns, error codes and the selector enums.
- `predicates.dfy` (module `Predicates`): `find_turn_type`, the guard of `angle_between`, and the lowest point.
- `point_sets.dfy` (module `PointSets`): the point set as a class whose `points` field is the list from head to tail (`num_points` is its length), and `add_point_to_set`, `get_point_at_index`, `copy_point_set` and `find_lowest_point_in_set`.
- `sorting.dfy` (module `Sorting`): `split_lists`, `merge_halves`, `sort_points` and `sort_point_set`.
- `convex_hull.dfy` (module `ConvexHull`): `compute_point_angles`, the stack scan, `remove_colinear_degeneracies`, `compute_graham_scan` and `compute_convex_hull`.

Modelling choices:

- **Pointers.** A pointer that may be NULL becomes `PointSet?` or `Option`. The C returns the pivot as a pointer; since points are values here, the model identifies it by its position in the list.
- **Coordinates.** They are integers, so the cross product of the turn test is exact.
- **The angle.** The `acos` of `angle_between` is a parameter `arc` of the displacement from the pivot. The hull operations require only `IsAngleMeasure(arc)`: on the upper half-plane the angle is non-negative, and a smaller or equal angle is never clockwise of a larger one. `PseudoAngleIsAngleMeasure` shows that this hypothesis can be met.
- **`compare_points`.** Where `angle_between` calls it, it is coordinate equality (`SamePlace`).

What is proved about the scan:

- The angle pass succeeds exactly when no other point shares the pivot's place.
- After the sort, the pivot is first and the points are in angular order around it.
- Under that order, the stack scan never pops its bottom two entries and never overflows its array of n entries.
- The stack the scan leaves is exactly `GrahamStack`, the pop-then-push rule applied to the sorted points one by one. It is a Graham chain: a subsequence of the sorted points, of 3 to n points, from the pivot to the last sorted point, with no right turn between consecutive points.
- When no two points other than the pivot lie on one ray from it, that stack, closed back to the pivot, encloses every input point: no point lies right of any of its edges. This is the convex hull promise of the documentation at `src/convex_hull.c:114-118`.
- The C sorts by angle alone and leaves points on a shared ray in input order. `TiedRayScan` shows five points for which the scan then keeps every point, and one of them lies outside the polygon the stack makes.

`compute_graham_scan` is modelled as written in one respect: with degeneracy handling it runs the reducer as written on the output set into a scratch set, then frees that scratch set. The caller's output set therefore keeps the unreduced stack, and in the value model the degeneracy mode changes nothing a caller can see. In the C it does have memory effects, listed under "## Left out".

## Model

| member | source | states |
|---|---|---|
| Types.Error.Code | include/libCGeo/libCGeo.h:65-72 | only Success has code 0; every code lies between -5 and 0 |
| Predicates.CrossValue | src/libCGeo.c:224-225 | the value find_turn_type computes: the cross product of the displacement from a to b with the displacement from b to c, exact on integer coordinates |
| Predicates.TurnType | src/libCGeo.c:223-228 | find_turn_type: Inline when the cross value is zero, Right when it is positive, Left when it is negative; TurnMatchesOrientation states what that means geometrically |
| Predicates.TurnMatchesOrientation | src/libCGeo.c:223-228 | find_turn_type's sign agrees with the textbook orientation determinant: Left exactly when counter-clockwise, Right exactly when clockwise, Inline exactly when collinear |
| Predicates.TurnReversal | src/libCGeo.c:223-228 | walking the three points backwards gives the mirror turn |
| Predicates.TurnRotation | src/libCGeo.c:223-228 | starting the walk at the next point gives the same turn |
| Predicates.CoincidentIsInline | src/libCGeo.c:223-228 | a triple with two points in the same place is Inline |
| Predicates.AngleBetween | src/libCGeo.c:283-293 | -1 when the end point is lower, level and to the left, or in the same place; otherwise the angle of the displacement, which then points into the upper half-plane |
| Predicates.PseudoAngleIsAngleMeasure | src/libCGeo.c:291 | an exact pseudo-angle satisfies the angle-measure hypothesis that stands in for acos, so the hypothesis can be met |
| Predicates.LowestIndex | src/libCGeo.c:244-253 | the position where the head-to-tail scan ends: the candidate is replaced only by a strictly lower point (smaller y, or equal y and smaller x); the position lies within the list, and LowestIndexIsLowest proves it is the pivot |
| Predicates.LowestIndexIsLowest | src/libCGeo.c:237-255 | the head-to-tail scan finds a point with no lower point (least y, then least x), and it is the first point in that place |
| Predicates.LowestIsUnique | src/libCGeo.c:237-255 | there is only one such pivot position |
| Predicates.AbovePivot | src/libCGeo.c:237-255 | every point shares the pivot's place or lies strictly above it, or level with it and to its right |
| PointSets.PointSet.constructor | src/libCGeo.c:53-57 | a new set is empty |
| PointSets.AddPointToSet | src/libCGeo.c:71-88 | a NULL set or point gives invalid input and changes nothing; otherwise the point is appended at the tail and the rest is kept |
| PointSets.GetPointAtIndex | src/libCGeo.c:91-103 | an index at or past the count gives NULL; an index within the list gives the point at that position; a negative index gives the head |
| PointSets.CopyPointSet | src/libCGeo.c:138-151 | a NULL argument gives invalid input with the destination unchanged; otherwise the source's points are appended to the destination in order |
| PointSets.FindLowestPointInSet | src/libCGeo.c:237-255 | NULL for a NULL or empty set; otherwise the position of the pivot: no point is lower and every earlier point is strictly higher |
| Sorting.SplitLists | src/libCGeo.c:350-370 | the two halves concatenate back to the list; the left half has ceil(n/2) points and the right half floor(n/2) |
| Sorting.MergeHalves | src/libCGeo.c:381-398 | the merge is a permutation of the two lists together, and it starts with the head of one of them |
| Sorting.MergeHalvesSorted | src/libCGeo.c:381-398 | merging two sorted lists gives a sorted list |
| Sorting.MergeKeepsTies | src/libCGeo.c:389-396 | for every sort value, the merge keeps the left list's points with that value, in order, ahead of the right list's |
| Sorting.MergeIsStable | src/libCGeo.c:381-398 | merging the sorted forms of two lists keeps, for every sort value, the points with that value in the order of the two lists one after the other |
| Sorting.MergeSort | src/libCGeo.c:331-347 | the sort is a permutation of the list, is sorted by sort value, and is stable: for every sort value, the points with that value keep their order |
| Sorting.SortPoints | src/libCGeo.c:331-347 | an empty list gives invalid input; otherwise success and the merge-sorted list, which is a sorted permutation |
| Sorting.SortPointSet | src/libCGeo.c:307-322 | a NULL or empty set gives invalid input and changes nothing; without an output set, the set is sorted in place; with one, the input is kept and the output becomes the sort of its old points followed by the input's points |
| ConvexHull.Angled | src/convex_hull.c:50-62 | the angle pass keeps every point's place and the length of the list |
| ConvexHull.ComputePointAngles | src/convex_hull.c:44-66 | a NULL set gives invalid input; an empty set has too few points; otherwise success exactly when every non-pivot angle is valid, with the pivot's key -1 and every other key its angle; on an invalid angle, the pass stops at the first such point, with the points before it done and the points after it untouched |
| ConvexHull.AngleLoopBodyAsWritten | src/convex_hull.c:55-64 | one pass of the loop as written: with the cursor past the end the loop stops with success; otherwise it keeps running exactly when the cursor is on the pivot or on a point with a valid angle, and returns invalid input on an invalid angle; a pass that keeps running leaves the cursor where it was and every point in its place |
| ConvexHull.AngleLoopAsWritten | src/convex_hull.c:55-64 | any number of passes as written: a loop still running has its cursor where it started and every point in its place, and one that returned did so with invalid input, or with success only when its cursor started past the end |
| ConvexHull.AngleLoopAsWrittenNeverEnds | src/convex_hull.c:55-63 | the loop as written never moves its cursor: standing on the pivot or on a point with a valid angle, no number of passes returns or advances |
| ConvexHull.AnglesDefinedIffNoTwin | src/convex_hull.c:56-59 | with a real angle, the pass succeeds exactly when no other point shares the pivot's place |
| ConvexHull.SortedByAngle | src/convex_hull.c:133-140 | the points in the order the scan sees them: the angled points, rearranged (same length, same multiset) into order of sort value |
| ConvexHull.NegativeSortsFirst | src/convex_hull.c:51-52 | in a sorted permutation, the one point with a negative sort value comes first, and every later point is one of the others |
| ConvexHull.PivotSortsFirst | src/convex_hull.c:137-140 | after the angle pass and the sort, the angled pivot comes first and every later point comes from a non-pivot point |
| ConvexHull.AngleOrderIsTurnOrder | src/libCGeo.c:283-293 | two valid angles from the pivot, the first no larger than the second, make no right turn with the pivot |
| ConvexHull.SortedByAngleIsAngular | src/convex_hull.c:133-144 | the sorted sequence starts at the pivot's place, and no later pair makes a right turn with it |
| ConvexHull.StackSeed | src/convex_hull.c:151-155 | in angular order, the first three sorted points form a valid stack |
| ConvexHull.PopLeavesBottom | src/convex_hull.c:159-163 | in angular order, a stack whose top two entries make a right turn with the next point holds at least three entries, so the pop loop never pops below the second entry |
| ConvexHull.StackPop | src/convex_hull.c:161-163 | popping the top entry keeps the stack a right-turn-free subsequence that starts at the pivot |
| ConvexHull.StackPush | src/convex_hull.c:165-167 | pushing the next point after a non-right turn keeps the stack a right-turn-free subsequence that starts at the pivot |
| ConvexHull.StackIsChain | src/convex_hull.c:157-168 | the final stack is a Graham chain of the sorted points |
| ConvexHull.ScanStack | src/convex_hull.c:146-168 | on at least three angularly sorted points, the stack scan, run on an array of n entries, leaves exactly GrahamStack of them. That stack is a Graham chain of 3 to n points from the first sorted point to the last. When every later point is strictly counter-clockwise of every earlier one as seen from the first, the closed polygon of the stack has no sorted point right of any of its edges |
| ConvexHull.PopWhileRight | src/convex_hull.c:161-163 | the pop loop lowers the top of the stack array to exactly PopRight of the stack, never below the second entry, and ends when the top two entries and the point do not turn right; in strict order, the points it popped lie on or left of the edge from the new top to the point |
| ConvexHull.ScanPoint | src/convex_hull.c:159-167 | one round of the scan: the new stack is the old one after the pop loop for the point (PopRight), with the point pushed on top. This moves the scan state on by one point: the top stays below the number of points handled, the rest of the scan still leads to GrahamStack, and in strict order the stack encloses the points handled so far |
| ConvexHull.SeedEncloses | src/convex_hull.c:152-154 | the unchecked seed triple has each of the first three sorted points on or left of both of its edges |
| ConvexHull.PopEncloses | src/convex_hull.c:161-163 | in strict order, popping the top entry after a right turn keeps every handled point enclosed by the shorter chain, and puts every point after the new top's position on or left of the shortcut from the new top to the next point |
| ConvexHull.PushEncloses | src/convex_hull.c:165-166 | in strict order, pushing the next point after the pop loop keeps every sorted point up to it on or left of every edge of the longer chain |
| ConvexHull.StackEncloses | src/convex_hull.c:157-168 | the final stack, which ends with the last sorted point, encloses every sorted point once closed back to the pivot: the closing edge has them all on its left by the angular order |
| ConvexHull.ScanKeepsChain | src/convex_hull.c:159-168 | on sorted points with no right turn between consecutive ones, the scan pops nothing and keeps every point |
| ConvexHull.TiedRayScan | src/convex_hull.c:159-168 | five points in angular order around the pivot (0,0), of which (0,2), (0,1), (0,3) share a ray and are left in that order by the sort: the scan keeps all five, and (0,3) lies right of the edge from (2,1) to (0,2), so without strict order the stack need not enclose the points |
| ConvexHull.NoSharedRayIsStrict | src/convex_hull.c:133-140 | when no two points other than the pivot lie on one ray from it or in one place, the sorted points are in strict angular order: every later point is strictly counter-clockwise of every earlier one as seen from the first |
| ConvexHull.EnclosesInput | src/convex_hull.c:137-144 | a polygon that encloses the sorted points encloses the input points, since the sort only rearranges the angled points and the angle pass keeps every place |
| ConvexHull.HullEnclosesInput | src/convex_hull.c:133-168 | the input-level containment promise: with no shared ray, a stack that encloses the sorted points whenever they are in strict order encloses every input point |
| ConvexHull.RemoveColinearDegeneracies | src/convex_hull.c:79-111 | as written: a NULL set gives invalid input, fewer than 3 points are too few, and the output is left unchanged in both cases. Otherwise the loop runs n - 2 rounds and walks the same windows as the corrected reducer, ending with the last point's window (last kept point, last point, head). The output gains only the head and, exactly when that final window is not inline, the last point |
| ConvexHull.CloseOnHead | src/convex_hull.c:102-107 | the wrap-around check: the output gains the last point exactly when the last kept point, the last point and the head do not lie on a line, and that decides the last window of the walk |
| ConvexHull.ReduceColinearDegeneracies | src/convex_hull.c:79-111 | corrected: the same error cases; otherwise the output gains the head and then, in order, exactly the points whose window (last kept point, the point, the next point on the closed boundary) is not inline |
| ConvexHull.KeepsStrictlyConvex | src/convex_hull.c:69-78 | the corrected reduction of a boundary without inline windows keeps every point |
| ConvexHull.KeepPoint | src/convex_hull.c:92-97 | corrected non-inline branch: the output gains B, and B is recorded as kept, which decides its position |
| ConvexHull.SquareAsWritten | src/convex_hull.c:92-97 | on the unit square, which has no collinear points, the reducer as written keeps at most two of the four corners |
| ConvexHull.SquareCorrected | src/convex_hull.c:92-97 | on the unit square, the corrected reducer returns all four corners in order |
| ConvexHull.AppendPoints | src/convex_hull.c:170-174 | the stack entries are appended to the output set, bottom first |
| ConvexHull.SortAndScan | src/convex_hull.c:137-168 | sorting a copy of the angled set into a scratch set leaves the set as it is; the stack is GrahamStack of the sorted points, a Graham chain, and with no shared ray it encloses every input point |
| ConvexHull.ReduceIntoScratch | src/convex_hull.c:180-189 | the reducer as written, run on a hull of at least three points, succeeds, and its result does not reach the caller |
| ConvexHull.ScanAngled | src/convex_hull.c:137-189 | after a valid angle pass: success; the input set is left alone when it is not the output set; the output gains exactly GrahamStack of the angle-sorted points, a Graham chain, which encloses every input point when no two points share a ray from the pivot |
| ConvexHull.ComputeGrahamScan | src/convex_hull.c:124-192 | a NULL set gives invalid input; fewer than 3 points are too few; in both cases nothing changes. Otherwise success exactly when no point shares the pivot's place. On success the input holds the angled points and the output gains exactly GrahamStack of the sorted points: a Graham chain that, when no two points share a ray from the pivot, encloses every input point. On failure every point keeps its place and a separate output is unchanged |
| ConvexHull.ComputeConvexHull | src/convex_hull.c:204-214 | any method other than the Graham scan is unimplemented and changes nothing; the Graham scan behaves as ComputeGrahamScan |

## Left out

- **File input and output.** CSV reading and writing, diagnostics printing, the example drivers and the tests are all left out. They are I/O and not part of the hull core.
- **Memory.** `malloc`, `free` and `free_point_set` are left out; the model has no memory management. In particular, the model does not capture the uninitialised `next` and `prev` pointers of new nodes. It also does not capture the memory effects of the degeneracy step. The output set holds pointers into the stack array (`src/convex_hull.c:173`), and that array is freed at `src/convex_hull.c:177`. The reducer puts the same point pointers into its scratch set (`src/convex_hull.c:89`, `105`), and `free_point_set` on that set (`src/convex_hull.c:187`, `src/libCGeo.c:120`) frees them again. When the output set started empty, the first of those pointers is the stack block itself, which is then freed a second time; when it already held points, the first is one of the caller's own points. The other pointers freed there point inside the stack block.
- **The list's `prev` and `tail` links.** They are not modelled: the list is the sequence `points`.
- **Pointer sharing.** `copy_point_set` duplicates every point, but `add_point_to_set` stores the caller's pointer (`src/libCGeo.c:75`), so the output set and the reducer's scratch set share points with the stack (see Memory). Two list nodes referring to the same point are not modelled: a point is a value.
- **Floating point.** Coordinates are integers, and `acos` and `distance_between` are abstract. Rounding, NaN, and the truncation of double coordinates to `int` in `find_turn_type` (with its possible overflow) are not modelled.
- **Self-copy.** The copy and the sort require distinct sets: copying a set into itself would chase its own growing tail and never end. The reducer requires distinct sets because its only caller, `src/convex_hull.c:182-183`, passes a newly made set; it would end with the same set as input and output, but that case is not modelled.
- PointSets.GetPointAtIndex: takes a set that is not NULL, as the C dereferences it without a check (`src/libCGeo.c:92`). It also requires a non-empty set when the index is negative: on an empty set the C walks no node and then reads the point through the NULL head (`src/libCGeo.c:102`). Neither case has a defined result to model.
- ConvexHull.ScanStack: requires the angular order that the sort establishes. Without it, the C's pop loop could index below the bottom of the stack; the model does not capture that behaviour.
- ConvexHull.ScanStack: proves containment only in strict angular order. The C sorts by angle alone, so points on a shared ray from the pivot stay in input order; TiedRayScan shows that the stack then need not enclose the points, so no containment is claimed for that case.
- ConvexHull.ComputeGrahamScan: promises that the output encloses the input only when no two points share a ray from the pivot, for the reason given for ScanStack.
- ConvexHull.ComputeGrahamScan: requires `IsAngleMeasure(arc)` in place of the real `acos`. The seed triple is pushed unchecked, as in the C; under this hypothesis it never makes a right turn.
- ConvexHull.ComputeGrahamScan: uses the corrected angle pass instead of the C loop, which never advances its cursor (see Findings). The degeneracy step runs the reducer as written, and its result is discarded, as in the C.
- **Diagnostics.** `compare_points` is modelled only as coordinate equality inside the angle guard. The rest of `src/diagnostics.c` is not part of this model.

## Findings

| source | as written | input that shows it | evidently intended | confidence | as-written member | corrected member |
|---|---|---|---|---|---|---|
| src/convex_hull.c:55-63 | the angle loop never advances `current_node` | any set whose head is the pivot or has a valid angle from it, such as (0,0), (1,1): the loop never ends | advance to the next node after each point | not executed | ConvexHull.AngleLoopAsWrittenNeverEnds | ConvexHull.ComputePointAngles |
| src/convex_hull.c:92-97 | the non-inline branch moves the window on without adding B to the output | the unit square (0,0), (1,0), (1,1), (0,1): the output keeps at most 2 of its 4 corners | add B before moving the window, so every point whose window is not inline is kept | not executed | ConvexHull.SquareAsWritten | ConvexHull.ReduceColinearDegeneracies |
