# Verified models of the robot's assignment solver, linear algebra, concurrency and geometry

A Dafny model of the hardest routines of the robot code, and proofs of what they promise. `dfyconfig.toml` is the
project file.

| files | what they model |
|---|---|
| `Assignment.dfy`, `Matching.dfy` | the assignment problem itself: costs, optimality, duality; partial matchings, search phases and alternating paths |
| `BitSet.dfy`, `Zeroes.dfy` | the bit set with its linked list of non-zero limbs, and its use as a set of table cells |
| `Kuhn.dfy`, `KuhnSearch.dfy`, `KuhnAugment.dfy`, `KuhnMatch.dfy`, `HungarianSolver.dfy` | the Hungarian solver, function by function, on the arrays the program mutates |
| `Linear.dfy`, `Elimination.dfy`, `Pivots.dfy`, `Triangular.dfy`, `Inverse.dfy` | vectors and matrices; Gauss-Jordan inversion with a row ranking, as a function of the matrix and on the arrays the program updates; what its pivots say about the matrix, and what its thresholds are |
| `Factor.dfy`, `Definite.dfy`, `Cholesky.dfy` | triangular factors, positive definiteness, and the two Cholesky decompositions |
| `ThreadPool.dfy` | the thread pool's lock and condition-variable protocol, as steps |
| `Merging.dfy` | agglomerative merging of objects by pairwise cost |
| `Polygon.dfy`, `Convex.dfy` | point containment with bounding box and cache; what it means for convex polygons |
| `Exchange.dfy` | the exchange of blocks between the vision and the motion process |
| `Wrappers.dfy` | optional values, results and magnitudes, which several models share |
| `Frames.dfy`, `Kinematics.dfy`, `BodyModel.dfy` | poses and rotations; the body model from joint angles to absolute poses; which joint moves what, and by how much |

Main results, in the terms of the program:

- The Hungarian solver returns, for **every** table with at least as many columns as rows, an assignment that no
  other assignment undercuts, and it terminates on every such table. The proof carries potentials through the whole
  run (the table is always the cost table reduced by feasible potentials), shows that the alternating path never
  returns to a row and fits its arrays, and refines the bit set to a finite set. Termination does not need the
  `0x7FFFffff` sentinel to be larger than the costs; when no row's costs differ by more than the sentinel, every
  adjustment creates an uncovered zero, and the run has at most n phases with at most n + 1 searches each.
- `solve` with Augment is optimal for the original rectangular matrix: an optimum of the padded matrix restricts to
  an optimum, because every injective assignment extends to a permutation.
- `YaMatrix::inverse` returns a two-sided inverse exactly if every pivot of the elimination is away from zero and no
  factor of the backward pass is near infinity; otherwise the first of these, and its sign, decide the exception.
  Factors near infinity never occur in the forward pass. In exact arithmetic a matrix has an inverse if and only if
  no pivot is zero, so every singular matrix throws a division by zero.
- Both Cholesky routines succeed exactly on the symmetric matrices that are positive semi-definite, and positive
  definite without their last row and column. These are the matrices with a lower triangular factor whose diagonal
  is positive up to a last entry that may be zero; the factor is unique, so the two loop orders agree. The comment in
  the source asks for positive semi-definite matrices, which is not enough.
- In every interleaving the thread pool loses no wake-up, takes every accepted task exactly once and in order, and
  its destructor returns with every accepted task done. Without a stop, too, a pool with a worker makes progress: its
  own steps are bounded by what is enqueued, and where no work is left to do every accepted task has run.
- The pair list of `merge_items` always has exactly one entry per pair of live objects, so the clean-up loop never
  drops anything, and the results are what replaying a log of cheapest merges from the inputs gives.
- A polygon's filter and cache give the raw even-odd answer, for every point and after every history of queries, if
  and only if no enclosed point has a negative y: there the keys of a whole row collide. The same condition decides
  whether `enclosedPoints` lists the enclosed points. The keys tell all points below 2^16 apart, as the source's
  comment says, but the products of the raw test are safe only up to 46341.
- Which edges toggle is stated exactly, without the truncating division. So a point inside a strictly convex polygon,
  with its right neighbour not outside, is enclosed, and a point outside an edge together with its right neighbour is
  not.
- Each shared field of the kick request, and four fields of the walk request, always hold what their owner last
  published; parameters are delivered once, newest last. Other walk commands reach motion exactly if motion has not
  published since.
- An upright robot's support foot, the one with the larger load, is on the ground, its torso is above the origin, and
  all parts keep their relative poses. Each joint moves exactly the parts of its own limb from its own part on.
  Exchanging the joints of the two sides reflects the legs; it reflects the arms below the elbow only if the elbow
  offset is zero, since the program does not mirror that offset.

## Model

| member | source | states |
|---|---|---|
| `BitSets.BitSet.constructor` | core/math/HungarianSolver.cpp:679-701 | a new bit set is the empty set |
| `BitSets.BitSet.Set` | core/math/HungarianSolver.cpp:709-724 | adds exactly index i to the abstract set; the list still holds exactly the non-zero limbs, once each, with inverse links |
| `BitSets.BitSet.Unset` | core/math/HungarianSolver.cpp:732-749 | removes exactly index i, keeping the same invariant |
| `BitSets.BitSet.Any` | core/math/HungarianSolver.cpp:757-764 | -1 exactly when the set is empty, otherwise a member within the size |
| `BitSets.ChainPush` | core/math/HungarianSolver.cpp:718-722 | the four writes put a slot in front of a doubly linked list and keep its links mutually inverse |
| `BitSets.ChainCut` | core/math/HungarianSolver.cpp:741-747 | the writes cut one slot out, wherever it stands, and keep the links mutually inverse |
| `BitSets.LbOfOneBit` | core/math/HungarianSolver.cpp:773-786 | on an isolated bit, including the negative value with bit 63, `lb` returns the bit's number |
| `BitSets.LbIsFlooredLogarithm` | core/math/HungarianSolver.cpp:767-786 | on positive values `lb` is the floored binary logarithm |
| `BitSets.LbOfLowestBit` | core/math/HungarianSolver.cpp:763-763 | the index computed from x & -x is a set bit of x |
| `ZeroCells.CellSet.Any` | core/math/HungarianSolver.cpp:475-486 | row and column decoded from the bit index are a cell of the set, and none is found only when it is empty |
| `ZeroCells.CellInjective` | core/math/HungarianSolver.cpp:467-467 | distinct cells have distinct bits i * m + j |
| `Assignment.Duality` | core/math/HungarianSolver.cpp:263-272 | feasible potentials that are tight on an assignment, and zero on the columns it leaves out, prove it cheaper than or equal to every other assignment |
| `Assignment.DistinctColumns` | core/math/HungarianSolver.cpp:263-272 | non-positive potentials sum to at least the total over any distinct columns, with equality if the others are zero |
| `Kuhn.ReduceRows` | core/math/HungarianSolver.cpp:351-367 | every row loses its minimum, is non-negative and has a zero; the minima are entries of the old rows |
| `Kuhn.MarkZeros` | core/math/HungarianSolver.cpp:380-414 | the stars form a matching on zeros, and a zero is unstarred only next to a star |
| `Kuhn.IsDone` | core/math/HungarianSolver.cpp:427-444 | covers exactly the starred columns and returns true exactly when every row has a star |
| `Kuhn.Assign` | core/math/HungarianSolver.cpp:653-670 | lists every row with the column of its star |
| `Matchings.SameSize` | core/math/HungarianSolver.cpp:438-443 | a matching stars as many columns as rows, so counting columns decides completeness |
| `Matchings.CoverRowOk` | core/math/HungarianSolver.cpp:488-501 | priming an uncovered zero and covering its starred row keeps the phase invariant: every prime stands in a column opened earlier |
| `Matchings.NextHasPrime` | core/math/HungarianSolver.cpp:577-589 | the row the path enters has a prime, its star is the one just crossed, and it was not on the path |
| `Matchings.WalkGoesOn` | core/math/HungarianSolver.cpp:575-590 | one more pair of cells keeps the path's invariant, with the cover time falling |
| `Matchings.WalkEnds` | core/math/HungarianSolver.cpp:592-600 | flipping the finished path is a matching with exactly one star more that keeps every starred column starred |
| `Matchings.PathFits` | core/math/HungarianSolver.cpp:292-293 | a path has at most 2n - 1 cells and fits n * m entries |
| `KuhnSearch.StarCoveredOnce` | core/math/HungarianSolver.cpp:427-444 | during a phase every star is covered by exactly one of its row and column, and stands on a zero |
| `KuhnSearch.CollectZeroes` | core/math/HungarianSolver.cpp:461-467 | the set holds exactly the uncovered zeros |
| `KuhnSearch.RefreshColumn` | core/math/HungarianSolver.cpp:503-510 | brings the opened column up to date and leaves the rest |
| `KuhnSearch.RefreshRow` | core/math/HungarianSolver.cpp:512-524 | after the covered row is brought up to date the set again holds exactly the uncovered zeros |
| `KuhnSearch.VisitZero` | core/math/HungarianSolver.cpp:485-536 | from one loop head to the next: a primed zero either covers its row or starts an augmenting path |
| `KuhnSearch.SearchLoop` | core/math/HungarianSolver.cpp:473-537 | the loop terminates, since every round covers a row, and at every head the set is exactly the uncovered zeros |
| `KuhnSearch.FindPrime` | core/math/HungarianSolver.cpp:458-538 | none exactly when no uncovered zero is left; otherwise a freshly primed zero in a row without star, from which a path can start |
| `KuhnAugment.IndexMarks` | core/math/HungarianSolver.cpp:559-572 | colMarks and rowPrimes list the star of every column and the prime of every row |
| `KuhnAugment.TracePath` | core/math/HungarianSolver.cpp:574-590 | the path terminates at a column without star, within the bounds of altRow and altCol, which list its cells |
| `KuhnAugment.FlipPath` | core/math/HungarianSolver.cpp:592-600 | every cell of the path is flipped exactly once and no other cell changes |
| `KuhnAugment.AltMarks` | core/math/HungarianSolver.cpp:553-610 | a matching with exactly one more star, no primes, new stars only where stars or primes stood, starred columns still starred |
| `KuhnMatch.AddAndSubtract` | core/math/HungarianSolver.cpp:624-642 | shifts every cell by the uncovered minimum, capped by the sentinel, according to its covers |
| `KuhnMatch.ShiftPotentials` | core/math/HungarianSolver.cpp:624-642 | there are still feasible potentials, zero on unstarred columns, and stars and primes are still on zeros |
| `KuhnMatch.WithinSpread` | core/math/HungarianSolver.cpp:627-632 | on an unstarred column the table never exceeds the row's spread |
| `KuhnMatch.Adjust` | core/math/HungarianSolver.cpp:624-642 | creates an uncovered zero or lowers every uncovered cell by the sentinel; always creates a zero if no row's spread exceeds the sentinel |
| `KuhnMatch.FindPath` | core/math/HungarianSolver.cpp:305-322 | the inner loop terminates on every table and ends with the start of an augmenting path; with at most n + 1 searches if no row's spread exceeds the sentinel |
| `KuhnMatch.Augment` | core/math/HungarianSolver.cpp:300-323 | one pass of the outer loop adds one star and keeps matching, zeros and potentials |
| `KuhnMatch.SettledIsOptimal` | core/math/HungarianSolver.cpp:263-272 | a complete matching on zeros of the reduced table is optimal for the original costs |
| `KuhnMatch.KuhnMatch` | core/math/HungarianSolver.cpp:273-339 | terminates for every n <= m table with a column for every row, all distinct, of minimum total original cost, after at most n phases, with at most n + 1 searches in each if no row's spread exceeds 2147483647 |
| `Hungarian.PaddingIsHarmless` | core/math/HungarianSolver.cpp:146-148 | the first rows of an optimum of the padded matrix are an optimum of the matrix |
| `Hungarian.HungarianSolver.Augment` | core/math/HungarianSolver.cpp:137-150 | the costs with rows of the largest cost (or zero) below them |
| `Hungarian.HungarianSolver.Threshold` | core/math/HungarianSolver.cpp:241-245 | -1 exactly where the column costs more than the limit; count is the number of the others |
| `Hungarian.HungarianSolver.Solve` | core/math/HungarianSolver.cpp:222-247 | before thresholding a minimum-cost assignment of the rectangular matrix; afterwards its affordable entries and their count |
| `Hungarian.ThresholdedIsAffordable` | core/math/HungarianSolver.cpp:241-245 | the kept columns are distinct and each costs at most the limit |
| `Elimination.RelatedKept` | core/math/YaMatrix.h:220-236 | a row operation on both sides keeps right * A = left and keeps right invertible |
| `Inverse.FindPivot` | core/math/YaMatrix.h:193-208 | the chosen rank is the first with the largest magnitude in its column |
| `Inverse.ClearBelow` | core/math/YaMatrix.h:220-236 | clears a column below the pivot, each row by its own multiple of the pivot row; every factor is at most one, so no infinity is reported |
| `Inverse.ForwardColumn` | core/math/YaMatrix.h:191-237 | the arrays go from one stage of the elimination to the next, with one more column zero below the diagonal; fails exactly if the column's pivot is near zero, whose sign decides the exception |
| `Inverse.Triangulate` | core/math/YaMatrix.h:191-237 | the forward pass arrives at the triangular stage, or throws for the first pivot near zero |
| `Inverse.BackwardColumn` | core/math/YaMatrix.h:241-268 | one more column is zero above the diagonal, the diagonal and the columns before it are still those of the triangular stage; fails exactly if the pivot is near zero or an entry above it is too large for it, the lowest such entry deciding |
| `Elimination.TriangleDiagonal` | core/math/YaMatrix.h:191-237 | the diagonal of the triangular stage holds the pivots found on the way |
| `Elimination.OneOutcome` | core/math/YaMatrix.h:179-288 | a matrix either succeeds or throws exactly one exception |
| `Pivots.StageRelated` | core/math/YaMatrix.h:191-237 | as long as no pivot is zero, the stage is the matrix multiplied by an invertible one, with its columns cleared |
| `Pivots.ZeroPivotForbids` | core/math/YaMatrix.h:212-218 | a zero pivot leaves a non-zero vector that the matrix sends to zero, so there is no inverse |
| `Pivots.InvertibleExactly` | core/math/YaMatrix.h:179-288 | a matrix has an inverse if and only if the elimination meets no zero pivot |
| `Pivots.SingularThrows` | core/math/YaMatrix.h:212-218 | a matrix without inverse throws, and what it throws is a division by zero |
| `Triangular.TriangularExactly` | core/math/MVTools.cpp:35-54 | an upper triangular matrix is inverted if and only if its diagonal entries are at least 1e-18 in magnitude and no entry above one is more than 1e18 times as large |
| `Triangular.SmallEntry` | core/math/MVTools.cpp:46-72 | a single entry below 1e-18 throws by its sign, zero as negative |
| `Triangular.LargeEntry` | core/math/YaMatrix.h:253-259 | a single factor beyond 1e18 throws by its sign |
| `Elimination.LeftInverse` | core/math/YaMatrix.h:270-287 | the scaled, reordered rows times A are the identity |
| `Elimination.RightInverse` | core/math/YaMatrix.h:270-287 | A times the scaled, reordered rows is the identity |
| `Inverse.Invert` | core/math/YaMatrix.h:179-288 | returns exactly if all pivots are away from zero and no backward factor is near infinity, and then the inverse on both sides; otherwise throws the exception of the first pivot near zero or, without one, of the first factor near infinity |
| `Factors.EntriesMakeFactor` | core/math/YaMatrix.h:290-295 | solving every entry's equation gives L times its transpose = A |
| `Factors.FactorUnique` | core/math/YaMatrix.h:290-295 | a matrix has at most one lower triangular factor whose diagonal is positive up to a last entry that may be zero |
| `Factors.PivotSound` | core/math/YaMatrix.h:302-305 | if there is such a factor at all, the next pivot is positive, or zero in the last row |
| `Definite.FactorIsDefinite` | core/math/YaMatrix.h:290-295 | a matrix with such a factor is positive semi-definite, and positive definite without its last row and column |
| `Definite.UnsoundPivot` | core/math/YaMatrix.h:302-315 | a pivot is the value of the quadratic form at some vector, so one that stops the decomposition shows that the matrix is not |
| `Definite.SemiDefiniteIsNotEnough` | core/math/YaMatrix.h:292-292 | a positive semi-definite matrix that the decomposition fails on |
| `Cholesky.ByColumns` | core/math/YaMatrix.h:296-317 | returns the factor; fails exactly when there is none, a zero pivot in the last row being no failure |
| `Cholesky.ByRows` | core/common/NMatrix.cpp:294-313 | returns the factor; fails exactly when there is none, a zero pivot in the last row being no failure |
| `Cholesky.BothOrders` | core/math/YaMatrix.h:296-317 | the column order and NMatrix's row order give the same result on every symmetric matrix, and succeed if and only if it is semi-definite, and definite without its last row and column |
| `ThreadPool.Invariant` | core/common/threadpool.h:29-90 | every state of every interleaving keeps order, exactly-once, wake-up and shutdown invariants |
| `ThreadPool.NoLostWakeUp` | core/common/threadpool.h:35-40 | with a worker and a non-empty queue, some worker is awake or a notification is on its way |
| `ThreadPool.NoIdleWorker` | core/common/threadpool.h:69-77 | a worker sleeps only while queued tasks do not outnumber the wake-ups under way |
| `ThreadPool.StopWakesAll` | core/common/threadpool.h:82-87 | once stopped, notify_all is pending or nobody sleeps |
| `ThreadPool.TakenForGood` | core/common/threadpool.h:46-51 | tasks are taken in the order accepted, by one worker each, for good; none is accepted after the stop |
| `ThreadPool.AllTasksRun` | core/common/threadpool.h:82-90 | when the joins are through every accepted task has run, exactly if there was a worker or no task |
| `ThreadPool.StoppedPoolDrains` | core/common/threadpool.h:42-51 | in a stopped pool every step lowers the remaining work |
| `ThreadPool.DestructorReturns` | core/common/threadpool.h:82-90 | every continuation of a stopped pool is bounded and not stuck before the last join |
| `ThreadPool.CheckTakes` | core/common/threadpool.h:46-48 | a worker that takes the lock while a task is queued takes the oldest one, in a running pool as in a stopped one |
| `ThreadPool.EveryStepHelps` | core/common/threadpool.h:29-90 | every step other than an enqueue or a spurious wake-up lowers the work left, stopped or not |
| `ThreadPool.RunningPoolProgresses` | core/common/threadpool.h:29-55 | in every continuation the pool's own steps are bounded by the work enqueued, and where no work is enabled every accepted task has run |
| `ThreadPool.WorkGetsDone` | core/common/threadpool.h:29-55 | from every state the workers can run every accepted task, without a stop |
| `ThreadPool.AnyNumberRuns` | core/common/threadpool.h:58-79 | an unstopped pool with a worker accepts and runs any number of tasks |
| `ThreadPool.AnyPoolCanBeDestroyed` | core/common/threadpool.h:82-90 | at any time the pool can be stopped, and then reaches the last join with every accepted task done |
| `ThreadPool.NotificationIsDelivered` | core/common/threadpool.h:77-77 | a pending notification wakes any one of the sleeping workers, or nobody if none sleeps |
| `ThreadPool.SpuriousIsHarmless` | core/common/threadpool.h:36-40 | a spurious wake-up of an idle pool puts the worker back to sleep |
| `Merging.Sort` | core/math/PairwiseCostMergeUtility.h:57-61 | a permutation by decreasing cost |
| `Merging.InitialPairs` | core/math/PairwiseCostMergeUtility.h:25-33 | exactly one entry with its cost per unordered pair of distinct inputs |
| `Merging.MergedPairs` | core/math/PairwiseCostMergeUtility.h:86-94 | after a merge the list again has exactly one entry per unordered pair of live objects |
| `Merging.DropStale` | core/math/PairwiseCostMergeUtility.h:70-73 | drops exactly the stale entries at the end of the list |
| `Merging.ForestKept` | core/math/PairwiseCostMergeUtility.h:76-80 | replacing two objects by their merge keeps the merge trees a partition of the inputs |
| `Merging.MergeUtility.MergeBest` | core/math/PairwiseCostMergeUtility.h:56-94 | merges a cheapest live pair within the threshold into a new object, whose tree joins theirs, or proves there is none; the clean-up loop drops nothing |
| `Merging.MergeUtility.MergeItems` | core/math/PairwiseCostMergeUtility.h:35-102 | terminates; the log of its merges, replayed from the inputs, gives the results, their trees and the deleted objects; every merge was a cheapest live pair, the trees partition the inputs, nothing live is deleted or deleted twice, and it stops above max(count, 1) only if every remaining pair is too costly |
| `Polygons.RawEncloses` | core/math/Polygon.cpp:31-40 | the loop computes the parity of the edges that toggle |
| `Polygons.CrossingBetween` | core/math/Polygon.cpp:35-36 | truncating division keeps the crossing between the ends of the edge |
| `Polygons.TruncDivLaw` | core/math/Polygon.cpp:36-36 | the division rounds to the largest magnitude that fits, with the sign of the exact quotient |
| `Polygons.TogglesExactly` | core/math/Polygon.cpp:35-36 | an edge toggles exactly if x, or x + 1 where the edge meets the line right of its first vertex, is left of it in terms of cross products |
| `Polygons.ToggleMargins` | core/math/Polygon.cpp:35-36 | an edge toggles at every x that is one left of it, and at no x on or right of it |
| `Convex.OneEachWay` | core/math/Polygon.cpp:34-38 | at most one edge of a strictly convex polygon rises through a line, and at most one falls |
| `Convex.ConvexInside` | core/math/Polygon.cpp:31-40 | a point on the inner side of every edge, with its right neighbour not outside, is enclosed, whichever way the vertices are listed |
| `Convex.ConvexOutside` | core/math/Polygon.cpp:31-40 | a point outside an edge together with its right neighbour is not enclosed |
| `Polygons.CrossingsCancel` | core/math/Polygon.cpp:34-38 | left of the box the parity after k edges compares the k-th vertex with the last one, so the whole cycle is even |
| `Polygons.OutsideIsNotEnclosed` | core/math/Polygon.cpp:95-96 | no point outside a box around the vertices passes the even-odd test |
| `Polygons.NoOverflow` | core/math/Polygon.cpp:35-36 | for vertices in range nothing in the raw test overflows an int |
| `Polygons.SmallIsInRange` | core/math/Polygon.cpp:35-36 | vertices with coordinates in [0, 46341) are in range |
| `Polygons.ProductBound` | core/math/Polygon.cpp:35-36 | every edge with coordinates below a bound keeps its products in an int if and only if the bound is at most 46341 |
| `Polygons.EdgeOverflows` | core/math/Polygon.cpp:97-97 | an edge within the bound of the comment whose product overflows |
| `Polygons.LookupInjective` | core/math/Polygon.cpp:97-97 | on 32-bit words the keys of points below 2^16 differ, as the comment says |
| `Polygons.LookupIs` | core/math/Polygon.cpp:97-97 | on 32-bit words the key is a sum for a y with empty upper half, and y itself for a small negative one |
| `Polygons.KeysDifferExactly` | core/math/Polygon.cpp:97-97 | in a box around the origin the keys tell all points apart if and only if it is narrower than 2^16 and has no negative y or only one x |
| `Polygons.EqualKeys` | core/math/Polygon.cpp:97-97 | in a box with sides below 2^16 two points share a key if and only if they are the same or at the same negative height |
| `Polygons.CacheIsRightExactly` | core/math/Polygon.cpp:95-105 | every answer after every sequence of queries is the raw test's if and only if no enclosed point has a negative y |
| `Polygons.VerticesAbove` | core/math/Polygon.cpp:95-105 | no enclosed point has a negative y if no vertex has |
| `Polygons.ListIsRightExactly` | core/math/Polygon.cpp:82-93 | the list of answers is the list of enclosed points if and only if no enclosed point has a negative y |
| `Polygons.CollisionMisleads` | core/math/Polygon.cpp:95-105 | a square below the axis with two points of the same key, only one of which is enclosed |
| `Polygons.Polygon.SetBounds` | core/math/Polygon.cpp:42-80 | for any vertices, the smallest box that contains them and the origin |
| `Polygons.Polygon.Encloses` | core/math/Polygon.cpp:95-105 | the answer for the first point asked for with the same key; the raw test's answer for every point and after any queries if no enclosed point has a negative y |
| `Polygons.Polygon.EnclosedPoints` | core/math/Polygon.cpp:82-93 | the points of the box whose answer is true, each once, in loop order; these are the enclosed points of the plane if and only if none has a negative y |
| `Exchange.Memory.VisionPublishData` | core/VisionCore.cpp:500-533 | statement by statement, the effect of `AfterVisionPublish` on the three sets of blocks |
| `Exchange.Memory.VisionReceiveData` | core/VisionCore.cpp:541-606 | statement by statement, the effect of `AfterVisionReceive` |
| `Exchange.Memory.MotionPublishData` | core/MotionCore.cpp:451-478 | statement by statement, the effect of `AfterMotionPublish` |
| `Exchange.Memory.MotionReceiveData` | core/MotionCore.cpp:481-513 | statement by statement, the effect of `AfterMotionReceive`, and whether the walk engine is set up anew |
| `Exchange.KickOwnership` | core/VisionCore.cpp:510-516 | in every interleaving the shared kick request is what vision last published, except kick_running_ and finished_with_step_, which are what motion last published |
| `Exchange.WalkOwnership` | core/MotionCore.cpp:461-469 | in every interleaving target_point_, kick_with_left_, kick_heading_ and motion_ are what vision last published |
| `Exchange.MotionSeesOwnProgress` | core/MotionCore.cpp:488-488 | on receiving, motion's kick request is vision's with motion's own progress flags |
| `Exchange.LastPublisherWins` | core/MotionCore.cpp:465-473 | in every interleaving the eight walk fields without owner and the control status are what either side published last, and the flags that motion lowers are vision's only if vision published last |
| `Exchange.CommandArrives` | core/MotionCore.cpp:465-473 | after a receipt motion has vision's value of each field without owner if and only if it has not published since or published the same, and vision's one-shot flags if and only if it has not published since |
| `Exchange.ControlArrives` | core/MotionCore.cpp:489-492 | the control status arrives likewise, except that a control motion has done is not set again |
| `Exchange.OwnedArrive` | core/MotionCore.cpp:490-490 | the four fields that vision owns always reach motion |
| `Exchange.VisionSeesProgress` | core/VisionCore.cpp:566-570 | in every interleaving vision has after a receipt what motion last published of the kick's progress, no kick type, and the rest of its own request |
| `Exchange.VisionSeesWalk` | core/VisionCore.cpp:571-584 | and a walk request that is the one published last, with its own odometry offsets and walk type and four one-shot flags down |
| `Exchange.VisionAfterPublishing` | core/VisionCore.cpp:505-522 | publishing notes the penalty, takes the start command back and leaves the rest of vision's blocks |
| `Exchange.TransfersKeep` | core/MotionCore.cpp:451-513 | a transfer writes nothing but what it transfers to |
| `Exchange.StartIsNeverShared` | core/VisionCore.cpp:522-522 | in every interleaving vision's start_command_ reaches neither the shared request nor motion |
| `Exchange.StandingExactly` | core/VisionCore.cpp:518-521 | in every interleaving the shared finished_standing_ is up if and only if some publication raised it and none has lowered it since: motion by publishing it down, vision by starting a command with its own down |
| `Exchange.CommandLost` | core/MotionCore.cpp:465-473 | a new command is lost whenever motion publishes between vision's publication and the next receipt |
| `Exchange.LostInOneRound` | interfaces/shared_motion/main.cpp:82-91 | in motion's own round of receive, work and publish, a command published meanwhile is lost: motion sees a different request and no new command |
| `Exchange.DeliveryHolds` | core/VisionCore.cpp:527-532 | in every interleaving a raised flag guards the newest flagged set, a lowered one means motion has it, and no set is taken twice |
| `Exchange.OneShotDelivery` | core/MotionCore.cpp:496-507 | after motion receives it holds the newest set published with the flag on each of the three channels |
| `Exchange.NotSentAgain` | core/VisionCore.cpp:586-588 | after a receipt, until vision works again, its publications deliver no parameters a second time |
| `Frames.RotateKeeps` | core/math/RotationMatrix.cpp:83-105 | rotating about an axis keeps a rotation orthonormal |
| `Frames.QuarterTurns` | core/math/RotationMatrix.cpp:83-105 | a quarter turn about an axis takes the next axis to the one after it |
| `Frames.ConcInvert` | core/math/Pose3D.h:105-129 | a pose with orthonormal rotation is undone by `invert` on both sides |
| `Frames.RelativeIsConc` | core/math/Pose3D.h:112-118 | `relativeTo` is composition with the inverse |
| `Frames.RelativePoseKept` | core/math/Pose3D.h:112-118 | two poses seen from a common base keep their relative pose |
| `Kinematics.CalculateRelativePose` | core/kinematics/ForwardKinematics.cpp:18-84 | every part hangs on its parent by the link and joint of the body's table, and the torso carries only the tilt |
| `Kinematics.LinkIsOwnMotion` | core/kinematics/ForwardKinematics.cpp:18-84 | a part's pose relative to its parent is its own entry of the table: its own joint, for the cameras the head's yaw, and no other |
| `BodyModel.Placed` | core/kinematics/ForwardKinematics.cpp:18-84 | every part is placed, by number, by the rotation of its joint and its offset in the frame of the part it hangs on |
| `BodyModel.LinkSeen` | core/kinematics/ForwardKinematics.cpp:18-84 | so whatever the pose, a part seen from its parent has that rotation and that offset, such as the lower leg's length from tibia to ankle |
| `BodyModel.OnlyDrivenPartsMove` | core/kinematics/ForwardKinematics.cpp:18-84 | a part stays where it is unless a joint that drives it changes: a joint drives the parts of its limb from its own part on |
| `BodyModel.LimbsAreIndependent` | core/kinematics/ForwardKinematics.cpp:41-46 | the joints of one limb leave all parts of the others alone |
| `BodyModel.FeetAtRest` | core/kinematics/ForwardKinematics.cpp:66-82 | where both feet are with all joints at zero |
| `BodyModel.HandsAtRest` | core/kinematics/ForwardKinematics.cpp:49-64 | where both hands are with all joints at zero |
| `BodyModel.LegsMirror` | core/kinematics/ForwardKinematics.cpp:66-82 | exchanging the joints of the sides reflects every part of the legs |
| `BodyModel.ArmsMirror` | core/kinematics/ForwardKinematics.cpp:49-64 | it reflects shoulders and upper arms, and the arms from the elbow on if and only if the elbow offset is zero |
| `Kinematics.PartRigid` | core/kinematics/ForwardKinematics.cpp:18-84 | every part's rotation is orthonormal |
| `Kinematics.BaseNeedsUprightTorso` | core/kinematics/ForwardKinematics.cpp:96-113 | the computed base is the base under the torso in the foot's frame exactly when the torso is not tilted |
| `Kinematics.NoTilt` | core/kinematics/ForwardKinematics.cpp:18-22 | the torso is upright exactly for two angles with cosine one and sine zero |
| `Kinematics.BaseNeedsNoTilt` | core/kinematics/ForwardKinematics.cpp:96-113 | so the computed base is right exactly when the caller passes such angles |
| `Kinematics.TorsoAboveBase` | core/kinematics/ForwardKinematics.cpp:104-110 | seen from the base the torso is straight above and faces ahead |
| `Kinematics.CalculateVirtualBase` | core/kinematics/ForwardKinematics.cpp:119-129 | the base over the foot with the larger force, the right one on a tie |
| `Kinematics.CalculateAbsolutePose` | core/kinematics/ForwardKinematics.cpp:138-150 | every part seen from the base, which becomes a part itself |
| `Kinematics.UprightStands` | core/kinematics/ForwardKinematics.cpp:138-150 | foot on the ground, torso above the origin and facing ahead, relative poses kept |
| `Kinematics.CalculatePose` | core/kinematics/KinematicsModule.cpp:34-40 | for all joints, dimensions and sensors, the untilted robot's poses have all those properties, and the foot with the larger load is at height zero |
| `Kinematics.LoadsExchanged` | core/kinematics/ForwardKinematics.cpp:119-129 | with unequal loads exchanged the robot stands on the other foot |

## Left out

- Floating-point rounding: costs, matrices and poses are exact reals. In particular the sentinel is the integer
  written in the source, which a float rounds up by one.
- `kuhn_match` with more rows than columns: the program then writes past the end of colCovered; callers pass n <= m.
- `HungarianSolver::reshape`: it solves a heuristic choice of columns and is optimal only within it.
- `-x` on a limb with only bit 63 set: two's complement negation, although C++ leaves the overflow undefined.
- `std::sort` is an insertion sort with the program's comparator, and traversals of `unordered_set` take any order.
- `YaMatrix::inverse` on matrices that are not square, which index out of range.
- A negative Cholesky pivot, or a zero one with rows below it: the programs go on with NaN or infinity, the model
  returns `None`.
- Exceptions in a task, which `packaged_task` keeps in its future, and a thread pool whose constructor is still running.
- `merge_items` on duplicate inputs, where the program deletes an object twice.
- Polygons with an edge whose product overflows, or 2^16 or more across: there the raw test or the shift leaves
  32-bit range. A shift of a negative x is taken as two's complement.
- `Polygon::addVertex`, which leaves the caches as they are.
- Odometry, joint commands, sensors and sonar in the exchange: they are copied without interplay.
- In-place update of `Pose3D` and `RotationMatrix`: they are values whose operations return the updated value.
- `acosf` and `atan2f` in angle extraction: the heading enters by its cosine and sine only.
- Everything else in the repository: communication, serialization, image capture, localization and behaviour code.
