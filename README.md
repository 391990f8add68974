# Multi-belonging of points to a polygon

A model of a sweep-line algorithm that answers, for many query points at once,
whether each lies OUTSIDE, INSIDE or on the BORDER of one simple polygon given
by its vertices.

The algorithm runs in stages:

- It fixes the vertex order so that the signed shoelace sum is not positive.
- It builds the edges. Edge `i` runs from vertex `i` to vertex `i + 1`, wrapping around.
- Each edge is classified as DOWN, VERTICAL or UP by the direction its x
  coordinate moves.
- Vertical edges are indexed by their abscissa.
- Every query lying on a vertex is marked BORDER as it is added.

Two passes then refine the answers:

- **Vertical pass** (`answer_for_vert`). For each abscissa that holds queries, the
  vertical edges there become y-intervals. Their OPEN and CLOSE events are sorted
  with the queries by y. A running balance of opened minus closed intervals marks
  every query met while it is positive as BORDER.
- **General sweep** (`run`). OPEN and CLOSE events for the non-vertical edges and
  one event per query are sorted by x, and at equal x by type:
  QUERY < CLOSE < OPEN. An ordered set of the active edges is maintained. For each
  query, the first active edge not below the query is looked up:
  - if that edge passes through the query, the query is BORDER;
  - if the edge just below it is UP, the answer is raised to at least INSIDE.

Modules:

- `Geometry` (`geometry.dfy`): points, their order and cross product, answer
  states, segments and their extreme ends and heights, the shoelace sum, edge
  derivation, the vertical-edge index and the `Polygon` class.
- `Events` (`events.dfy`): sweep events, both event comparators as key orders,
  sorting, the event lists, and counting and balance lemmas.
- `VerticalPass` (`vertical_pass.dfy`): one abscissa group of the vertical pass.
  A query is marked exactly when some interval at that abscissa covers its y.
- `GeneralSweep` (`general_sweep.dfy`): the active-set comparator, the ordered
  set operations, one query's update, the event-by-event specification of the
  sweep, and the sweep loop itself.
- `SweepInvariant` (`sweep_invariant.dfy`): what the general sweep's active set
  holds when it meets a query. If no two edges that share a stretch of x are
  equivalent under the comparator, a CLOSE whose `find` returns an element
  removes its own edge. When no CLOSE so far has come back empty, the active
  set at a query then holds exactly the non-vertical edges that open strictly
  left of the query and close at or right of it.
- `MultiBelonging` (`multi_belonging.dfy`): the `MultiBelongingAlgorithm`
  class, whose fields are the algorithm's vectors, maps and multiset.

## Model

| member | source | states |
|---|---|---|
| Geometry.Equivalent | library/geometry.h:62-65 | two points are equivalent under `operator<` exactly when they have the same x and y; the id is ignored |
| Geometry.LessIsStrictOrder | library/geometry.h:62-65 | point `<` is irreflexive, asymmetric and transitive, and any two points are ordered or equivalent |
| Geometry.CrossAntisymmetric | library/geometry.h:48-50 | `p ^ q == -(q ^ p)` and `p ^ p == 0` |
| Geometry.MaxState | main.cpp:183 | `std::max` on states returns one of its arguments and is at least both in the OUTSIDE < INSIDE < BORDER order |
| Geometry.MinX | library/geometry.h:91-93 | returns an end with the smaller x; on an x tie it returns the right end |
| Geometry.MaxX | library/geometry.h:95-97 | returns an end with the larger x; on an x tie it returns the left end |
| Geometry.MinY | library/geometry.h:99-101 | returns an end with the smaller y; on a y tie it returns the right end |
| Geometry.MaxY | library/geometry.h:103-105 | returns an end with the larger y; on a y tie it returns the left end |
| Geometry.YOfVertical | library/geometry.h:112-114 | a vertical segment has the first end's y at every abscissa |
| Geometry.YOfNonVertical | library/geometry.h:116-117 | a non-vertical segment passes through both of its ends, and its height is linear along it |
| Geometry.ShoelaceReverse | main.cpp:79-88 | reversing the vertex order negates the shoelace sum |
| Geometry.ReverseInPlace | main.cpp:86 | `std::reverse`: element `i` of the result is element `n-1-i` of the input |
| Geometry.Classify | main.cpp:97-103 | DOWN exactly when x grows along the edge, VERTICAL exactly when x stays, UP exactly when x shrinks |
| Geometry.EdgesFormCycle | main.cpp:91-92 | there is one edge per vertex; edge `i` has id `i` and starts at vertex `i`, and it ends where edge `i+1 mod n` starts |
| Geometry.VerticalAtExactly | library/geometry.h:153-155 | the edges filed under x are exactly the edges vertical at x, in increasing id order |
| Geometry.VerticalEdgesOfPolygon | main.cpp:93-95 | an edge is filed under x exactly when both of its vertices have abscissa x; filed edges keep increasing ids |
| Geometry.FileEdge | main.cpp:94 | a vertical edge is appended to the list under its own x; every other key is unchanged and no key is lost |
| Geometry.FileVertical | main.cpp:93-95 | filing one more edge keeps the map an index of all edges filed so far |
| Geometry.IndexUpToIndexes | library/geometry.h:151-155 | after the loop, every key's list is its old list followed by the vertical edges at that x, and the key set grows only by those x |
| Geometry.Polygon.constructor | library/geometry.h:145-148 | the vertex multiset holds exactly the given points |
| Geometry.Polygon.Empty | library/geometry.h:143 | all containers start empty |
| Geometry.Polygon.SetEdges | library/geometry.h:150-165 | appends one positioned edge per vertex and indexes the vertical ones, where the indexed copy has no position yet |
| Geometry.Polygon.Square | library/geometry.h:167-173 | the loop computes the shoelace sum of the vertices |
| Geometry.Polygon.RevertOrder | library/geometry.h:175-177 | reverses the vertices, which negates the shoelace sum |
| Events.Redirection | main.cpp:107-117 | negative exactly for OPEN, zero exactly for QUERY, positive exactly for CLOSE |
| Events.ComparatorsAreKeyOrders | main.cpp:44-50 | `Event::operator<` is the lexicographic order on (x, type) and the vertical comparator the one on (y, redirection) |
| Events.KeyOrderIsStrictTotal | main.cpp:120-126 | both comparators are strict weak orders, so `std::sort` may use them |
| Events.SweepOrderTies | main.cpp:44-50 | events tie exactly at equal x and equal type; at equal x a QUERY precedes edge events and a CLOSE precedes an OPEN |
| Events.VerticalOrderTies | main.cpp:120-126 | events tie exactly at equal y and equal type; at equal y an OPEN comes first and a QUERY precedes a CLOSE |
| Events.SortBy | main.cpp:204 | the result is sorted by the chosen comparator and is a permutation of the input |
| Events.InsertSorted | main.cpp:204 | inserting into a sorted sequence keeps it sorted |
| Events.SortedPlacesLowerFirst | main.cpp:142 | in a sorted sequence, an event with a strictly smaller key comes earlier |
| Events.EdgeEventsUpTo | main.cpp:192-198 | every non-vertical edge contributes its OPEN at its min-x end and its CLOSE at its max-x end, and no event is a query |
| Events.EdgeEventsOrigin | main.cpp:192-198 | every edge event is the OPEN or CLOSE of a non-vertical edge |
| Events.OpenBeforeClose | main.cpp:194-195 | a non-vertical edge's OPEN sorts strictly before its CLOSE |
| Events.QueryEventsUpTo | main.cpp:200-202 | one QUERY event per query, carrying its id and point, in order |
| Events.CountPermutation | main.cpp:143-151 | event counts do not depend on the order of the events |
| Events.BalanceStep | main.cpp:145-148 | OPEN raises the balance by one, CLOSE lowers it by one, and QUERY leaves it alone |
| VerticalPass.CoveringPositive | main.cpp:149 | a positive count of intervals spanning y means some interval at this abscissa covers y |
| VerticalPass.IntervalEvents | main.cpp:131-135 | two events per vertical edge, and none is a query |
| VerticalPass.IntervalBalance | main.cpp:131-135 | OPENs at or below y minus CLOSEs strictly below y count the intervals spanning y |
| VerticalPass.BalanceAtQuery | main.cpp:142-151 | in any sorted order, the balance just before a query equals the number of intervals covering the query's y |
| VerticalPass.QueryOrigin | main.cpp:138-141 | every QUERY event comes from a query filed at this abscissa, with its own id |
| VerticalPass.HitIff | main.cpp:143-151 | the pass marks a query id exactly when some query with that id lies on a vertical edge at this abscissa |
| VerticalPass.MarkQueries | main.cpp:143-151 | the balance loop marks BORDER exactly the queries met while the balance is positive, and changes nothing else |
| VerticalPass.SweepGroup | main.cpp:129-151 | one abscissa group sets an answer to BORDER exactly when a query with that id lies on a vertical edge there; other answers are unchanged |
| GeneralSweep.ProbeComparison | main.cpp:156-162 | against an edge spanning the query's x, the comparator compares the edge's height there with the query's y, in both directions |
| GeneralSweep.LowerBound | main.cpp:178 | every element before the returned index is below the key, and the element at it is not |
| GeneralSweep.UpperBound | main.cpp:168 | no element before the returned index is above the key, and the element at it is |
| GeneralSweep.InsertActive | main.cpp:167-168 | inserts the edge at its upper bound; the rest of the set keeps its order, and the multiset gains exactly that edge |
| GeneralSweep.Find | main.cpp:171 | finds the element at the lower bound when it is equivalent to the key, and otherwise reports absence |
| GeneralSweep.EraseAt | main.cpp:171 | removes exactly one occurrence of the found element; the elements before it and after it keep their order |
| GeneralSweep.QueryStep | main.cpp:173-185 | an empty set leaves the answer alone; the answer only rises, and only to INSIDE or BORDER; BORDER exactly when the lower-bound edge passes through the query; an UP edge just below raises it to at least INSIDE |
| GeneralSweep.LowerBoundAtProbe | main.cpp:178-183 | on a set ordered at the query's x, the edges before the lower bound lie strictly below the query and the rest lie at or above it; the edge just before it is the highest edge below |
| GeneralSweep.QueryStepBorder | main.cpp:178-180 | on an ordered active set, the query becomes BORDER exactly when some active edge passes through it |
| GeneralSweep.ActiveStep | main.cpp:166-172 | OPEN adds one edge and CLOSE removes one; the step fails exactly when CLOSE's find reaches the end |
| GeneralSweep.ActiveAfter | main.cpp:165-172 | the active set only ever holds edges of the polygon |
| GeneralSweep.ActiveSize | main.cpp:165-172 | the active set's size is the OPEN minus CLOSE balance of the events processed |
| GeneralSweep.AnswersAfter | main.cpp:165-187 | answers only rise, only to INSIDE or BORDER, and stay unchanged for ids not yet queried |
| GeneralSweep.StopsAfterFailure | main.cpp:171 | once a CLOSE finds no equivalent edge, the sweep stays failed and no answer changes after that |
| GeneralSweep.HandleEvent | main.cpp:166-186 | the loop body advances the specification by exactly one event, or jumps to its failed end state |
| GeneralSweep.Sweep | main.cpp:165-187 | succeeds exactly when every CLOSE's `find` returns an element equivalent to its edge (without `Separated`, that element may be a different edge); its answers match the specification, only rise, take only INSIDE or BORDER, and leave unqueried ids alone |
| SweepInvariant.EdgeEventsCount | main.cpp:192-198 | the edge events hold exactly one OPEN and one CLOSE of each non-vertical edge, and none of a vertical one |
| SweepInvariant.TotalCount | main.cpp:190-204 | after adding the queries and sorting, edge `i` still has exactly one OPEN and one CLOSE when it is not vertical, and none otherwise |
| SweepInvariant.EventOrigin | main.cpp:192-202 | every OPEN or CLOSE names a non-vertical edge and sits at that edge's `minX` or `maxX` end respectively |
| SweepInvariant.OpenedAtQuery | main.cpp:44-50 | before a query at x, a non-vertical edge has been opened exactly when its `minX` end lies strictly left of x; a query precedes an OPEN at equal x |
| SweepInvariant.ClosedAtQuery | main.cpp:44-50 | before a query at x, a non-vertical edge has been closed exactly when its `maxX` end lies strictly left of x; a query precedes a CLOSE at equal x |
| SweepInvariant.CloseFindsOwnEdge | main.cpp:170-171 | when no two edges sharing a stretch of x are comparator-equivalent, any active element equivalent to the closing edge is that edge itself, so when `find` returns an element, `erase(find(...))` removes the closing edge |
| SweepInvariant.StepCopies | main.cpp:166-172 | OPEN adds one copy of its edge, CLOSE removes one copy of its own edge, and QUERY leaves every count unchanged |
| SweepInvariant.ActiveTally | main.cpp:165-172 | after any prefix of the events, each edge occurs in the active set as often as it was opened minus closed so far |
| SweepInvariant.ActiveAtQuery | main.cpp:165-184 | at a query at x reached with no CLOSE coming back empty, the active set holds each non-vertical edge with `minX < x <= maxX` exactly once and nothing else, so every active edge spans x |
| SweepInvariant.ComparatorCycle | main.cpp:156-162 | on three concrete edges the comparator runs in a cycle, U below T, T below D and D below U, so it is not a strict weak order on them |
| SweepInvariant.CycleSeparated | main.cpp:156-162 | those three edges still satisfy `Separated`: no two of them are equivalent |
| SweepInvariant.CycleDefeatsFind | main.cpp:165-171 | inserting T, U, D by the linear upper bound holds them as [D, U, T], and after U is erased `find` misses T in [D, T] although T is present |
| MultiBelonging.PositionsMatchEdges | main.cpp:97-103 | the position recorded for edge `i` is DOWN, VERTICAL or UP exactly as x grows, stays or shrinks along it |
| MultiBelonging.Resize | main.cpp:209 | `resize`: the new length, old entries kept, new entries OUTSIDE |
| MultiBelonging.HitInStep | main.cpp:128 | handling one more abscissa adds exactly the hits of that group |
| MultiBelonging.GroupStep | main.cpp:128-152 | after each group the answers are BORDER exactly for ids hit in the groups done so far, and otherwise their initial value |
| MultiBelonging.HasLeast | main.cpp:128 | a non-empty set of map keys has a least key, the next in ascending iteration |
| MultiBelonging.PipelineIdsInRange | main.cpp:190-210 | events built from the polygon's edges and from queries whose ids fit the answer vector index only valid edges, positions and answers |
| MultiBelonging.SweepGroups | main.cpp:128-152 | after all groups, an answer is BORDER exactly when some query with that id lies on a vertical edge at its own abscissa; every queried x gains an (empty) vertical entry |
| MultiBelonging.CollectEvents | main.cpp:191-202 | the events are the old ones followed by the edge events and then the query events |
| MultiBelonging.PolygonWellIndexed | main.cpp:90-105 | edge `i` carries id `i`, and its position is VERTICAL exactly when the edge is vertical |
| MultiBelonging.PolygonActiveAtQuery | main.cpp:155-205 | for the sorted events of a polygon with no two comparator-equivalent edges sharing a stretch of x, every edge event names a valid edge. At each query reached with no CLOSE coming back empty, the active set holds each non-vertical edge spanning the query's x, with `minX < x <= maxX`, exactly once, and no other edge |
| MultiBelonging.MultiBelongingAlgorithm.constructor | main.cpp:71 | every container starts empty |
| MultiBelonging.MultiBelongingAlgorithm.SetOrder | main.cpp:79-88 | reverses the vertices exactly when the shoelace sum is positive, so afterwards it is never positive |
| MultiBelonging.MultiBelongingAlgorithm.SetEdges | main.cpp:90-105 | appends one edge and one position per vertex and indexes the vertical edges by x |
| MultiBelonging.MultiBelongingAlgorithm.SetEvents | main.cpp:190-205 | the events become a sorted permutation of the old events, the non-vertical edges' OPEN/CLOSE pairs and the queries |
| MultiBelonging.MultiBelongingAlgorithm.ReserveQuery | main.cpp:207-210 | resizes the answers, keeping old entries and padding with OUTSIDE |
| MultiBelonging.MultiBelongingAlgorithm.PushBack | main.cpp:212-216 | appends the vertex and adds it to the vertex multiset, keeping the two consistent |
| MultiBelonging.MultiBelongingAlgorithm.PushQuery | main.cpp:218-225 | marks BORDER exactly when a vertex is equivalent to the query, and appends the query to the list and to its x group, keeping the index keyed by x |
| MultiBelonging.MultiBelongingAlgorithm.Clear | main.cpp:227-238 | every container is emptied |
| MultiBelonging.MultiBelongingAlgorithm.AnswerForVert | main.cpp:119-153 | BORDER is set exactly for the queries on a vertical edge at their abscissa; the other answers are unchanged |
| MultiBelonging.MultiBelongingAlgorithm.Run | main.cpp:155-188 | the answers become the sweep specification's answers; they only rise and take only INSIDE or BORDER |

## Left out

- Floating point: `y()` and the comparator in `run` compute in `double`. The model uses exact rationals, so rounding effects are not captured. The shoelace sum (`long double` and `double`) is an exact integer.
- Coordinates are unbounded integers: the `int` keys of the two maps and `T`'s own arithmetic are not truncated or wrapped.
- GeneralSweep.Sweep: it does not prove the global ray-casting result, that a query is INSIDE exactly when the polygon contains it. It ties the answers to the event-by-event specification AnswersAfter. It also proves per-query facts: QueryStep, QueryStepBorder, LowerBoundAtProbe.
- MultiBelonging.MultiBelongingAlgorithm.Run: the same limit as GeneralSweep.Sweep.
- GeneralSweep.Find: `std::multiset` is a balanced tree. Its ordered set is modelled as a sequence searched from the front. The results agree with the tree's `lower_bound`/`find` only when the sequence is sorted by `Below`, the comparator itself. That sortedness is not proved, and neither is `Below` being a strict weak order on the active edges. So `Find` is not proved to find an equivalent element whenever one is present. Under `Separated`, an element it does return is the closing edge (SweepInvariant.CloseFindsOwnEdge).
- GeneralSweep.UpperBound, GeneralSweep.LowerBound, GeneralSweep.InsertActive: the same limit as GeneralSweep.Find. On a sequence not sorted by `Below`, the linear insert position differs from the tree's. SweepInvariant.ComparatorCycle, CycleSeparated and CycleDefeatsFind give an example. Take the edges T = (0,5)-(10,5), U = (0,0)-(6,12) and D = (4,6)-(10,6). They are separated, yet `Below` ranks them in a cycle: U below T, T below D, D below U. Inserting them by the linear scan gives [D, U, T]. With such a comparator, which is not a strict weak order, the C++ multiset's behaviour is undefined. U crosses T at (2.5, 5), inside both edges, so the three cannot all be edges of one simple polygon. The example shows only that `Separated` alone does not make `Find` succeed. It shows no failure on a simple polygon.
- SweepInvariant.ActiveAtQuery: it assumes `Separated`, that no two distinct edges sharing a stretch of x are equivalent under the comparator. This holds for a simple polygon with no collinear overlapping edges, but it is not derived from simplicity. It also assumes that no earlier CLOSE came back empty (`ActiveAfter(...).Some?`). That would follow only from the active sequence being sorted by `Below`, which is not proved (see GeneralSweep.Find). With T, U and D from the line above, the edges are separated. Yet once U is erased from [D, U, T], `Find` misses T in [D, T], so the CLOSE of T would come back empty. The lemma is also not combined with OrderedAt's height order into the global ray-casting result.
- MultiBelonging.PolygonActiveAtQuery: both conclusions about the active set are guarded by `ActiveAfter(...).Some?`, no earlier CLOSE having come back empty. It carries the same `Separated` assumption and the same unproved sortedness as SweepInvariant.ActiveAtQuery.
- `erase(find(...))` when `find` returns `end()` is undefined behaviour. The model reports it as failure (`ok == false`), and no answer changes after that.
- Events.SortBy: `std::sort` leaves the order of equal keys unspecified. The model fixes one order, an insertion sort, and its contract states only sortedness and permutation. The properties proved about the passes do not depend on the order of ties.
- `std::map` iteration in `answer_for_vert` is modelled as repeatedly taking the least remaining key.
- The `POSITION` enum in main.cpp:11-15 is the same three values as Geometry's `POSITION`, so one datatype serves both.
- `reserve` (main.cpp:73-77) and `_query.reserve` only change capacity, which is not modelled.
- `points_x` is never filled; the model only clears it.
- Input and output are not part of this model: `TestCase`, `solve`, `main` and the stream operators. The getters are omitted: `ans()`, `getPoints`, `getEdges`, `getVerticies`, `getVerticalEdges`. So is `Point::setId`.

The model follows the code in two places where a plain description of the algorithm would differ:

- On a tie, `maxX`/`maxY` return the left end and `minX`/`minY` the right end.
- `Polygon::setEdges` files an edge in the vertical-edge map before it sets the edge's position. The filed copy therefore has no position; `Segment.position` is `None` there.
