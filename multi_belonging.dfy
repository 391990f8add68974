/** The multi-belonging algorithm: the polygon's vertices and the queries
    are pushed in, the vertex order is normalised, the edges and the sweep
    events are derived, and two passes classify every query as OUTSIDE,
    INSIDE or BORDER. */
module MultiBelonging {
  import opened Geometry
  import opened Events
  import opened VerticalPass
  import opened GeneralSweep
  import opened SweepInvariant

  /** The position of edge i of the closed polygon pts. */
  function PositionAt(pts: seq<Point>, i: nat): Position
    requires i < |pts|
  {
    Classify(pts[i], pts[(i + 1) % |pts|])
  }

  /** The positions of the first k edges. */
  function PositionsUpTo(pts: seq<Point>, k: nat): (r: seq<Position>)
    requires k <= |pts|
    ensures |r| == k
    ensures forall i :: 0 <= i < k ==> r[i] == PositionAt(pts, i)
  {
    if k == 0 then [] else PositionsUpTo(pts, k - 1) + [PositionAt(pts, k - 1)]
  }

  function PositionsOf(pts: seq<Point>): seq<Position> {
    PositionsUpTo(pts, |pts|)
  }

  /** Each edge's position is DOWN when its x grows, VERTICAL when x stays
      and UP when x shrinks. */
  lemma PositionsMatchEdges(pts: seq<Point>)
    ensures |PositionsOf(pts)| == |EdgesOf(pts)| == |pts|
    ensures forall i :: 0 <= i < |pts| ==>
      var e := EdgesOf(pts)[i];
      (PositionsOf(pts)[i] == Down <==> e.left.x < e.right.x) &&
      (PositionsOf(pts)[i] == Vertical <==> e.left.x == e.right.x) &&
      (PositionsOf(pts)[i] == Up <==> e.right.x < e.left.x)
  {
  }

  /** std::vector::resize with OUTSIDE as the value of new elements. */
  function Resize(a: seq<State>, n: nat): (r: seq<State>)
    ensures |r| == n
    ensures forall i :: 0 <= i < n ==> r[i] == if i < |a| then a[i] else Outside
  {
    if n <= |a| then a[..n] else a + seq(n - |a|, _ => Outside)
  }

  /** Some stored vertex is at the location of p, whatever its id. */
  predicate HasVertexAt(vs: multiset<Point>, p: Point) {
    exists v :: v in vs && Equivalent(v, p)
  }

  /** Every query filed under x in the query index lies at x. */
  predicate FiledByX(xp: map<int, seq<Point>>) {
    forall x :: x in xp ==> forall q :: q in xp[x] ==> q.x == x
  }

  /** Every query in the index has an answer slot. */
  predicate QueriesInRange(xp: map<int, seq<Point>>, n: nat) {
    forall x :: x in xp ==> forall q :: q in xp[x] ==> q.id < n
  }

  /** Some query filed under one of the abscissas in keys, with the given
      id, lies on one of the vertical edges filed under the same abscissa. */
  ghost predicate HitIn(xp: map<int, seq<Point>>, ve: map<int, seq<Segment>>, keys: set<int>, id: int) {
    exists x :: x in keys && x in xp && QueryHit(Lookup(ve, x), xp[x], id)
  }

  lemma HitInStep(xp: map<int, seq<Point>>, ve: map<int, seq<Segment>>, keys: set<int>, x: int, id: int)
    requires x in xp
    ensures HitIn(xp, ve, keys + {x}, id) <==> HitIn(xp, ve, keys, id) || QueryHit(Lookup(ve, x), xp[x], id)
  {
    if HitIn(xp, ve, keys + {x}, id) && !QueryHit(Lookup(ve, x), xp[x], id) {
      var y :| y in keys + {x} && y in xp && QueryHit(Lookup(ve, y), xp[y], id);
      assert y != x;
    }
  }

  /** Marking the queries hit in one more group keeps the answers equal to
      BORDER exactly where some group handled so far hits the query. */
  lemma GroupStep(xp: map<int, seq<Point>>, ve: map<int, seq<Segment>>, done: set<int>, x: int,
                  a0: seq<State>, a: seq<State>, a1: seq<State>)
    requires x in xp && |a| == |a0| && |a1| == |a|
    requires forall id :: 0 <= id < |a| ==> a[id] == if HitIn(xp, ve, done, id) then Border else a0[id]
    requires forall id :: 0 <= id < |a| ==> a1[id] == if QueryHit(Lookup(ve, x), xp[x], id) then Border else a[id]
    ensures forall id :: 0 <= id < |a1| ==> a1[id] == if HitIn(xp, ve, done + {x}, id) then Border else a0[id]
  {
    forall id | 0 <= id < |a1| ensures a1[id] == if HitIn(xp, ve, done + {x}, id) then Border else a0[id] {
      HitInStep(xp, ve, done, x, id);
    }
  }

  /** A set of abscissas is empty exactly when nothing is in it. */
  lemma EmptyIff(s: set<int>)
    ensures s == {} <==> forall z :: z !in s
  {
    if forall z :: z !in s {
      assert s == {};
    }
  }

  lemma Least(s: set<int>, x: int)
    requires x in s && forall y :: y in s ==> x <= y
    ensures exists x :: x in s && forall y :: y in s ==> x <= y
  {
  }

  /** A set whose only element is z has z as its least element. */
  lemma LeastOfOne(s: set<int>, z: int)
    requires z in s && s - {z} == {}
    ensures exists x :: x in s && forall y :: y in s ==> x <= y
  {
    forall y | y in s ensures z <= y {
      assert y !in s - {z};
    }
    Least(s, z);
  }

  /** The least of z and the least element m of the rest is least in s. */
  lemma LeastOfRest(s: set<int>, z: int, m: int)
    requires z in s && m in s - {z} && forall y :: y in s - {z} ==> m <= y
    ensures exists x :: x in s && forall y :: y in s ==> x <= y
  {
    var x := if z < m then z else m;
    forall y | y in s ensures x <= y {
      if y != z { assert y in s - {z}; }
    }
    Least(s, x);
  }

  /** A non-empty set of abscissas has a smallest element. */
  lemma {:induction false} HasLeast(s: set<int>)
    requires s != {}
    ensures exists x :: x in s && forall y :: y in s ==> x <= y
    decreases |s|
  {
    EmptyIff(s);
    var z :| z in s;
    if s - {z} == {} {
      LeastOfOne(s, z);
    } else {
      HasLeast(s - {z});
      var m :| m in s - {z} && forall y :: y in s - {z} ==> m <= y;
      LeastOfRest(s, z, m);
    }
  }


  /** The edge events of a polygon's edges are OPENs and CLOSEs that carry
      edge indices. */
  lemma EdgeEventIds(pts: seq<Point>)
    ensures forall e :: e in EdgeEvents(EdgesOf(pts), PositionsOf(pts)) ==> e.kind != Query && 0 <= e.id < |pts|
  {
    var edges, pos := EdgesOf(pts), PositionsOf(pts);
    EdgeEventsOrigin(edges, pos, |edges|);
    forall e | e in EdgeEvents(edges, pos) ensures 0 <= e.id < |pts| {
      var i :| 0 <= i < |edges| && pos[i] != Vertical && (e == OpenOf(edges[i]) || e == CloseOf(edges[i]));
      assert e.id == edges[i].id == i;
    }
  }

  lemma QueryEventIds(qs: seq<Point>, n: nat)
    requires forall q :: q in qs ==> q.id < n
    ensures forall e :: e in QueryEvents(qs) ==> e.kind == Query && 0 <= e.id < n
  {
    forall e | e in QueryEvents(qs) ensures e.kind == Query && 0 <= e.id < n {
      var i :| 0 <= i < |qs| && QueryEvents(qs)[i] == e;
      assert qs[i] in qs;
    }
  }

  /** Sorting the edge events of a polygon's edges together with the query
      events of queries whose ids are below n gives events whose ids index
      the edges and an answer vector of length n, as run requires. */
  lemma PipelineIdsInRange(pts: seq<Point>, qs: seq<Point>, ev: seq<Event>, n: nat)
    requires forall q :: q in qs ==> q.id < n
    requires multiset(ev) == multiset(EdgeEvents(EdgesOf(pts), PositionsOf(pts)) + QueryEvents(qs))
    ensures IdsInRange(ev, EdgesOf(pts), PositionsOf(pts), Resize([], n))
  {
    var edges, pos := EdgesOf(pts), PositionsOf(pts);
    var all := EdgeEvents(edges, pos) + QueryEvents(qs);
    EdgeEventIds(pts);
    QueryEventIds(qs, n);
    forall k | 0 <= k < |ev|
      ensures ev[k].kind != Query ==> 0 <= ev[k].id < |edges|
      ensures ev[k].kind == Query ==> 0 <= ev[k].id < n
    {
      assert ev[k] in multiset(all);
      assert ev[k] in all;
    }
  }

  /** The edges and positions setEdges derives carry the indices the sweep
      relies on. */
  lemma PolygonWellIndexed(pts: seq<Point>)
    ensures WellIndexed(EdgesOf(pts), PositionsOf(pts))
  {
    PositionsMatchEdges(pts);
    EdgesFormCycle(pts);
  }

  /** In run, over the events setEvents sorts from a polygon with no two
      edges running along each other: the OPEN and CLOSE events index the
      edges, and when the sweep meets a query with no CLOSE having come
      back empty, the active set holds exactly once each non-vertical edge
      of the polygon that opens strictly left of the query and closes at or
      right of it, and no other edge. */
  lemma PolygonActiveAtQuery(pts: seq<Point>, qs: seq<Point>, ev: seq<Event>, k: nat)
    requires Sorted(ev, BySweep)
    requires multiset(ev) == multiset(EdgeEvents(EdgesOf(pts), PositionsOf(pts)) + QueryEvents(qs))
    requires Separated(EdgesOf(pts))
    requires k < |ev| && ev[k].kind == Query
    ensures EdgeIdsValid(ev, EdgesOf(pts))
    ensures ActiveAfter(ev, EdgesOf(pts), k).Some? ==>
      forall i :: 0 <= i < |pts| ==>
        var e := EdgesOf(pts)[i];
        multiset(ActiveAfter(ev, EdgesOf(pts), k).value)[e] ==
          if e.left.x != e.right.x && MinX(e).x < ev[k].p.x <= MaxX(e).x then 1 else 0
    ensures ActiveAfter(ev, EdgesOf(pts), k).Some? ==>
      forall e :: e in ActiveAfter(ev, EdgesOf(pts), k).value ==>
        e in EdgesOf(pts) && e.left.x != e.right.x && MinX(e).x < ev[k].p.x <= MaxX(e).x
  {
    var edges, pos := EdgesOf(pts), PositionsOf(pts);
    PolygonWellIndexed(pts);
    forall j | 0 <= j < |ev| && ev[j].kind != Query
      ensures 0 <= ev[j].id < |edges|
    {
      EventOrigin(ev, edges, pos, qs, j);
    }
    if ActiveAfter(ev, edges, k).Some? {
      ActiveAtQuery(ev, edges, pos, qs, k);
    }
  }

  /** Looking an abscissa up files it, with the list it already had. */
  lemma LookupFiles(ve0: map<int, seq<Segment>>, ve: map<int, seq<Segment>>, done: set<int>, x: int)
    requires forall y :: (y in ve <==> y in ve0 || y in done) && Lookup(ve, y) == Lookup(ve0, y)
    ensures forall y :: (y in ve[x := Lookup(ve, x)] <==> y in ve0 || y in done + {x}) && Lookup(ve[x := Lookup(ve, x)], y) == Lookup(ve0, y)
  {
  }

  /** Moving one abscissa from the keys still to do to those done keeps
      them a partition of all keys. */
  lemma MoveKey(todo: set<int>, done: set<int>, keys: set<int>, x: int)
    requires todo + done == keys && todo !! done && x in todo
    ensures (todo - {x}) + (done + {x}) == keys && (todo - {x}) !! (done + {x})
  {
  }

  /** The loop of answer_for_vert, over the abscissas that hold queries in
      increasing order. */
  method SweepGroups(xp: map<int, seq<Point>>, ve0: map<int, seq<Segment>>, a0: seq<State>)
    returns (a: seq<State>, ve: map<int, seq<Segment>>)
    requires QueriesInRange(xp, |a0|)
    ensures |a| == |a0|
    ensures forall id :: 0 <= id < |a| ==> a[id] == if HitIn(xp, ve0, xp.Keys, id) then Border else a0[id]
    ensures forall x :: (x in ve <==> x in ve0 || x in xp) && Lookup(ve, x) == Lookup(ve0, x)
  {
    a, ve := a0, ve0;
    var todo := xp.Keys;
    ghost var done: set<int> := {};
    while todo != {}
      invariant todo + done == xp.Keys && todo !! done
      invariant |a| == |a0|
      invariant forall id :: 0 <= id < |a| ==> a[id] == if HitIn(xp, ve0, done, id) then Border else a0[id]
      invariant forall x :: (x in ve <==> x in ve0 || x in done) && Lookup(ve, x) == Lookup(ve0, x)
      decreases |todo|
    {
      HasLeast(todo);
      var x :| x in todo && forall y :: y in todo ==> x <= y;
      LookupFiles(ve0, ve, done, x);
      ve := ve[x := Lookup(ve, x)];
      var a1 := SweepGroup(Lookup(ve0, x), xp[x], a);
      GroupStep(xp, ve0, done, x, a0, a, a1);
      a := a1;
      MoveKey(todo, done, xp.Keys, x);
      todo := todo - {x};
      done := done + {x};
    }
  }

  /** Appending t to a sequence that extends s0 by u extends s0 by u and t. */
  lemma AppendStep<T>(s: seq<T>, s0: seq<T>, u: seq<T>, t: seq<T>)
    requires s == s0 + u
    ensures s + t == s0 + (u + t)
  {
  }

  /** The two loops of setEvents: after ev0, an OPEN and a CLOSE for every
      edge that is not VERTICAL, in edge order, then a QUERY per query. */
  method CollectEvents(ev0: seq<Event>, es: seq<Segment>, pos: seq<Position>, qs: seq<Point>) returns (ev: seq<Event>)
    requires |es| <= |pos|
    ensures ev == ev0 + EdgeEvents(es, pos) + QueryEvents(qs)
  {
    ev := ev0;
    var id := 0;
    while id < |es|
      invariant 0 <= id <= |es|
      invariant ev == ev0 + EdgeEventsUpTo(es, pos, id)
    {
      var e := es[id];
      EdgeEventsStep(es, pos, id);
      if pos[id] != Vertical {
        AppendStep(ev, ev0, EdgeEventsUpTo(es, pos, id), [OpenOf(e), CloseOf(e)]);
        ev := ev + [Event(e.id, Open, MinX(e)), Event(e.id, Close, MaxX(e))];
      }
      id := id + 1;
    }
    ghost var ev1 := ev;
    var j := 0;
    while j < |qs|
      invariant 0 <= j <= |qs|
      invariant ev == ev1 + QueryEventsUpTo(qs, j)
    {
      AppendStep(ev, ev1, QueryEventsUpTo(qs, j), [Event(qs[j].id, Query, qs[j])]);
      ev := ev + [Event(qs[j].id, Query, qs[j])];
      j := j + 1;
    }
  }

  /** One pass of setEdges' loop: edge i, its position, and the edge filed
      under its abscissa when it is vertical. */
  method AddEdge(pts: seq<Point>, i: nat, es: seq<Segment>, pos: seq<Position>, vert: map<int, seq<Segment>>,
                 ghost es0: seq<Segment>, ghost pos0: seq<Position>, ghost vert0: map<int, seq<Segment>>)
    returns (es1: seq<Segment>, pos1: seq<Position>, vert1: map<int, seq<Segment>>)
    requires i < |pts|
    requires vert == IndexUpTo(vert0, pts, i)
    requires es == es0 + EdgesUpTo(pts, i)
    requires pos == pos0 + PositionsUpTo(pts, i)
    ensures vert1 == IndexUpTo(vert0, pts, i + 1)
    ensures es1 == es0 + EdgesUpTo(pts, i + 1)
    ensures pos1 == pos0 + PositionsUpTo(pts, i + 1)
  {
    var n := |pts|;
    var e := Segment(pts[i], pts[(i + 1) % n], i, None);
    assert e == EdgeAt(pts, i);
    AppendStep(es, es0, EdgesUpTo(pts, i), [e]);
    es1 := es + [e];
    vert1 := vert;
    if pts[i].x == pts[(i + 1) % n].x {
      vert1 := vert[pts[i].x := Lookup(vert, pts[i].x) + [e]];
    }
    assert PositionAt(pts, i) == Classify(e.left, e.right);
    AppendStep(pos, pos0, PositionsUpTo(pts, i), [PositionAt(pts, i)]);
    if e.left.x < e.right.x {
      pos1 := pos + [Down];
    } else if e.left.x == e.right.x {
      pos1 := pos + [Vertical];
    } else {
      pos1 := pos + [Up];
    }
  }

  class MultiBelongingAlgorithm {
    var points: seq<Point>
    var query: seq<Point>
    var ans: seq<State>
    var edges: seq<Segment>
    var isInside: seq<Position>
    var events: seq<Event>
    var vertices: multiset<Point>
    var pointsX: seq<Point>
    var xPoints: map<int, seq<Point>>
    var vertEdges: map<int, seq<Segment>>

    constructor ()
      ensures points == [] && query == [] && ans == [] && edges == [] && isInside == []
      ensures events == [] && vertices == multiset{} && pointsX == []
      ensures xPoints == map[] && vertEdges == map[]
    {
      points, query, ans, edges, isInside := [], [], [], [], [];
      events, vertices, pointsX := [], multiset{}, [];
      xPoints, vertEdges := map[], map[];
    }

    /** setOrder: reverses the vertices when their shoelace sum is positive,
        so that afterwards it never is. */
    method SetOrder()
      modifies this`points
      ensures points == if Shoelace(old(points)) > 0 then Reverse(old(points)) else old(points)
      ensures Shoelace(points) <= 0
    {
      var pts := points;
      var sq := 0;
      var n := |pts|;
      var i := 0;
      while i < n
        invariant 0 <= i <= n
        invariant sq == ShoelaceUpTo(pts, i)
      {
        var next := (i + 1) % n;
        assert next == if i + 1 < n then i + 1 else 0;
        sq := sq + Cross(pts[i], pts[next]);
        i := i + 1;
      }
      if sq > 0 {
        ShoelaceReverse(pts);
        points := ReverseInPlace(pts);
      }
    }

    /** setEdges: one edge per cyclic pair of vertices, its position, and
        the vertical edges filed under their abscissa. */
    method SetEdges()
      modifies this`edges, this`isInside, this`vertEdges
      ensures edges == old(edges) + EdgesOf(points)
      ensures isInside == old(isInside) + PositionsOf(points)
      ensures vertEdges == IndexUpTo(old(vertEdges), points, |points|)
      ensures IndexesVertical(vertEdges, old(vertEdges), EdgesOf(points))
    {
      var pts, es, pos, vert := points, edges, isInside, vertEdges;
      ghost var es0, pos0, vert0 := es, pos, vert;
      var n := |pts|;
      var i := 0;
      while i < n
        invariant 0 <= i <= n
        invariant vert == IndexUpTo(vert0, pts, i)
        invariant es == es0 + EdgesUpTo(pts, i)
        invariant pos == pos0 + PositionsUpTo(pts, i)
      {
        es, pos, vert := AddEdge(pts, i, es, pos, vert, es0, pos0, vert0);
        i := i + 1;
      }
      IndexUpToIndexes(vert0, pts, n);
      edges, isInside, vertEdges := es, pos, vert;
    }

    /** setEvents: an OPEN at the smaller-x end and a CLOSE at the larger-x
        end of every edge that is not VERTICAL, a QUERY per query, all
        sorted by x and then by type. */
    method SetEvents()
      requires |edges| <= |isInside|
      modifies this`events
      ensures events == SortBy(old(events) + EdgeEvents(edges, isInside) + QueryEvents(query), BySweep)
      ensures Sorted(events, BySweep)
      ensures multiset(events) == multiset(old(events) + EdgeEvents(edges, isInside) + QueryEvents(query))
    {
      var ev := CollectEvents(events, edges, isInside, query);
      events := SortBy(ev, BySweep);
    }

    /** reserve_query: the answers are resized to size, new ones OUTSIDE. */
    method ReserveQuery(size: nat)
      modifies this`ans
      ensures ans == Resize(old(ans), size)
    {
      ans := Resize(ans, size);
    }

    /** push_back: a polygon vertex, stored in order and in the vertex set. */
    method PushBack(p: Point)
      modifies this`vertices, this`points
      ensures points == old(points) + [p]
      ensures vertices == old(vertices) + multiset{p}
      ensures old(vertices) == multiset(old(points)) ==> vertices == multiset(points)
    {
      vertices := vertices + multiset{p};
      points := points + [p];
    }

    /** push_query: a query on a vertex is BORDER at once; every query is
        stored in order and filed under its abscissa. */
    method PushQuery(p: Point)
      requires HasVertexAt(vertices, p) ==> p.id < |ans|
      modifies this`ans, this`query, this`xPoints
      ensures ans == if HasVertexAt(vertices, p) then old(ans)[p.id := Border] else old(ans)
      ensures query == old(query) + [p]
      ensures xPoints == old(xPoints)[p.x := Lookup(old(xPoints), p.x) + [p]]
      ensures FiledByX(old(xPoints)) ==> FiledByX(xPoints)
      ensures QueriesInRange(old(xPoints), |ans|) && p.id < |ans| ==> QueriesInRange(xPoints, |ans|)
    {
      if HasVertexAt(vertices, p) {
        ans := ans[p.id := Border];
      }
      query := query + [p];
      xPoints := xPoints[p.x := Lookup(xPoints, p.x) + [p]];
    }

    /** clear: every container emptied. */
    method Clear()
      modifies this
      ensures points == [] && query == [] && ans == [] && edges == [] && isInside == []
      ensures events == [] && vertices == multiset{} && pointsX == []
      ensures xPoints == map[] && vertEdges == map[]
    {
      points, query, ans, edges, isInside := [], [], [], [], [];
      events, vertices, pointsX := [], multiset{}, [];
      xPoints, vertEdges := map[], map[];
    }

    /** answer_for_vert: for every abscissa with queries, in increasing
        order, the vertical pass over the vertical edges filed there.  A
        query becomes BORDER exactly when it lies on a vertical edge filed
        under its abscissa; looking the abscissa up files an empty list
        when there is none. */
    method AnswerForVert()
      requires QueriesInRange(xPoints, |ans|)
      modifies this`ans, this`vertEdges
      ensures |ans| == |old(ans)|
      ensures forall id :: 0 <= id < |ans| ==>
        ans[id] == if HitIn(xPoints, old(vertEdges), xPoints.Keys, id) then Border else old(ans)[id]
      ensures forall x :: (x in vertEdges <==> x in old(vertEdges) || x in xPoints) && Lookup(vertEdges, x) == Lookup(old(vertEdges), x)
    {
      ans, vertEdges := SweepGroups(xPoints, vertEdges, ans);
    }

    /** run: the general sweep over the sorted events.  It reports false,
        and stops, when a CLOSE finds no active edge equivalent to its own. */
    method Run() returns (ok: bool)
      requires IdsInRange(events, edges, isInside, ans)
      modifies this`ans
      ensures ok <==> ActiveAfter(events, edges, |events|).Some?
      ensures ans == AnswersAfter(events, edges, isInside, old(ans), |events|)
      ensures |ans| == |old(ans)|
      ensures forall id :: 0 <= id < |ans| ==> AtMost(old(ans)[id], ans[id])
      ensures forall id :: 0 <= id < |ans| ==> ans[id] == old(ans)[id] || ans[id] == Inside || ans[id] == Border
    {
      ok, ans := Sweep(events, edges, isInside, ans);
    }
  }
}
