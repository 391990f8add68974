/** What the active set of the general sweep holds when the sweep meets a
    query.  The events are the edge events and the query events in sweep
    order.  When no two edges that overlap in x along a stretch are
    equivalent under the comparator, a CLOSE whose find returns an element
    removes its own edge.  At a query reached with no CLOSE coming back
    empty, the active edges are then exactly the non-vertical edges that
    open strictly left of the query and close at or right of it: at equal x
    a query precedes both CLOSE and OPEN.  That no CLOSE comes back empty is
    not implied by separation alone: the last lemmas give separated edges
    on which find misses an active edge. */
module SweepInvariant {
  import opened Geometry
  import opened Events
  import opened GeneralSweep

  /** Edge i carries id i, and its position is VERTICAL exactly when it is
      vertical. */
  predicate WellIndexed(edges: seq<Segment>, pos: seq<Position>) {
    |edges| == |pos| &&
    (forall i :: 0 <= i < |edges| ==> edges[i].id == i) &&
    (forall i :: 0 <= i < |edges| ==> (pos[i] == Vertical <==> edges[i].left.x == edges[i].right.x))
  }

  /** The x-ranges of f and g share a stretch of positive length. */
  predicate Overlap(f: Segment, g: Segment) {
    Max(MinX(f).x, MinX(g).x) < Min(MaxX(f).x, MaxX(g).x)
  }

  /** f and g are not equivalent under the comparator where their x-ranges
      overlap along a stretch. */
  predicate Apart(f: Segment, g: Segment) {
    Overlap(f, g) ==> Below(f, g) || Below(g, f)
  }

  /** No two distinct edges run along each other. */
  predicate Separated(edges: seq<Segment>) {
    forall i, j {:trigger Apart(edges[i], edges[j])} :: 0 <= i < |edges| && 0 <= j < |edges| && i != j ==> Apart(edges[i], edges[j])
  }

  /** The events run works through: the edge events and the query events,
      sorted by the sweep order. */
  predicate SweepEvents(ev: seq<Event>, edges: seq<Segment>, pos: seq<Position>, qs: seq<Point>) {
    WellIndexed(edges, pos) &&
    Sorted(ev, BySweep) &&
    multiset(ev) == multiset(EdgeEvents(edges, pos) + QueryEvents(qs))
  }

  /** The events of type t for edge i among the first k events. */
  function Seen(ev: seq<Event>, k: nat, t: EventType, i: int): nat
    requires k <= |ev|
  {
    Count(ev[..k], OfEdge(t, i))
  }

  /** Every edge of the active set a is counted once per OPEN of it and
      uncounted once per CLOSE of it among the first k events. */
  ghost predicate Tally(ev: seq<Event>, edges: seq<Segment>, k: nat, a: seq<Segment>)
    requires k <= |ev|
  {
    forall i :: 0 <= i < |edges| ==> multiset(a)[edges[i]] + Seen(ev, k, Close, i) == Seen(ev, k, Open, i)
  }

  // ---------------------------------------------------------------------
  // Where the events of one edge are

  /** The OPEN and CLOSE of edge e hold one event of each type for e's id. */
  lemma PairCount(e: Segment, t: EventType, i: int)
    requires t != Query
    ensures Count([OpenOf(e), CloseOf(e)], OfEdge(t, i)) == if e.id == i then 1 else 0
  {
    var pair := [OpenOf(e), CloseOf(e)];
    assert pair[..1] == [OpenOf(e)];
    assert pair[..1][..0] == [];
  }

  /** The edge events contain one OPEN and one CLOSE of every non-vertical
      edge, and none of any other. */
  lemma {:induction false} EdgeEventsCount(edges: seq<Segment>, pos: seq<Position>, k: nat, t: EventType, i: int)
    requires k <= |edges| <= |pos| && t != Query
    requires forall j :: 0 <= j < |edges| ==> edges[j].id == j
    ensures Count(EdgeEventsUpTo(edges, pos, k), OfEdge(t, i)) == if 0 <= i < k && pos[i] != Vertical then 1 else 0
  {
    if k > 0 {
      var prev := EdgeEventsUpTo(edges, pos, k - 1);
      EdgeEventsCount(edges, pos, k - 1, t, i);
      EdgeEventsStep(edges, pos, k - 1);
      assert edges[k - 1].id == k - 1;
      if pos[k - 1] != Vertical {
        var pair := [OpenOf(edges[k - 1]), CloseOf(edges[k - 1])];
        assert EdgeEventsUpTo(edges, pos, k) == prev + pair;
        CountAppend(prev, pair, OfEdge(t, i));
        PairCount(edges[k - 1], t, i);
      } else {
        assert EdgeEventsUpTo(edges, pos, k) == prev;
      }
    }
  }

  /** Among all the events, edge i has one OPEN and one CLOSE when it is
      not vertical, and none otherwise. */
  lemma TotalCount(ev: seq<Event>, edges: seq<Segment>, pos: seq<Position>, qs: seq<Point>, t: EventType, i: int)
    requires SweepEvents(ev, edges, pos, qs) && t != Query
    ensures Count(ev, OfEdge(t, i)) == if 0 <= i < |edges| && pos[i] != Vertical then 1 else 0
  {
    var ee, qe, f := EdgeEvents(edges, pos), QueryEvents(qs), OfEdge(t, i);
    CountPermutation(ev, ee + qe, f);
    CountAppend(ee, qe, f);
    EdgeEventsCount(edges, pos, |edges|, t, i);
    QueryEventsUncounted(qs, f);
    assert Count(ev, f) == Count(ee, f) + Count(qe, f);
  }

  /** No query event is the OPEN or CLOSE of an edge. */
  lemma QueryEventsUncounted(qs: seq<Point>, f: Filter)
    requires f.OfEdge? && f.edgeKind != Query
    ensures Count(QueryEvents(qs), f) == 0
  {
    var qe := QueryEvents(qs);
    QueryEventsAreQueries(qs);
    forall j | 0 <= j < |qe|
      ensures !Holds(f, qe[j])
    {
      assert qe[j] in qe;
    }
    CountNone(qe, f);
  }

  lemma QueryEventsAreQueries(qs: seq<Point>)
    ensures forall e :: e in QueryEvents(qs) ==> e.kind == Query
  {
  }

  /** Every OPEN or CLOSE is the event of a non-vertical edge, at its
      smaller-x or larger-x end. */
  lemma EventOrigin(ev: seq<Event>, edges: seq<Segment>, pos: seq<Position>, qs: seq<Point>, j: nat)
    requires SweepEvents(ev, edges, pos, qs) && j < |ev| && ev[j].kind != Query
    ensures 0 <= ev[j].id < |edges| && pos[ev[j].id] != Vertical
    ensures ev[j] == if ev[j].kind == Open then OpenOf(edges[ev[j].id]) else CloseOf(edges[ev[j].id])
  {
    var ee, qe := EdgeEvents(edges, pos), QueryEvents(qs);
    assert ev[j] in multiset(ev);
    assert ev[j] in ee + qe;
    QueryEventsAreQueries(qs);
    EdgeEventsOrigin(edges, pos, |edges|);
    var i :| 0 <= i < |edges| && pos[i] != Vertical && (ev[j] == OpenOf(edges[i]) || ev[j] == CloseOf(edges[i]));
  }

  /** The events of type t for edge i in a prefix are at most all of them. */
  lemma SeenAtMost(ev: seq<Event>, k: nat, t: EventType, i: int)
    requires k <= |ev|
    ensures Seen(ev, k, t, i) + Count(ev[k..], OfEdge(t, i)) == Count(ev, OfEdge(t, i))
  {
    assert ev == ev[..k] + ev[k..];
    CountAppend(ev[..k], ev[k..], OfEdge(t, i));
  }

  /** An edge event before a query lies strictly left of it. */
  lemma BeforeQuery(ev: seq<Event>, edges: seq<Segment>, pos: seq<Position>, qs: seq<Point>, j: nat, k: nat)
    requires SweepEvents(ev, edges, pos, qs)
    requires j < k < |ev| && ev[k].kind == Query && ev[j].kind != Query
    ensures 0 <= ev[j].id < |edges|
    ensures ev[j].kind == Open ==> MinX(edges[ev[j].id]).x < ev[k].p.x
    ensures ev[j].kind == Close ==> MaxX(edges[ev[j].id]).x < ev[k].p.x
  {
    EventOrigin(ev, edges, pos, qs, j);
    assert KeyLe(KeyOf(BySweep, ev[j]), KeyOf(BySweep, ev[k]));
  }

  /** An edge event after a query lies at or right of it. */
  lemma AfterQuery(ev: seq<Event>, edges: seq<Segment>, pos: seq<Position>, qs: seq<Point>, k: nat, j: nat)
    requires SweepEvents(ev, edges, pos, qs)
    requires k < j < |ev| && ev[k].kind == Query && ev[j].kind != Query
    ensures 0 <= ev[j].id < |edges|
    ensures ev[j].kind == Open ==> ev[k].p.x <= MinX(edges[ev[j].id]).x
    ensures ev[j].kind == Close ==> ev[k].p.x <= MaxX(edges[ev[j].id]).x
  {
    EventOrigin(ev, edges, pos, qs, j);
    assert KeyLe(KeyOf(BySweep, ev[k]), KeyOf(BySweep, ev[j]));
  }

  /** Before a query, a non-vertical edge has been opened exactly when its
      smaller-x end lies strictly left of the query. */
  lemma OpenedAtQuery(ev: seq<Event>, edges: seq<Segment>, pos: seq<Position>, qs: seq<Point>, k: nat, i: nat)
    requires SweepEvents(ev, edges, pos, qs)
    requires k < |ev| && ev[k].kind == Query && i < |edges| && pos[i] != Vertical
    ensures Seen(ev, k, Open, i) == if MinX(edges[i]).x < ev[k].p.x then 1 else 0
  {
    var f, x := OfEdge(Open, i), ev[k].p.x;
    TotalCount(ev, edges, pos, qs, Open, i);
    SeenAtMost(ev, k, Open, i);
    forall j | 0 <= j < k
      ensures Holds(f, ev[..k][j]) ==> MinX(edges[i]).x < x
    {
      if Holds(f, ev[j]) {
        BeforeQuery(ev, edges, pos, qs, j, k);
      }
    }
    forall j | 0 <= j < |ev[k..]|
      ensures Holds(f, ev[k..][j]) ==> x <= MinX(edges[i]).x
    {
      if Holds(f, ev[k + j]) {
        AfterQuery(ev, edges, pos, qs, k, k + j);
      }
    }
    if MinX(edges[i]).x < x {
      CountNone(ev[k..], f);
    } else {
      CountNone(ev[..k], f);
    }
  }

  /** Before a query, a non-vertical edge has been closed exactly when its
      larger-x end lies strictly left of the query. */
  lemma ClosedAtQuery(ev: seq<Event>, edges: seq<Segment>, pos: seq<Position>, qs: seq<Point>, k: nat, i: nat)
    requires SweepEvents(ev, edges, pos, qs)
    requires k < |ev| && ev[k].kind == Query && i < |edges| && pos[i] != Vertical
    ensures Seen(ev, k, Close, i) == if MaxX(edges[i]).x < ev[k].p.x then 1 else 0
  {
    var f, x := OfEdge(Close, i), ev[k].p.x;
    TotalCount(ev, edges, pos, qs, Close, i);
    SeenAtMost(ev, k, Close, i);
    forall j | 0 <= j < k
      ensures Holds(f, ev[..k][j]) ==> MaxX(edges[i]).x < x
    {
      if Holds(f, ev[j]) {
        BeforeQuery(ev, edges, pos, qs, j, k);
      }
    }
    forall j | 0 <= j < |ev[k..]|
      ensures Holds(f, ev[k..][j]) ==> x <= MaxX(edges[i]).x
    {
      if Holds(f, ev[k + j]) {
        AfterQuery(ev, edges, pos, qs, k, k + j);
      }
    }
    if MaxX(edges[i]).x < x {
      CountNone(ev[k..], f);
    } else {
      CountNone(ev[..k], f);
    }
  }

  /** An OPEN of edge i before a CLOSE lies strictly left of it. */
  lemma OpenedBefore(ev: seq<Event>, edges: seq<Segment>, pos: seq<Position>, qs: seq<Point>, m: nat, i: int)
    requires SweepEvents(ev, edges, pos, qs)
    requires m < |ev| && ev[m].kind == Close && Seen(ev, m, Open, i) > 0
    ensures 0 <= i < |edges| && MinX(edges[i]).x < ev[m].p.x
  {
    CountPositive(ev[..m], OfEdge(Open, i));
    var j :| 0 <= j < m && Holds(OfEdge(Open, i), ev[..m][j]);
    assert ev[..m][j] == ev[j];
    EventOrigin(ev, edges, pos, qs, j);
    assert KeyLe(KeyOf(BySweep, ev[j]), KeyOf(BySweep, ev[m]));
  }

  /** A CLOSE of edge i at or after another CLOSE is that CLOSE itself or
      lies at or right of it. */
  lemma ClosedAfter(ev: seq<Event>, edges: seq<Segment>, pos: seq<Position>, qs: seq<Point>, m: nat, i: int)
    requires SweepEvents(ev, edges, pos, qs)
    requires m < |ev| && ev[m].kind == Close && Count(ev[m..], OfEdge(Close, i)) > 0
    ensures i == ev[m].id || (0 <= i < |edges| && ev[m].p.x <= MaxX(edges[i]).x)
  {
    CountPositive(ev[m..], OfEdge(Close, i));
    var j :| 0 <= j < |ev[m..]| && Holds(OfEdge(Close, i), ev[m..][j]);
    assert ev[m..][j] == ev[m + j];
    if j > 0 {
      EventOrigin(ev, edges, pos, qs, m + j);
      assert KeyLe(KeyOf(BySweep, ev[m]), KeyOf(BySweep, ev[m + j]));
    }
  }

  /** At a CLOSE, an edge opened and not yet closed is the closing edge
      itself or spans a stretch ending at the CLOSE's abscissa. */
  lemma OpenAtClose(ev: seq<Event>, edges: seq<Segment>, pos: seq<Position>, qs: seq<Point>, m: nat, i: nat)
    requires SweepEvents(ev, edges, pos, qs)
    requires m < |ev| && ev[m].kind == Close && i < |edges|
    requires Seen(ev, m, Close, i) < Seen(ev, m, Open, i)
    ensures i == ev[m].id || MinX(edges[i]).x < ev[m].p.x <= MaxX(edges[i]).x
  {
    TotalCount(ev, edges, pos, qs, Open, i);
    TotalCount(ev, edges, pos, qs, Close, i);
    SeenAtMost(ev, m, Open, i);
    SeenAtMost(ev, m, Close, i);
    OpenedBefore(ev, edges, pos, qs, m, i);
    ClosedAfter(ev, edges, pos, qs, m, i);
  }

  /** The element find returns at a CLOSE is the closing edge itself. */
  lemma CloseFindsOwnEdge(ev: seq<Event>, edges: seq<Segment>, pos: seq<Position>, qs: seq<Point>,
                          m: nat, a: seq<Segment>, j: nat)
    requires SweepEvents(ev, edges, pos, qs) && Separated(edges)
    requires m < |ev| && ev[m].kind == Close && 0 <= ev[m].id < |edges|
    requires Tally(ev, edges, m, a) && forall e :: e in a ==> e in edges
    requires j < |a| && !Below(a[j], edges[ev[m].id]) && !Below(edges[ev[m].id], a[j])
    ensures a[j] == edges[ev[m].id]
  {
    var d := ev[m].id;
    assert a[j] in edges;
    var i :| 0 <= i < |edges| && edges[i] == a[j];
    assert multiset(a)[edges[i]] > 0;
    OpenAtClose(ev, edges, pos, qs, m, i);
    EventOrigin(ev, edges, pos, qs, m);
    OpenBeforeClose(edges[d]);
    assert Apart(edges[i], edges[d]) || i == d;
  }

  // ---------------------------------------------------------------------
  // The tally kept by the active set

  /** The change one event makes to the number of copies of edge i. */
  function Delta(e: Event, i: int): int {
    if e.id != i then 0 else if e.kind == Open then 1 else if e.kind == Close then -1 else 0
  }

  /** One step of the active set adds a copy of the opened edge or removes
      one copy of the closed edge. */
  lemma StepCopies(ev: seq<Event>, edges: seq<Segment>, pos: seq<Position>, qs: seq<Point>, m: nat, a: seq<Segment>)
    requires SweepEvents(ev, edges, pos, qs) && Separated(edges) && EdgeIdsValid(ev, edges)
    requires m < |ev| && Tally(ev, edges, m, a) && forall e :: e in a ==> e in edges
    requires ActiveStep(a, ev[m], edges).Some?
    ensures forall i :: 0 <= i < |edges| ==>
      multiset(ActiveStep(a, ev[m], edges).value)[edges[i]] == multiset(a)[edges[i]] + Delta(ev[m], i)
  {
    var a1 := ActiveStep(a, ev[m], edges).value;
    var d := ev[m].id;
    if ev[m].kind == Close {
      var j := Find(a, edges[d]).value;
      CloseFindsOwnEdge(ev, edges, pos, qs, m, a, j);
      assert multiset(a1) == multiset(a) - multiset{edges[d]};
      assert multiset(a)[edges[d]] > 0;
    }
    forall i | 0 <= i < |edges|
      ensures multiset(a1)[edges[i]] == multiset(a)[edges[i]] + Delta(ev[m], i)
    {
      assert ev[m].kind != Query ==> (edges[i] == edges[d] <==> i == d);
    }
  }

  /** The tally of edge i after one more event. */
  lemma TallyAt(ev: seq<Event>, k: nat, i: int, before: int, after: int)
    requires 0 < k <= |ev|
    requires before + Seen(ev, k - 1, Close, i) == Seen(ev, k - 1, Open, i)
    requires after == before + Delta(ev[k - 1], i)
    ensures after + Seen(ev, k, Close, i) == Seen(ev, k, Open, i)
  {
    var m := k - 1;
    assert ev[..k] == ev[..m + 1];
    CountStep(ev, m, OfEdge(Open, i));
    CountStep(ev, m, OfEdge(Close, i));
  }

  /** One event keeps the tally. */
  lemma TallyStep(ev: seq<Event>, edges: seq<Segment>, pos: seq<Position>, qs: seq<Point>, k: nat, a: seq<Segment>)
    requires SweepEvents(ev, edges, pos, qs) && Separated(edges) && EdgeIdsValid(ev, edges)
    requires 0 < k <= |ev| && Tally(ev, edges, k - 1, a) && forall e :: e in a ==> e in edges
    requires ActiveStep(a, ev[k - 1], edges).Some?
    ensures Tally(ev, edges, k, ActiveStep(a, ev[k - 1], edges).value)
  {
    var a1 := ActiveStep(a, ev[k - 1], edges).value;
    StepCopies(ev, edges, pos, qs, k - 1, a);
    forall i | 0 <= i < |edges|
      ensures multiset(a1)[edges[i]] + Seen(ev, k, Close, i) == Seen(ev, k, Open, i)
    {
      TallyAt(ev, k, i, multiset(a)[edges[i]], multiset(a1)[edges[i]]);
    }
  }

  lemma ActiveUnfold(ev: seq<Event>, edges: seq<Segment>, k: nat, a: seq<Segment>)
    requires EdgeIdsValid(ev, edges) && 0 < k <= |ev| && ActiveAfter(ev, edges, k - 1) == Some(a)
    ensures ActiveAfter(ev, edges, k) == ActiveStep(a, ev[k - 1], edges)
  {
  }

  /** The tally after k events follows from the tally after k - 1. */
  lemma TallyNext(ev: seq<Event>, edges: seq<Segment>, pos: seq<Position>, qs: seq<Point>, k: nat)
    requires SweepEvents(ev, edges, pos, qs) && Separated(edges) && EdgeIdsValid(ev, edges)
    requires 0 < k <= |ev| && ActiveAfter(ev, edges, k).Some? && ActiveAfter(ev, edges, k - 1).Some?
    requires Tally(ev, edges, k - 1, ActiveAfter(ev, edges, k - 1).value)
    ensures Tally(ev, edges, k, ActiveAfter(ev, edges, k).value)
  {
    var a := ActiveAfter(ev, edges, k - 1).value;
    TallyStep(ev, edges, pos, qs, k, a);
    ActiveUnfold(ev, edges, k, a);
  }

  /** Before any event the active set is empty and nothing has been seen. */
  lemma TallyStart(ev: seq<Event>, edges: seq<Segment>)
    requires EdgeIdsValid(ev, edges)
    ensures Tally(ev, edges, 0, ActiveAfter(ev, edges, 0).value)
  {
    assert ev[..0] == [];
  }

  /** Along the sweep, the active set keeps the tally. */
  lemma {:induction false} ActiveTally(ev: seq<Event>, edges: seq<Segment>, pos: seq<Position>, qs: seq<Point>, k: nat)
    requires SweepEvents(ev, edges, pos, qs) && Separated(edges) && EdgeIdsValid(ev, edges)
    requires k <= |ev| && ActiveAfter(ev, edges, k).Some?
    ensures Tally(ev, edges, k, ActiveAfter(ev, edges, k).value)
  {
    if k == 0 {
      TallyStart(ev, edges);
    } else {
      ActivePrefix(ev, edges, k);
      ActiveTally(ev, edges, pos, qs, k - 1);
      TallyNext(ev, edges, pos, qs, k);
    }
  }

  /** At a query reached with no CLOSE coming back empty (the active set is
      defined), the active set holds each non-vertical edge that opens
      strictly left of the query and closes at or right of it exactly once,
      and no other edge: so every active edge spans the query's abscissa. */
  lemma ActiveAtQuery(ev: seq<Event>, edges: seq<Segment>, pos: seq<Position>, qs: seq<Point>, k: nat)
    requires SweepEvents(ev, edges, pos, qs) && Separated(edges) && EdgeIdsValid(ev, edges)
    requires k < |ev| && ev[k].kind == Query && ActiveAfter(ev, edges, k).Some?
    ensures var a, x := ActiveAfter(ev, edges, k).value, ev[k].p.x;
      forall i :: 0 <= i < |edges| ==>
        multiset(a)[edges[i]] == if pos[i] != Vertical && MinX(edges[i]).x < x <= MaxX(edges[i]).x then 1 else 0
    ensures var a, x := ActiveAfter(ev, edges, k).value, ev[k].p.x;
      forall e :: e in a ==> e in edges && e.left.x != e.right.x && MinX(e).x < x <= MaxX(e).x
  {
    var a, x := ActiveAfter(ev, edges, k).value, ev[k].p.x;
    ActiveTally(ev, edges, pos, qs, k);
    forall i | 0 <= i < |edges|
      ensures multiset(a)[edges[i]] == if pos[i] != Vertical && MinX(edges[i]).x < x <= MaxX(edges[i]).x then 1 else 0
    {
      if pos[i] != Vertical {
        OpenedAtQuery(ev, edges, pos, qs, k, i);
        ClosedAtQuery(ev, edges, pos, qs, k, i);
        OpenBeforeClose(edges[i]);
      } else {
        TotalCount(ev, edges, pos, qs, Open, i);
        SeenAtMost(ev, k, Open, i);
      }
    }
    forall e | e in a
      ensures e in edges && e.left.x != e.right.x && MinX(e).x < x <= MaxX(e).x
    {
      var i :| 0 <= i < |edges| && edges[i] == e;
      assert multiset(a)[edges[i]] > 0;
    }
  }

  // ---------------------------------------------------------------------
  // Where sortedness is missing

  /** Three edges on which the comparator runs in a cycle.  U crosses T at
      (2.5, 5), inside both, so they are not edges of one simple polygon:
      they show only that separation alone does not make find succeed. */
  const CycleT := Segment(Point(0, 5, 0), Point(10, 5, 1), 0, None)
  const CycleU := Segment(Point(0, 0, 1), Point(6, 12, 2), 1, None)
  const CycleD := Segment(Point(4, 6, 2), Point(10, 6, 0), 2, None)

  /** U lies below T, T below D and D below U: the comparator is not a
      strict weak order on these edges. */
  lemma ComparatorCycle()
    ensures Below(CycleU, CycleT) && Below(CycleT, CycleD) && Below(CycleD, CycleU)
  {
    assert Y(CycleU, 0.0) == 0.0 && Y(CycleT, 0.0) == 5.0;
    assert Y(CycleT, 4.0) == 5.0 && Y(CycleD, 4.0) == 6.0;
    assert Y(CycleU, 4.0) == 8.0;
  }

  /** Yet no two of them are equivalent, so they are separated. */
  lemma CycleSeparated()
    ensures Separated([CycleT, CycleU, CycleD])
  {
    ComparatorCycle();
    var es := [CycleT, CycleU, CycleD];
    forall i, j | 0 <= i < 3 && 0 <= j < 3 && i != j
      ensures Apart(es[i], es[j])
    {
    }
  }

  /** Inserted in the order T, U, D by the linear upper bound, the edges are
      held as [D, U, T]; once U is erased, find misses T although T is still
      active, so the CLOSE of T comes back empty. */
  lemma CycleDefeatsFind()
    ensures InsertActive(InsertActive(InsertActive([], CycleT), CycleU), CycleD) == [CycleD, CycleU, CycleT]
    ensures CycleT in [CycleD, CycleT] && Find([CycleD, CycleT], CycleT).None?
  {
    ComparatorCycle();
    CycleInserts();
    CycleMisses();
  }

  lemma CycleMisses()
    requires Below(CycleT, CycleD)
    ensures Find([CycleD, CycleT], CycleT).None?
  {
    assert LowerBound([CycleD, CycleT], CycleT) == 0;
  }

  lemma CycleInserts()
    requires Below(CycleU, CycleT) && Below(CycleD, CycleU)
    ensures InsertActive([], CycleT) == [CycleT]
    ensures InsertActive([CycleT], CycleU) == [CycleU, CycleT]
    ensures InsertActive([CycleU, CycleT], CycleD) == [CycleD, CycleU, CycleT]
  {
    assert UpperBound([CycleT], CycleU) == 0;
    assert UpperBound([CycleU, CycleT], CycleD) == 0;
  }
}
