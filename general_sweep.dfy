/** The general sweep of the multi-belonging algorithm: the events run in
    x order over a set of active edges ordered by height, and every query
    looks up its position among them with a degenerate probe segment.  The
    ordered multiset of the source is a sequence kept in comparator order;
    its lower bound, upper bound and find are first-index searches. */
module GeneralSweep {
  import opened Geometry
  import opened Events

  function Max(a: int, b: int): int {
    if a < b then b else a
  }

  function Min(a: int, b: int): int {
    if b < a then b else a
  }

  /** The comparator of the active set: a is below b when, at the larger of
      their left ends, a is lower, or they meet there and a is lower at the
      smaller of their right ends. */
  predicate Below(a: Segment, b: Segment) {
    var x := Max(MinX(a).x, MinX(b).x) as real;
    var x1 := Min(MaxX(a).x, MaxX(b).x) as real;
    Y(a, x) < Y(b, x) || (Y(a, x) == Y(b, x) && Y(a, x1) < Y(b, x1))
  }

  /** The degenerate segment a query point is looked up with. */
  function Probe(p: Point): Segment {
    Segment(p, p, -1, None)
  }

  /** Edge e spans abscissa x. */
  predicate Spans(e: Segment, x: int) {
    MinX(e).x <= x <= MaxX(e).x
  }

  /** The height of e at the abscissa of p. */
  function HeightAt(e: Segment, p: Point): real {
    Y(e, p.x as real)
  }

  /** Against an edge spanning the query's abscissa, the comparator compares
      the edge's height there with the query's y. */
  lemma ProbeComparison(e: Segment, p: Point)
    requires Spans(e, p.x)
    ensures Below(e, Probe(p)) <==> HeightAt(e, p) < p.y as real
    ensures Below(Probe(p), e) <==> p.y as real < HeightAt(e, p)
  {
    assert Max(MinX(e).x, MinX(Probe(p)).x) == p.x;
    assert Min(MaxX(e).x, MaxX(Probe(p)).x) == p.x;
    assert Y(Probe(p), p.x as real) == p.y as real;
  }

  /** multiset::lower_bound: the first position whose element is not below e. */
  function LowerBound(s: seq<Segment>, e: Segment): (i: nat)
    ensures i <= |s|
    ensures forall j :: 0 <= j < i ==> Below(s[j], e)
    ensures i < |s| ==> !Below(s[i], e)
  {
    if s == [] || !Below(s[0], e) then 0 else 1 + LowerBound(s[1..], e)
  }

  /** multiset::upper_bound: the first position whose element is above e. */
  function UpperBound(s: seq<Segment>, e: Segment): (i: nat)
    ensures i <= |s|
    ensures forall j :: 0 <= j < i ==> !Below(e, s[j])
    ensures i < |s| ==> Below(e, s[i])
  {
    if s == [] || Below(e, s[0]) then 0 else 1 + UpperBound(s[1..], e)
  }

  /** multiset::insert: one more copy of e, after the elements it is not
      below; the other elements keep their order. */
  function InsertActive(s: seq<Segment>, e: Segment): (r: seq<Segment>)
    ensures multiset(r) == multiset(s) + multiset{e}
    ensures forall x :: x in r <==> x in s || x == e
    ensures var i := UpperBound(s, e); |r| == |s| + 1 && r[i] == e && r[..i] == s[..i] && r[i + 1..] == s[i..]
  {
    var i := UpperBound(s, e);
    assert s == s[..i] + s[i..];
    s[..i] + [e] + s[i..]
  }

  /** multiset::find: the lower bound of e when the element there is
      equivalent to e (neither is below the other), and nothing otherwise. */
  function Find(s: seq<Segment>, e: Segment): (r: Option<nat>)
    ensures r.Some? ==> r.value == LowerBound(s, e) && r.value < |s| && !Below(s[r.value], e) && !Below(e, s[r.value])
    ensures r.None? ==> LowerBound(s, e) == |s| || Below(e, s[LowerBound(s, e)])
  {
    var i := LowerBound(s, e);
    if i < |s| && !Below(e, s[i]) then Some(i) else None
  }

  /** multiset::erase at a position: exactly one element fewer, and the
      others keep their order. */
  function EraseAt(s: seq<Segment>, j: nat): (r: seq<Segment>)
    requires j < |s|
    ensures multiset(r) == multiset(s) - multiset{s[j]}
    ensures |r| == |s| - 1
    ensures forall x :: x in r ==> x in s
    ensures r[..j] == s[..j] && r[j..] == s[j + 1..]
  {
    assert s == s[..j] + [s[j]] + s[j + 1..];
    s[..j] + s[j + 1..]
  }

  // ---------------------------------------------------------------------
  // One query

  /** The answer for a query at p whose answer so far is cur: BORDER when
      the first active edge not below p passes through p; at least INSIDE
      when the edge just below that position runs UP; unchanged when no
      edge is active. */
  function QueryStep(active: seq<Segment>, p: Point, cur: State, isInside: seq<Position>): (r: State)
    requires forall e :: e in active ==> 0 <= e.id < |isInside|
    ensures active == [] ==> r == cur
    ensures AtMost(cur, r)
    ensures r == cur || r == Inside || r == Border
    ensures var i := LowerBound(active, Probe(p));
      active != [] ==> (r == Border <==> cur == Border || (i < |active| && HeightAt(active[i], p) == p.y as real))
    ensures var i := LowerBound(active, Probe(p));
      active != [] && 0 < i && isInside[active[i - 1].id] == Up ==> AtMost(Inside, r)
    ensures var i := LowerBound(active, Probe(p));
      r == Inside && cur != Inside ==> 0 < i && isInside[active[i - 1].id] == Up
  {
    if active == [] then cur
    else
      var i := LowerBound(active, Probe(p));
      var onEdge := if i < |active| && HeightAt(active[i], p) == p.y as real then Border else cur;
      if i > 0 && isInside[active[i - 1].id] == Up then MaxState(onEdge, Inside) else onEdge
  }

  /** Every active edge spans x and the edges are ordered by their heights
      at x. */
  predicate OrderedAt(s: seq<Segment>, x: int) {
    (forall j :: 0 <= j < |s| ==> Spans(s[j], x)) &&
    (forall i, j :: 0 <= i < j < |s| ==> Y(s[i], x as real) <= Y(s[j], x as real))
  }

  /** On an active set ordered at the query's abscissa, the probe's lower
      bound splits the edges into those strictly below the query and those
      at or above it, and the edge before it is the highest edge below. */
  lemma LowerBoundAtProbe(s: seq<Segment>, p: Point)
    requires OrderedAt(s, p.x)
    ensures var i := LowerBound(s, Probe(p));
      (forall j :: 0 <= j < i ==> HeightAt(s[j], p) < p.y as real) &&
      (forall j :: i <= j < |s| ==> HeightAt(s[j], p) >= p.y as real) &&
      (0 < i ==> forall j :: 0 <= j < |s| && HeightAt(s[j], p) < p.y as real ==> HeightAt(s[j], p) <= HeightAt(s[i - 1], p))
  {
    var i := LowerBound(s, Probe(p));
    forall j | 0 <= j < i ensures HeightAt(s[j], p) < p.y as real {
      ProbeComparison(s[j], p);
    }
    if i < |s| {
      ProbeComparison(s[i], p);
    }
    forall j | i <= j < |s| ensures HeightAt(s[j], p) >= p.y as real {
      assert j == i || HeightAt(s[i], p) <= HeightAt(s[j], p);
    }
    if 0 < i {
      forall j | 0 <= j < |s| && HeightAt(s[j], p) < p.y as real ensures HeightAt(s[j], p) <= HeightAt(s[i - 1], p) {
        assert j < i;
        assert j == i - 1 || HeightAt(s[j], p) <= HeightAt(s[i - 1], p);
      }
    }
  }

  /** On an ordered active set, a query becomes BORDER exactly when it was
      BORDER already or lies on one of the active edges. */
  lemma QueryStepBorder(active: seq<Segment>, p: Point, cur: State, isInside: seq<Position>)
    requires forall e :: e in active ==> 0 <= e.id < |isInside|
    requires active != [] && OrderedAt(active, p.x)
    ensures QueryStep(active, p, cur, isInside) == Border <==>
      cur == Border || exists j :: 0 <= j < |active| && HeightAt(active[j], p) == p.y as real
  {
    LowerBoundAtProbe(active, p);
  }

  // ---------------------------------------------------------------------
  // The event loop

  /** Every OPEN and CLOSE event names an edge. */
  predicate EdgeIdsValid(events: seq<Event>, edges: seq<Segment>) {
    forall k :: 0 <= k < |events| && events[k].kind != Query ==> 0 <= events[k].id < |edges|
  }

  /** One event applied to the active set: OPEN inserts its edge, CLOSE
      erases the element find returns, QUERY leaves the set alone; None when
      a CLOSE finds no equivalent element.  An OPEN adds one element and a
      CLOSE that succeeds removes one. */
  function ActiveStep(a: seq<Segment>, ev: Event, edges: seq<Segment>): (r: Option<seq<Segment>>)
    requires ev.kind != Query ==> 0 <= ev.id < |edges|
    ensures r.Some? ==> forall e :: e in r.value ==> e in a || e in edges
    ensures r.Some? ==> |r.value| == |a| + (if ev.kind == Open then 1 else if ev.kind == Close then -1 else 0)
    ensures r.None? <==> ev.kind == Close && Find(a, edges[ev.id]).None?
  {
    match ev.kind
    case Open => Some(InsertActive(a, edges[ev.id]))
    case Close => (match Find(a, edges[ev.id]) case None => None case Some(j) => Some(EraseAt(a, j)))
    case Query => Some(a)
  }

  /** The active set after the first k events; None once a CLOSE has found
      no equivalent element. */
  function ActiveAfter(events: seq<Event>, edges: seq<Segment>, k: nat): (r: Option<seq<Segment>>)
    requires k <= |events| && EdgeIdsValid(events, edges)
    ensures r.Some? ==> forall e :: e in r.value ==> e in edges
  {
    if k == 0 then Some([])
    else
      match ActiveAfter(events, edges, k - 1)
      case None => None
      case Some(a) => ActiveStep(a, events[k - 1], edges)
  }

  /** The active set is defined after k events only if it was after k - 1. */
  lemma ActivePrefix(events: seq<Event>, edges: seq<Segment>, k: nat)
    requires 0 < k <= |events| && EdgeIdsValid(events, edges)
    requires ActiveAfter(events, edges, k).Some?
    ensures ActiveAfter(events, edges, k - 1).Some?
  {
  }

  /** Each OPEN adds exactly one element and each CLOSE removes exactly one:
      the active set holds as many edges as OPENs minus CLOSEs so far. */
  lemma {:induction false} ActiveSize(events: seq<Event>, edges: seq<Segment>, k: nat)
    requires k <= |events| && EdgeIdsValid(events, edges)
    requires ActiveAfter(events, edges, k).Some?
    ensures |ActiveAfter(events, edges, k).value| == Balance(events[..k])
  {
    if k > 0 {
      ActivePrefix(events, edges, k);
      ActiveSize(events, edges, k - 1);
      BalanceStep(events, k - 1);
    }
  }

  /** What the edge ids index is long enough: every active edge names its
      own position, and every query event names an answer. */
  predicate IdsInRange(events: seq<Event>, edges: seq<Segment>, isInside: seq<Position>, ans: seq<State>) {
    EdgeIdsValid(events, edges) &&
    (forall k :: 0 <= k < |events| && events[k].kind == Query ==> 0 <= events[k].id < |ans|) &&
    (forall i :: 0 <= i < |edges| ==> 0 <= edges[i].id < |isInside|)
  }

  /** The answers after the first k events: a QUERY met while some edge is
      active takes QueryStep's answer; nothing changes once the active set
      is undefined. */
  function AnswersAfter(events: seq<Event>, edges: seq<Segment>, isInside: seq<Position>, ans: seq<State>, k: nat): (r: seq<State>)
    requires k <= |events| && IdsInRange(events, edges, isInside, ans)
    ensures |r| == |ans|
    ensures forall id :: 0 <= id < |ans| ==>
      AtMost(ans[id], r[id]) &&
      (r[id] == ans[id] || r[id] == Inside || r[id] == Border) &&
      (Unqueried(events, k, id) ==> r[id] == ans[id])
  {
    if k == 0 then ans
    else
      var prev := AnswersAfter(events, edges, isInside, ans, k - 1);
      var ev := events[k - 1];
      match ActiveAfter(events, edges, k - 1)
      case None => prev
      case Some(a) =>
        if ev.kind == Query && a != [] then prev[ev.id := QueryStep(a, ev.p, prev[ev.id], isInside)] else prev
  }

  /** Once a CLOSE has failed to find its edge, the set stays undefined and
      the answers stay as they are. */
  lemma {:induction false} StopsAfterFailure(events: seq<Event>, edges: seq<Segment>, isInside: seq<Position>, ans: seq<State>, k: nat, n: nat)
    requires k <= n <= |events| && IdsInRange(events, edges, isInside, ans)
    requires ActiveAfter(events, edges, k).None?
    ensures ActiveAfter(events, edges, n).None?
    ensures AnswersAfter(events, edges, isInside, ans, n) == AnswersAfter(events, edges, isInside, ans, k)
    decreases n - k
  {
    if k < n {
      StopsAfterFailure(events, edges, isInside, ans, k + 1, n);
    }
  }

  /** One more event: the active set takes ActiveStep and a QUERY met while
      some edge is active takes QueryStep's answer. */
  lemma SweepStep(events: seq<Event>, edges: seq<Segment>, isInside: seq<Position>, ans: seq<State>, m: nat, active: seq<Segment>)
    requires m < |events| && IdsInRange(events, edges, isInside, ans)
    requires ActiveAfter(events, edges, m) == Some(active)
    ensures ActiveAfter(events, edges, m + 1) == ActiveStep(active, events[m], edges)
    ensures var r := AnswersAfter(events, edges, isInside, ans, m);
      AnswersAfter(events, edges, isInside, ans, m + 1) ==
        if events[m].kind == Query && active != [] then r[events[m].id := QueryStep(active, events[m].p, r[events[m].id], isInside)] else r
  {
  }

  /** No QUERY event among the first m events carries id. */
  predicate Unqueried(events: seq<Event>, m: nat, id: int)
    requires m <= |events|
  {
    forall k :: 0 <= k < m && events[k].kind == Query ==> events[k].id != id
  }

  /** One pass of run()'s loop: the event at position m applied to the
      active set and the answers.  ok is false when a CLOSE finds no
      element equivalent to its edge; the set then stays undefined and the
      answers final. */
  method HandleEvent(events: seq<Event>, edges: seq<Segment>, isInside: seq<Position>, ans: seq<State>,
                     m: nat, active: seq<Segment>, r: seq<State>)
    returns (ok: bool, active1: seq<Segment>, r1: seq<State>)
    requires m < |events| && IdsInRange(events, edges, isInside, ans)
    requires ActiveAfter(events, edges, m) == Some(active)
    requires r == AnswersAfter(events, edges, isInside, ans, m)
    ensures ok ==> ActiveAfter(events, edges, m + 1) == Some(active1) && r1 == AnswersAfter(events, edges, isInside, ans, m + 1)
    ensures !ok ==> ActiveAfter(events, edges, |events|).None? && r1 == AnswersAfter(events, edges, isInside, ans, |events|)
  {
    SweepStep(events, edges, isInside, ans, m, active);
    var e := events[m];
    ok, active1, r1 := true, active, r;
    match e.kind {
      case Open =>
        active1 := InsertActive(active, edges[e.id]);
      case Close =>
        var found := Find(active, edges[e.id]);
        if found.None? {
          ok := false;
          StopsAfterFailure(events, edges, isInside, ans, m + 1, |events|);
        } else {
          active1 := EraseAt(active, found.value);
        }
      case Query =>
        if active != [] {
          r1 := r[e.id := QueryStep(active, e.p, r[e.id], isInside)];
        }
    }
  }

  /** run(): the event loop.  Answers only rise, only to INSIDE or BORDER,
      and only for ids some QUERY event carries; ok is false exactly when a
      CLOSE found no element equivalent to its edge, where the loop stops. */
  method Sweep(events: seq<Event>, edges: seq<Segment>, isInside: seq<Position>, ans: seq<State>)
    returns (ok: bool, r: seq<State>)
    requires IdsInRange(events, edges, isInside, ans)
    ensures ok <==> ActiveAfter(events, edges, |events|).Some?
    ensures r == AnswersAfter(events, edges, isInside, ans, |events|)
    ensures |r| == |ans|
    ensures forall id :: 0 <= id < |ans| ==> AtMost(ans[id], r[id])
    ensures forall id :: 0 <= id < |ans| ==> r[id] == ans[id] || r[id] == Inside || r[id] == Border
    ensures forall id :: 0 <= id < |ans| && Unqueried(events, |events|, id) ==> r[id] == ans[id]
  {
    var active: seq<Segment> := [];
    ok, r := true, ans;
    var m := 0;
    while m < |events| && ok
      invariant 0 <= m <= |events|
      invariant ok ==> ActiveAfter(events, edges, m) == Some(active) && r == AnswersAfter(events, edges, isInside, ans, m)
      invariant !ok ==> ActiveAfter(events, edges, |events|).None? && r == AnswersAfter(events, edges, isInside, ans, |events|)
    {
      ok, active, r := HandleEvent(events, edges, isInside, ans, m, active, r);
      m := m + 1;
    }
  }
}
