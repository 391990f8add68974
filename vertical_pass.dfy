/** The vertical-edge pass of the multi-belonging algorithm, for the
    vertical edges and the queries that share one abscissa: each vertical
    edge becomes a y-interval with an OPEN event at its lower end and a
    CLOSE event at its upper end, the events are sorted by y with OPEN
    before QUERY before CLOSE, and a counter of open intervals marks every
    query met while it is positive as BORDER. */
module VerticalPass {
  import opened Geometry
  import opened Events

  /** Segment s spans height y. */
  predicate Covers(s: Segment, y: int) {
    MinY(s).y <= y <= MaxY(s).y
  }

  /** The number of segments of segs that span height y. */
  function Covering(segs: seq<Segment>, y: int): (n: nat)
    ensures n <= |segs|
  {
    if segs == [] then 0
    else Covering(segs[..|segs| - 1], y) + (if Covers(segs[|segs| - 1], y) then 1 else 0)
  }

  ghost predicate Covered(segs: seq<Segment>, y: int) {
    exists j :: 0 <= j < |segs| && Covers(segs[j], y)
  }

  lemma {:induction false} CoveringPositive(segs: seq<Segment>, y: int)
    ensures Covering(segs, y) > 0 <==> Covered(segs, y)
  {
    if segs != [] {
      var init := segs[..|segs| - 1];
      CoveringPositive(init, y);
      if Covered(init, y) {
        var j :| 0 <= j < |init| && Covers(init[j], y);
        assert segs[j] == init[j];
      }
      if Covered(segs, y) && !Covers(segs[|segs| - 1], y) {
        var j :| 0 <= j < |segs| && Covers(segs[j], y);
        assert init[j] == segs[j];
      }
    }
  }

  /** The OPEN event at the lower end and the CLOSE event at the upper end
      of interval j. */
  function IntervalOpen(j: int, s: Segment): Event {
    Event(j, Open, MinY(s))
  }

  function IntervalClose(j: int, s: Segment): Event {
    Event(j, Close, MaxY(s))
  }

  /** The OPEN and CLOSE events of every interval, numbered in order. */
  function IntervalEvents(segs: seq<Segment>): (r: seq<Event>)
    ensures |r| == 2 * |segs|
    ensures forall e :: e in r ==> e.kind != Query
  {
    if segs == [] then []
    else
      var j := |segs| - 1;
      IntervalEvents(segs[..j]) + [IntervalOpen(j, segs[j]), IntervalClose(j, segs[j])]
  }

  /** Over the interval events, the OPENs at or below y minus the CLOSEs
      below y are the intervals spanning y. */
  lemma {:induction false} IntervalBalance(segs: seq<Segment>, y: int)
    ensures Count(IntervalEvents(segs), OpenAtMost(y)) - Count(IntervalEvents(segs), CloseBelow(y)) == Covering(segs, y)
  {
    if segs != [] {
      var j := |segs| - 1;
      var s := segs[j];
      IntervalBalance(segs[..j], y);
      var pair := [IntervalOpen(j, s), IntervalClose(j, s)];
      CountAppend(IntervalEvents(segs[..j]), pair, OpenAtMost(y));
      CountAppend(IntervalEvents(segs[..j]), pair, CloseBelow(y));
      assert pair[..1] == [IntervalOpen(j, s)];
      assert pair[..1][..0] == [];
    }
  }

  /** The counter at a QUERY event of any y-sorted arrangement of the
      interval and query events is the number of intervals spanning the
      query's y: every OPEN at or below it comes before it, every OPEN above
      it after it, every CLOSE below it before it and every CLOSE at or above
      it after it. */
  lemma BalanceAtQuery(segs: seq<Segment>, qs: seq<Point>, ev: seq<Event>, k: nat)
    requires Sorted(ev, ByVertical)
    requires multiset(ev) == multiset(IntervalEvents(segs) + QueryEvents(qs))
    requires k < |ev| && ev[k].kind == Query
    ensures Balance(ev[..k]) == Covering(segs, ev[k].p.y)
  {
    var y := ev[k].p.y;
    var all := IntervalEvents(segs) + QueryEvents(qs);
    assert ev == ev[..k] + ev[k..];
    forall i | 0 <= i < k
      ensures Holds(OfKind(Open), ev[..k][i]) <==> Holds(OpenAtMost(y), ev[..k][i])
      ensures Holds(OfKind(Close), ev[..k][i]) <==> Holds(CloseBelow(y), ev[..k][i])
    {
      assert KeyLe(KeyOf(ByVertical, ev[i]), KeyOf(ByVertical, ev[k]));
    }
    forall i | 0 <= i < |ev[k..]|
      ensures !Holds(OpenAtMost(y), ev[k..][i]) && !Holds(CloseBelow(y), ev[k..][i])
    {
      if i > 0 {
        assert KeyLe(KeyOf(ByVertical, ev[k]), KeyOf(ByVertical, ev[k + i]));
      }
    }
    CountAgree(ev[..k], OfKind(Open), OpenAtMost(y));
    CountAgree(ev[..k], OfKind(Close), CloseBelow(y));
    CountNone(ev[k..], OpenAtMost(y));
    CountNone(ev[k..], CloseBelow(y));
    CountAppend(ev[..k], ev[k..], OpenAtMost(y));
    CountAppend(ev[..k], ev[k..], CloseBelow(y));
    CountPermutation(ev, all, OpenAtMost(y));
    CountPermutation(ev, all, CloseBelow(y));
    CountAppend(IntervalEvents(segs), QueryEvents(qs), OpenAtMost(y));
    CountAppend(IntervalEvents(segs), QueryEvents(qs), CloseBelow(y));
    CountNone(QueryEvents(qs), OpenAtMost(y));
    CountNone(QueryEvents(qs), CloseBelow(y));
    IntervalBalance(segs, y);
  }

  /** A QUERY event of such an arrangement is the event of one of the
      queries, and carries that query's id. */
  lemma QueryOrigin(segs: seq<Segment>, qs: seq<Point>, ev: seq<Event>, k: nat)
    requires multiset(ev) == multiset(IntervalEvents(segs) + QueryEvents(qs))
    requires k < |ev| && ev[k].kind == Query
    ensures ev[k].p in qs && ev[k] == Event(ev[k].p.id, Query, ev[k].p)
  {
    assert ev[k] in multiset(ev);
    var all := IntervalEvents(segs) + QueryEvents(qs);
    assert ev[k] in all;
    var i :| 0 <= i < |all| && all[i] == ev[k];
    assert all[i] !in IntervalEvents(segs);
    var qi := i - |IntervalEvents(segs)|;
    assert QueryEvents(qs)[qi] == ev[k];
  }

  /** Some QUERY event among the first m events has the given id and meets a
      positive counter. */
  ghost predicate HitBefore(ev: seq<Event>, m: nat, id: int)
    requires m <= |ev|
  {
    exists k :: 0 <= k < m && ev[k].kind == Query && ev[k].id == id && Balance(ev[..k]) > 0
  }

  /** Some query with the given id lies on one of the intervals. */
  ghost predicate QueryHit(segs: seq<Segment>, qs: seq<Point>, id: int) {
    exists q :: q in qs && q.id == id && Covered(segs, q.y)
  }

  /** A query the pass marks lies on an interval. */
  lemma HitSound(segs: seq<Segment>, qs: seq<Point>, ev: seq<Event>, id: int)
    requires Sorted(ev, ByVertical)
    requires multiset(ev) == multiset(IntervalEvents(segs) + QueryEvents(qs))
    requires HitBefore(ev, |ev|, id)
    ensures QueryHit(segs, qs, id)
  {
    var k :| 0 <= k < |ev| && ev[k].kind == Query && ev[k].id == id && Balance(ev[..k]) > 0;
    QueryOrigin(segs, qs, ev, k);
    BalanceAtQuery(segs, qs, ev, k);
    CoveringPositive(segs, ev[k].p.y);
  }

  /** A query lying on an interval is marked by the pass. */
  lemma HitComplete(segs: seq<Segment>, qs: seq<Point>, ev: seq<Event>, id: int)
    requires Sorted(ev, ByVertical)
    requires multiset(ev) == multiset(IntervalEvents(segs) + QueryEvents(qs))
    requires QueryHit(segs, qs, id)
    ensures HitBefore(ev, |ev|, id)
  {
    var q :| q in qs && q.id == id && Covered(segs, q.y);
    var i :| 0 <= i < |qs| && qs[i] == q;
    var e := Event(q.id, Query, q);
    var all := IntervalEvents(segs) + QueryEvents(qs);
    assert QueryEvents(qs)[i] == e;
    assert all[|IntervalEvents(segs)| + i] == e;
    assert e in multiset(all);
    var k :| 0 <= k < |ev| && ev[k] == e;
    BalanceAtQuery(segs, qs, ev, k);
    CoveringPositive(segs, q.y);
  }

  /** The pass marks exactly the queries that lie on an interval. */
  lemma HitIff(segs: seq<Segment>, qs: seq<Point>, ev: seq<Event>, id: int)
    requires Sorted(ev, ByVertical)
    requires multiset(ev) == multiset(IntervalEvents(segs) + QueryEvents(qs))
    ensures HitBefore(ev, |ev|, id) <==> QueryHit(segs, qs, id)
  {
    if HitBefore(ev, |ev|, id) {
      HitSound(segs, qs, ev, id);
    }
    if QueryHit(segs, qs, id) {
      HitComplete(segs, qs, ev, id);
    }
  }

  lemma HitBeforeStep(ev: seq<Event>, m: nat, id: int)
    requires m < |ev|
    ensures HitBefore(ev, m + 1, id) <==>
      HitBefore(ev, m, id) || (ev[m].kind == Query && ev[m].id == id && Balance(ev[..m]) > 0)
  {
    if HitBefore(ev, m + 1, id) && !HitBefore(ev, m, id) {
      var k :| 0 <= k < m + 1 && ev[k].kind == Query && ev[k].id == id && Balance(ev[..k]) > 0;
      assert k == m;
    }
  }

  /** After the first m events, r is ans with BORDER at every id some
      QUERY event has met a positive counter with. */
  ghost predicate Marked(ev: seq<Event>, m: nat, ans: seq<State>, r: seq<State>)
    requires m <= |ev|
  {
    |r| == |ans| &&
    forall id :: 0 <= id < |ans| ==> r[id] == if HitBefore(ev, m, id) then Border else ans[id]
  }

  lemma MarkStep(ev: seq<Event>, m: nat, ans: seq<State>, r: seq<State>)
    requires m < |ev| && Marked(ev, m, ans, r)
    requires ev[m].kind == Query ==> 0 <= ev[m].id < |ans|
    ensures var hit := ev[m].kind == Query && Balance(ev[..m]) > 0;
      Marked(ev, m + 1, ans, if hit then r[ev[m].id := Border] else r)
  {
    forall id | 0 <= id < |ans| {
      HitBeforeStep(ev, m, id);
    }
  }

  /** The counting loop of one group over the sorted events ev: a running
      balance of OPENs over CLOSEs, and BORDER for every QUERY met while it
      is positive. */
  method MarkQueries(ev: seq<Event>, ans: seq<State>) returns (r: seq<State>)
    requires forall k :: 0 <= k < |ev| && ev[k].kind == Query ==> 0 <= ev[k].id < |ans|
    ensures Marked(ev, |ev|, ans, r)
  {
    var bal := 0;
    r := ans;
    var m := 0;
    while m < |ev|
      invariant 0 <= m <= |ev|
      invariant bal == Balance(ev[..m])
      invariant Marked(ev, m, ans, r)
    {
      var e := ev[m];
      BalanceStep(ev, m);
      MarkStep(ev, m, ans, r);
      if e.kind == Open {
        bal := bal + 1;
      }
      if e.kind == Close {
        bal := bal - 1;
      }
      if e.kind == Query && bal > 0 {
        r := r[e.id := Border];
      }
      m := m + 1;
    }
  }

  /** One group of answer_for_vert: the vertical edges segs and the queries
      qs at one abscissa.  Every query lying on one of the edges becomes
      BORDER; every other answer is left as it was. */
  method SweepGroup(segs: seq<Segment>, qs: seq<Point>, ans: seq<State>) returns (r: seq<State>)
    requires forall q :: q in qs ==> q.id < |ans|
    ensures |r| == |ans|
    ensures forall id :: 0 <= id < |ans| ==> r[id] == if QueryHit(segs, qs, id) then Border else ans[id]
  {
    var ev: seq<Event> := [];
    var j := 0;
    while j < |segs|
      invariant 0 <= j <= |segs|
      invariant ev == IntervalEvents(segs[..j])
    {
      assert segs[..j + 1][..j] == segs[..j];
      ev := ev + [Event(j, Open, MinY(segs[j])), Event(j, Close, MaxY(segs[j]))];
      j := j + 1;
    }
    assert segs[..j] == segs;
    ghost var intervals := ev;
    j := 0;
    while j < |qs|
      invariant 0 <= j <= |qs|
      invariant ev == intervals + QueryEventsUpTo(qs, j)
    {
      ev := ev + [Event(qs[j].id, Query, qs[j])];
      j := j + 1;
    }
    ev := SortBy(ev, ByVertical);
    forall k | 0 <= k < |ev| && ev[k].kind == Query ensures 0 <= ev[k].id < |ans| {
      QueryOrigin(segs, qs, ev, k);
    }
    r := MarkQueries(ev, ans);
    forall id | 0 <= id < |ans| {
      HitIff(segs, qs, ev, id);
    }
  }
}
