/** Sweep events of the multi-belonging algorithm, the two orders they are
    sorted by, and the sort itself. */
module Events {
  import opened Geometry

  /** Event::TYPE, declared in the order QUERY, CLOSE, OPEN. */
  datatype EventType = Query | Close | Open

  /** The enumerator's underlying value, which Event::operator< compares. */
  function TypeValue(t: EventType): nat {
    match t
    case Query => 0
    case Close => 1
    case Open => 2
  }

  /** An event: the index it refers to (an edge index, an interval index or
      a query id), its type and the point where it happens. */
  datatype Event = Event(id: int, kind: EventType, p: Point)

  /** Event::operator< : by x, and at equal x by type. */
  predicate EventLess(a: Event, b: Event) {
    if a.p.x == b.p.x then TypeValue(a.kind) < TypeValue(b.kind) else a.p.x < b.p.x
  }

  /** redirection: the rank of a type in the vertical pass. */
  function Redirection(t: EventType): (r: int)
    ensures r < 0 <==> t == Open
    ensures r == 0 <==> t == Query
    ensures r > 0 <==> t == Close
    ensures -1 <= r <= 1
  {
    match t
    case Open => -1
    case Close => 1
    case Query => 0
  }

  /** The comparator of the vertical pass: by y, and at equal y by redirection. */
  predicate VerticalLess(a: Event, b: Event) {
    if a.p.y == b.p.y then Redirection(a.kind) < Redirection(b.kind) else a.p.y < b.p.y
  }

  /** A sort key: a coordinate, then a rank that breaks ties. */
  datatype Key = Key(coord: int, rank: int)

  predicate KeyLess(a: Key, b: Key) {
    a.coord < b.coord || (a.coord == b.coord && a.rank < b.rank)
  }

  predicate KeyLe(a: Key, b: Key) {
    !KeyLess(b, a)
  }

  /** The two orders events are sorted by. */
  datatype Order = BySweep | ByVertical

  /** The key an event is sorted under: (x, type value) for the sweep, and
      (y, redirection) for the vertical pass. */
  function KeyOf(o: Order, e: Event): Key {
    match o
    case BySweep => Key(e.p.x, TypeValue(e.kind))
    case ByVertical => Key(e.p.y, Redirection(e.kind))
  }

  /** The two comparators are the key orders. */
  lemma ComparatorsAreKeyOrders(a: Event, b: Event)
    ensures EventLess(a, b) <==> KeyLess(KeyOf(BySweep, a), KeyOf(BySweep, b))
    ensures VerticalLess(a, b) <==> KeyLess(KeyOf(ByVertical, a), KeyOf(ByVertical, b))
  {
  }

  /** The key order is a strict total order on keys. */
  lemma KeyOrderIsStrictTotal(a: Key, b: Key, c: Key)
    ensures !KeyLess(a, a)
    ensures KeyLess(a, b) ==> !KeyLess(b, a)
    ensures KeyLess(a, b) && KeyLess(b, c) ==> KeyLess(a, c)
    ensures KeyLess(a, b) || KeyLess(b, a) || a == b
  {
  }

  /** Two events are unordered by Event::operator< exactly when they share x
      and type; at equal x the order is QUERY, then CLOSE, then OPEN. */
  lemma SweepOrderTies(a: Event, b: Event)
    ensures !EventLess(a, b) && !EventLess(b, a) <==> a.p.x == b.p.x && a.kind == b.kind
    ensures a.p.x == b.p.x && a.kind == Query && b.kind != Query ==> EventLess(a, b)
    ensures a.p.x == b.p.x && a.kind == Close && b.kind == Open ==> EventLess(a, b)
  {
  }

  /** At equal y the vertical pass orders OPEN, then QUERY, then CLOSE; two
      events are unordered exactly when they share y and type. */
  lemma VerticalOrderTies(a: Event, b: Event)
    ensures !VerticalLess(a, b) && !VerticalLess(b, a) <==> a.p.y == b.p.y && a.kind == b.kind
    ensures a.p.y == b.p.y && a.kind == Open && b.kind != Open ==> VerticalLess(a, b)
    ensures a.p.y == b.p.y && a.kind == Query && b.kind == Close ==> VerticalLess(a, b)
  {
  }

  predicate Sorted(s: seq<Event>, o: Order) {
    forall i, j :: 0 <= i < j < |s| ==> KeyLe(KeyOf(o, s[i]), KeyOf(o, s[j]))
  }

  /** Inserts e before the first element whose key is not below e's. */
  function Insert(s: seq<Event>, e: Event, o: Order): (r: seq<Event>)
    ensures multiset(r) == multiset(s) + multiset{e}
    ensures |r| == |s| + 1
  {
    if s == [] || KeyLe(KeyOf(o, e), KeyOf(o, s[0])) then [e] + s
    else
      assert s == [s[0]] + s[1..];
      [s[0]] + Insert(s[1..], e, o)
  }

  lemma {:induction false} InsertSorted(s: seq<Event>, e: Event, o: Order)
    requires Sorted(s, o)
    ensures Sorted(Insert(s, e, o), o)
  {
    if s != [] && !KeyLe(KeyOf(o, e), KeyOf(o, s[0])) {
      var t := Insert(s[1..], e, o);
      InsertSorted(s[1..], e, o);
      var r := [s[0]] + t;
      forall j | 0 < j < |r| ensures KeyLe(KeyOf(o, s[0]), KeyOf(o, r[j])) {
        assert r[j] in multiset(t);
        assert r[j] == e || r[j] in multiset(s[1..]);
        if r[j] != e {
          var k :| 0 <= k < |s[1..]| && s[1..][k] == r[j];
          assert s[k + 1] == r[j];
        }
      }
    }
  }

  /** std::sort under the order o: a sorted permutation of s. */
  function SortBy(s: seq<Event>, o: Order): (r: seq<Event>)
    ensures Sorted(r, o)
    ensures multiset(r) == multiset(s)
  {
    if s == [] then []
    else
      var init := SortBy(s[..|s| - 1], o);
      InsertSorted(init, s[|s| - 1], o);
      assert s == s[..|s| - 1] + [s[|s| - 1]];
      Insert(init, s[|s| - 1], o)
  }

  /** In a sorted sequence an element strictly below another by key comes
      first. */
  lemma SortedPlacesLowerFirst(s: seq<Event>, o: Order, i: int, j: int)
    requires Sorted(s, o)
    requires 0 <= i < |s| && 0 <= j < |s|
    requires KeyLess(KeyOf(o, s[i]), KeyOf(o, s[j]))
    ensures i < j
  {
  }

  /** The QUERY events of the first k queries, one per query, carrying its id. */
  function QueryEventsUpTo(qs: seq<Point>, k: nat): (r: seq<Event>)
    requires k <= |qs|
    ensures |r| == k
    ensures forall i :: 0 <= i < k ==> r[i] == Event(qs[i].id, Query, qs[i])
  {
    if k == 0 then [] else QueryEventsUpTo(qs, k - 1) + [Event(qs[k - 1].id, Query, qs[k - 1])]
  }

  function QueryEvents(qs: seq<Point>): seq<Event> {
    QueryEventsUpTo(qs, |qs|)
  }

  /** The OPEN event of edge e, at its smaller-x end, and its CLOSE event,
      at its larger-x end. */
  function OpenOf(e: Segment): Event {
    Event(e.id, Open, MinX(e))
  }

  function CloseOf(e: Segment): Event {
    Event(e.id, Close, MaxX(e))
  }

  /** The OPEN and CLOSE events of the first k edges whose position is not
      VERTICAL; isInside[i] is the position of edges[i]. */
  function EdgeEventsUpTo(edges: seq<Segment>, isInside: seq<Position>, k: nat): (r: seq<Event>)
    requires k <= |edges| <= |isInside|
    ensures forall ev :: ev in r ==> ev.kind != Query
    ensures forall i :: 0 <= i < k && isInside[i] != Vertical ==> OpenOf(edges[i]) in r && CloseOf(edges[i]) in r
  {
    if k == 0 then []
    else
      var r0 := EdgeEventsUpTo(edges, isInside, k - 1);
      if isInside[k - 1] != Vertical then r0 + [OpenOf(edges[k - 1]), CloseOf(edges[k - 1])] else r0
  }

  lemma EdgeEventsStep(edges: seq<Segment>, isInside: seq<Position>, k: nat)
    requires k < |edges| <= |isInside|
    ensures EdgeEventsUpTo(edges, isInside, k + 1) ==
      EdgeEventsUpTo(edges, isInside, k) + (if isInside[k] != Vertical then [OpenOf(edges[k]), CloseOf(edges[k])] else [])
  {
  }

  function EdgeEvents(edges: seq<Segment>, isInside: seq<Position>): seq<Event>
    requires |edges| <= |isInside|
  {
    EdgeEventsUpTo(edges, isInside, |edges|)
  }

  /** Every edge event is the OPEN or the CLOSE of an edge whose position
      is not VERTICAL. */
  lemma {:induction false} EdgeEventsOrigin(edges: seq<Segment>, isInside: seq<Position>, k: nat)
    requires k <= |edges| <= |isInside|
    ensures forall ev :: ev in EdgeEventsUpTo(edges, isInside, k) ==>
      exists i :: 0 <= i < k && isInside[i] != Vertical && (ev == OpenOf(edges[i]) || ev == CloseOf(edges[i]))
  {
    if k > 0 {
      EdgeEventsOrigin(edges, isInside, k - 1);
    }
  }

  /** The OPEN of a non-vertical edge sorts strictly before its CLOSE: it
      lies at a smaller x. */
  lemma OpenBeforeClose(e: Segment)
    requires e.left.x != e.right.x
    ensures KeyLess(KeyOf(BySweep, OpenOf(e)), KeyOf(BySweep, CloseOf(e)))
    ensures MinX(e).x < MaxX(e).x
  {
  }

  // ---------------------------------------------------------------------
  // Counting events

  /** The events counted: those of one type, the OPENs at or below a height,
      the CLOSEs strictly below a height, the events of one type and id. */
  datatype Filter = OfKind(kind: EventType) | OpenAtMost(y: int) | CloseBelow(y: int) | OfEdge(edgeKind: EventType, id: int)

  predicate Holds(f: Filter, e: Event) {
    match f
    case OfKind(k) => e.kind == k
    case OpenAtMost(y) => e.kind == Open && e.p.y <= y
    case CloseBelow(y) => e.kind == Close && e.p.y < y
    case OfEdge(k, id) => e.kind == k && e.id == id
  }

  function Count(s: seq<Event>, f: Filter): (n: nat)
    ensures n <= |s|
  {
    if s == [] then 0
    else Count(s[..|s| - 1], f) + (if Holds(f, s[|s| - 1]) then 1 else 0)
  }

  /** The counter of the pass after the events s: OPENs minus CLOSEs. */
  function Balance(s: seq<Event>): int {
    Count(s, OfKind(Open)) - Count(s, OfKind(Close))
  }

  lemma CountStep(s: seq<Event>, m: nat, f: Filter)
    requires m < |s|
    ensures Count(s[..m + 1], f) == Count(s[..m], f) + (if Holds(f, s[m]) then 1 else 0)
  {
    assert s[..m + 1][..m] == s[..m];
  }

  lemma {:induction false} CountAppend(a: seq<Event>, b: seq<Event>, f: Filter)
    ensures Count(a + b, f) == Count(a, f) + Count(b, f)
  {
    if b == [] {
      assert a + b == a;
    } else {
      var b' := b[..|b| - 1];
      CountAppend(a, b', f);
      assert (a + b)[..|a + b| - 1] == a + b';
    }
  }

  lemma RemoveAtMultiset(b: seq<Event>, j: nat)
    requires j < |b|
    ensures multiset(b[..j] + b[j + 1..]) == multiset(b) - multiset{b[j]}
  {
    assert b == b[..j] + [b[j]] + b[j + 1..];
  }

  lemma CountRemoveAt(b: seq<Event>, j: nat, f: Filter)
    requires j < |b|
    ensures Count(b, f) == Count(b[..j] + b[j + 1..], f) + (if Holds(f, b[j]) then 1 else 0)
  {
    var l, u := b[..j], b[j + 1..];
    assert b == l + [b[j]] + u;
    CountAppend(l, [b[j]], f);
    CountAppend(l + [b[j]], u, f);
    CountAppend(l, u, f);
    assert [b[j]][..0] == [];
  }

  /** Dropping the last event of a and an equal event of b keeps the two
      multisets equal. */
  lemma DropMatching(a: seq<Event>, b: seq<Event>, j: nat)
    requires multiset(a) == multiset(b) && a != [] && j < |b| && b[j] == a[|a| - 1]
    ensures multiset(a[..|a| - 1]) == multiset(b[..j] + b[j + 1..])
  {
    RemoveAtMultiset(a, |a| - 1);
    assert a[..|a| - 1] + a[|a|..] == a[..|a| - 1];
    RemoveAtMultiset(b, j);
  }

  /** Count depends only on the multiset of events. */
  lemma {:induction false} CountPermutation(a: seq<Event>, b: seq<Event>, f: Filter)
    requires multiset(a) == multiset(b)
    ensures Count(a, f) == Count(b, f)
  {
    if a != [] {
      var x := a[|a| - 1];
      assert x in multiset(a);
      var j :| 0 <= j < |b| && b[j] == x;
      DropMatching(a, b, j);
      CountPermutation(a[..|a| - 1], b[..j] + b[j + 1..], f);
      CountRemoveAt(b, j, f);
    }
  }

  /** Two filters that agree on every event of s count the same. */
  lemma {:induction false} CountAgree(s: seq<Event>, f: Filter, g: Filter)
    requires forall i :: 0 <= i < |s| ==> (Holds(f, s[i]) <==> Holds(g, s[i]))
    ensures Count(s, f) == Count(s, g)
  {
    if s != [] {
      CountAgree(s[..|s| - 1], f, g);
    }
  }

  /** A positive count has a witness. */
  lemma {:induction false} CountPositive(s: seq<Event>, f: Filter)
    requires Count(s, f) > 0
    ensures exists j :: 0 <= j < |s| && Holds(f, s[j])
  {
    var s' := s[..|s| - 1];
    if !Holds(f, s[|s| - 1]) {
      CountPositive(s', f);
      var j :| 0 <= j < |s'| && Holds(f, s'[j]);
      assert s[j] == s'[j];
    }
  }

  lemma {:induction false} CountNone(s: seq<Event>, f: Filter)
    requires forall i :: 0 <= i < |s| ==> !Holds(f, s[i])
    ensures Count(s, f) == 0
  {
    if s != [] {
      CountNone(s[..|s| - 1], f);
    }
  }

  lemma BalanceStep(ev: seq<Event>, m: nat)
    requires m < |ev|
    ensures Balance(ev[..m + 1]) == Balance(ev[..m]) + (if ev[m].kind == Open then 1 else if ev[m].kind == Close then -1 else 0)
  {
    CountStep(ev, m, OfKind(Open));
    CountStep(ev, m, OfKind(Close));
  }
}
