/** The value types of the geometry library: points, segments, the position
    and state enumerations, and the polygon container.  Coordinates are
    integers; the interpolated height of a segment is a real. */
module Geometry {

  datatype Option<T> = None | Some(value: T)

  /** A point of the plane and the index it was read with. */
  datatype Point = Point(x: int, y: int, id: nat)

  /** Point::operator< : lexicographic on (x, y); the id plays no part. */
  predicate Less(p: Point, q: Point) {
    if p.x != q.x then p.x < q.x else p.y < q.y
  }

  /** Two points that neither orders before the other: the same location. */
  function Equivalent(p: Point, q: Point): (r: bool)
    ensures r <==> p.x == q.x && p.y == q.y
  {
    !Less(p, q) && !Less(q, p)
  }

  /** Less is a strict order that is total on locations. */
  lemma LessIsStrictOrder(p: Point, q: Point, r: Point)
    ensures !Less(p, p)
    ensures Less(p, q) ==> !Less(q, p)
    ensures Less(p, q) && Less(q, r) ==> Less(p, r)
    ensures Less(p, q) || Less(q, p) || Equivalent(p, q)
  {
  }

  /** operator^ : the z-component of the cross product of p and q. */
  function Cross(p: Point, q: Point): int {
    p.x * q.y - p.y * q.x
  }

  lemma CrossAntisymmetric(p: Point, q: Point)
    ensures Cross(p, q) == -Cross(q, p)
    ensures Cross(p, p) == 0
  {
  }

  /** The classification of a query, ordered OUTSIDE < INSIDE < BORDER. */
  datatype State = Outside | Inside | Border

  function Rank(s: State): nat {
    match s
    case Outside => 0
    case Inside => 1
    case Border => 2
  }

  predicate AtMost(a: State, b: State) {
    Rank(a) <= Rank(b)
  }

  /** std::max on states: the larger one, the first on a tie. */
  function MaxState(a: State, b: State): (r: State)
    ensures AtMost(a, r) && AtMost(b, r)
    ensures r == a || r == b
  {
    if Rank(a) < Rank(b) then b else a
  }

  /** How an edge runs along x: DOWN when x grows, UP when it shrinks. */
  datatype Position = Vertical | Up | Down

  /** A segment from `left` to `right` (traversal order, not sorted), its
      index, and the position a polygon may have attached to it. */
  datatype Segment = Segment(left: Point, right: Point, id: int, position: Option<Position>)

  /** The endpoint with the smaller x; `right` on a tie. */
  function MinX(s: Segment): (p: Point)
    ensures p == s.left || p == s.right
    ensures p.x <= s.left.x && p.x <= s.right.x
    ensures s.left.x == s.right.x ==> p == s.right
  {
    if s.left.x < s.right.x then s.left else s.right
  }

  /** The endpoint with the larger x; `left` on a tie. */
  function MaxX(s: Segment): (p: Point)
    ensures p == s.left || p == s.right
    ensures p.x >= s.left.x && p.x >= s.right.x
    ensures s.left.x == s.right.x ==> p == s.left
  {
    if s.left.x < s.right.x then s.right else s.left
  }

  /** The endpoint with the smaller y; `right` on a tie. */
  function MinY(s: Segment): (p: Point)
    ensures p == s.left || p == s.right
    ensures p.y <= s.left.y && p.y <= s.right.y
    ensures s.left.y == s.right.y ==> p == s.right
  {
    if s.left.y < s.right.y then s.left else s.right
  }

  /** The endpoint with the larger y; `left` on a tie. */
  function MaxY(s: Segment): (p: Point)
    ensures p == s.left || p == s.right
    ensures p.y >= s.left.y && p.y >= s.right.y
    ensures s.left.y == s.right.y ==> p == s.left
  {
    if s.left.y < s.right.y then s.right else s.left
  }

  /** The height of the segment's line at abscissa x; a vertical segment
      answers with its first endpoint's y. */
  function Y(s: Segment, x: real): real {
    var lo, hi := MinX(s), MaxX(s);
    if lo.x == hi.x then s.left.y as real
    else lo.y as real + ((hi.y - lo.y) as real * (x - lo.x as real)) / (hi.x - lo.x) as real
  }

  lemma YOfVertical(s: Segment, x: real)
    requires s.left.x == s.right.x
    ensures Y(s, x) == s.left.y as real
  {
  }

  /** A non-vertical segment passes through both endpoints and is linear
      in between: at the fraction t of its x-span it has risen by the
      fraction t of its y-difference. */
  lemma YOfNonVertical(s: Segment, t: real)
    requires s.left.x != s.right.x
    ensures Y(s, MinX(s).x as real) == MinX(s).y as real
    ensures Y(s, MaxX(s).x as real) == MaxX(s).y as real
    ensures var lo, hi := MinX(s), MaxX(s);
            Y(s, lo.x as real + t * (hi.x - lo.x) as real) == lo.y as real + t * (hi.y - lo.y) as real
  {
    var lo, hi := MinX(s), MaxX(s);
    var w := (hi.x - lo.x) as real;
    var d := (hi.y - lo.y) as real;
    assert w != 0.0;
    assert (d * w) / w == d;
    assert (d * (t * w)) / w == d * t by {
      assert d * (t * w) == (d * t) * w;
    }
  }

  // ---------------------------------------------------------------------
  // Orientation: the shoelace sum and reversal

  /** The sum of Cross(s[i], s[(i + 1) % |s|]) over i < k; the successor of the last point is the first. */
  function ShoelaceUpTo(s: seq<Point>, k: nat): int
    requires k <= |s|
  {
    if k == 0 then 0 else ShoelaceUpTo(s, k - 1) + Cross(s[k - 1], if k < |s| then s[k] else s[0])
  }

  /** Twice the signed area of the closed polygon s. */
  function Shoelace(s: seq<Point>): int {
    ShoelaceUpTo(s, |s|)
  }

  function Reverse<T>(s: seq<T>): (r: seq<T>)
    ensures |r| == |s|
    ensures forall i :: 0 <= i < |s| ==> r[i] == s[|s| - 1 - i]
  {
    if s == [] then [] else [s[|s| - 1]] + Reverse(s[..|s| - 1])
  }

  /** The sum of the cross products of consecutive points of the open path s. */
  function Chain(s: seq<Point>): int {
    if |s| < 2 then 0 else Chain(s[..|s| - 1]) + Cross(s[|s| - 2], s[|s| - 1])
  }

  lemma {:induction false} ShoelaceUpToIsChain(s: seq<Point>, k: nat)
    requires k < |s|
    ensures ShoelaceUpTo(s, k) == Chain(s[..k + 1])
  {
    if k > 0 {
      ShoelaceUpToIsChain(s, k - 1);
      assert s[..k + 1][..k] == s[..k];
    }
  }

  lemma ShoelaceIsChainPlusClosing(s: seq<Point>)
    requires |s| > 0
    ensures Shoelace(s) == Chain(s) + Cross(s[|s| - 1], s[0])
  {
    ShoelaceUpToIsChain(s, |s| - 1);
    assert s[..|s|] == s;
  }

  lemma {:induction false} ChainPrepend(x: Point, t: seq<Point>)
    requires |t| > 0
    ensures Chain([x] + t) == Cross(x, t[0]) + Chain(t)
  {
    if |t| > 1 {
      var u := [x] + t;
      assert u[..|u| - 1] == [x] + t[..|t| - 1];
      ChainPrepend(x, t[..|t| - 1]);
    }
  }

  lemma {:induction false} ChainReverse(s: seq<Point>)
    ensures Chain(Reverse(s)) == -Chain(s)
  {
    if |s| >= 2 {
      var init := s[..|s| - 1];
      ChainReverse(init);
      ChainPrepend(s[|s| - 1], Reverse(init));
      CrossAntisymmetric(s[|s| - 1], s[|s| - 2]);
    }
  }

  /** Reversing the vertex order negates the shoelace sum. */
  lemma ShoelaceReverse(s: seq<Point>)
    ensures Shoelace(Reverse(s)) == -Shoelace(s)
  {
    if |s| > 0 {
      ShoelaceIsChainPlusClosing(s);
      ShoelaceIsChainPlusClosing(Reverse(s));
      ChainReverse(s);
      CrossAntisymmetric(s[0], s[|s| - 1]);
    }
  }

  /** std::reverse: swaps the ends of s pairwise, working inwards. */
  method ReverseInPlace(s: seq<Point>) returns (r: seq<Point>)
    ensures r == Reverse(s)
  {
    r := s;
    var n := |s|;
    var i := 0;
    while i < n / 2
      invariant 0 <= i <= n / 2
      invariant |r| == n
      invariant forall k :: 0 <= k < i ==> r[k] == s[n - 1 - k] && r[n - 1 - k] == s[k]
      invariant forall k :: i <= k < n - i ==> r[k] == s[k]
    {
      var t := r[i];
      r := r[i := r[n - 1 - i]][n - 1 - i := t];
      i := i + 1;
    }
  }

  // ---------------------------------------------------------------------
  // Edges of a polygon

  /** The direction class of the edge from a to b. */
  function Classify(a: Point, b: Point): (r: Position)
    ensures r == Down <==> a.x < b.x
    ensures r == Vertical <==> a.x == b.x
    ensures r == Up <==> b.x < a.x
  {
    if a.x < b.x then Down else if a.x == b.x then Vertical else Up
  }

  /** Edge i of the closed polygon pts, its position not yet set. */
  function EdgeAt(pts: seq<Point>, i: nat): Segment
    requires i < |pts|
  {
    Segment(pts[i], pts[(i + 1) % |pts|], i, None)
  }

  /** The first k edges of the closed polygon pts. */
  function EdgesUpTo(pts: seq<Point>, k: nat): (es: seq<Segment>)
    requires k <= |pts|
    ensures |es| == k
    ensures forall i :: 0 <= i < k ==> es[i] == EdgeAt(pts, i)
  {
    if k == 0 then [] else EdgesUpTo(pts, k - 1) + [EdgeAt(pts, k - 1)]
  }

  function EdgesOf(pts: seq<Point>): seq<Segment> {
    EdgesUpTo(pts, |pts|)
  }

  /** The edges carry consecutive indices and close up into a cycle. */
  lemma EdgesFormCycle(pts: seq<Point>)
    ensures |EdgesOf(pts)| == |pts|
    ensures forall i :: 0 <= i < |pts| ==>
      EdgesOf(pts)[i].id == i && EdgesOf(pts)[i].left == pts[i] &&
      EdgesOf(pts)[i].right == EdgesOf(pts)[(i + 1) % |pts|].left
  {
  }

  predicate IsVerticalAt(e: Segment, x: int) {
    e.left.x == e.right.x && e.left.x == x
  }

  /** The edges of es that are vertical at abscissa x, in their order in es. */
  function VerticalAt(es: seq<Segment>, x: int): seq<Segment> {
    if es == [] then []
    else VerticalAt(es[..|es| - 1], x) + (if IsVerticalAt(es[|es| - 1], x) then [es[|es| - 1]] else [])
  }

  predicate IdsIncrease(es: seq<Segment>) {
    forall i, j :: 0 <= i < j < |es| ==> es[i].id < es[j].id
  }

  /** VerticalAt keeps exactly the edges vertical at x, and keeps their order. */
  lemma {:induction false} VerticalAtExactly(es: seq<Segment>, x: int)
    ensures forall e :: e in VerticalAt(es, x) <==> e in es && IsVerticalAt(e, x)
    ensures IdsIncrease(es) ==> IdsIncrease(VerticalAt(es, x))
  {
    if es != [] {
      var init := es[..|es| - 1];
      var last := es[|es| - 1];
      VerticalAtExactly(init, x);
      assert es == init + [last];
      if IdsIncrease(es) {
        assert IdsIncrease(init);
        var v := VerticalAt(init, x);
        forall i | 0 <= i < |v| ensures v[i].id < last.id {
          assert v[i] in init;
        }
      }
    }
  }

  /** The edge index of a polygon files exactly its vertical edges at x, in
      index order. */
  lemma VerticalEdgesOfPolygon(pts: seq<Point>, x: int)
    ensures forall e :: e in VerticalAt(EdgesOf(pts), x) <==>
      exists i :: 0 <= i < |pts| && e == EdgeAt(pts, i) && pts[i].x == x && pts[(i + 1) % |pts|].x == x
    ensures IdsIncrease(VerticalAt(EdgesOf(pts), x))
  {
    var es := EdgesOf(pts);
    VerticalAtExactly(es, x);
    forall e | e in VerticalAt(es, x)
      ensures exists i :: 0 <= i < |pts| && e == EdgeAt(pts, i) && pts[i].x == x && pts[(i + 1) % |pts|].x == x
    {
      var i :| 0 <= i < |es| && es[i] == e;
      assert e == EdgeAt(pts, i);
    }
    forall i | 0 <= i < |pts| && pts[i].x == x && pts[(i + 1) % |pts|].x == x
      ensures EdgeAt(pts, i) in VerticalAt(es, x)
    {
      assert es[i] == EdgeAt(pts, i);
    }
  }

  /** std::map::operator[] read: the stored sequence, or the empty one. */
  function Lookup<V>(m: map<int, seq<V>>, x: int): seq<V> {
    if x in m then m[x] else []
  }

  /** The vertical-edge index of es on top of the entries already in m0. */
  ghost predicate IndexesVertical(m: map<int, seq<Segment>>, m0: map<int, seq<Segment>>, es: seq<Segment>) {
    (forall x :: Lookup(m, x) == Lookup(m0, x) + VerticalAt(es, x)) &&
    (forall x :: x in m <==> x in m0 || VerticalAt(es, x) != [])
  }

  lemma VerticalAtAppend(es: seq<Segment>, e: Segment, x: int)
    ensures VerticalAt(es + [e], x) == VerticalAt(es, x) + (if IsVerticalAt(e, x) then [e] else [])
  {
    var es' := es + [e];
    assert es'[..|es'| - 1] == es;
  }

  /** Files edge `e` under its x when it is vertical; any other edge leaves the index as it is. */
  function FileEdge(m: map<int, seq<Segment>>, e: Segment): (r: map<int, seq<Segment>>)
    ensures e.left.x == e.right.x ==> e.left.x in r && Lookup(r, e.left.x) == Lookup(m, e.left.x) + [e]
    ensures forall x :: x in m ==> x in r
    ensures forall x :: x != e.left.x || e.left.x != e.right.x ==> (x in r <==> x in m) && Lookup(r, x) == Lookup(m, x)
  {
    if e.left.x == e.right.x then m[e.left.x := Lookup(m, e.left.x) + [e]] else m
  }

  /** Filing one more edge keeps the entry at one abscissa x up to date. */
  lemma FileVerticalAt(m: map<int, seq<Segment>>, m0: map<int, seq<Segment>>, es: seq<Segment>, e: Segment, x: int)
    requires Lookup(m, x) == Lookup(m0, x) + VerticalAt(es, x)
    requires x in m <==> x in m0 || VerticalAt(es, x) != []
    ensures Lookup(FileEdge(m, e), x) == Lookup(m0, x) + VerticalAt(es + [e], x)
    ensures x in FileEdge(m, e) <==> x in m0 || VerticalAt(es + [e], x) != []
  {
    VerticalAtAppend(es, e, x);
    if IsVerticalAt(e, x) {
      assert Lookup(m0, x) + VerticalAt(es, x) + [e] == Lookup(m0, x) + (VerticalAt(es, x) + [e]);
    }
  }

  /** Filing one more edge under its x keeps the index up to date. */
  lemma FileVertical(m: map<int, seq<Segment>>, m0: map<int, seq<Segment>>, es: seq<Segment>, e: Segment)
    requires IndexesVertical(m, m0, es)
    ensures IndexesVertical(FileEdge(m, e), m0, es + [e])
  {
    forall x
      ensures Lookup(FileEdge(m, e), x) == Lookup(m0, x) + VerticalAt(es + [e], x)
      ensures x in FileEdge(m, e) <==> x in m0 || VerticalAt(es + [e], x) != []
    {
      FileVerticalAt(m, m0, es, e, x);
    }
  }

  /** The index m0 after filing the first k edges of the polygon pts, in order. */
  function IndexUpTo(m0: map<int, seq<Segment>>, pts: seq<Point>, k: nat): map<int, seq<Segment>>
    requires k <= |pts|
  {
    if k == 0 then m0 else FileEdge(IndexUpTo(m0, pts, k - 1), EdgeAt(pts, k - 1))
  }

  lemma {:induction false} IndexUpToIndexes(m0: map<int, seq<Segment>>, pts: seq<Point>, k: nat)
    requires k <= |pts|
    ensures IndexesVertical(IndexUpTo(m0, pts, k), m0, EdgesUpTo(pts, k))
  {
    if k > 0 {
      IndexUpToIndexes(m0, pts, k - 1);
      FileVertical(IndexUpTo(m0, pts, k - 1), m0, EdgesUpTo(pts, k - 1), EdgeAt(pts, k - 1));
    }
  }

  /** Edge i of pts with the position that Polygon::setEdges attaches. */
  function PositionedEdgeAt(pts: seq<Point>, i: nat): Segment
    requires i < |pts|
  {
    var e := EdgeAt(pts, i);
    e.(position := Some(Classify(e.left, e.right)))
  }

  function PositionedUpTo(pts: seq<Point>, k: nat): (es: seq<Segment>)
    requires k <= |pts|
    ensures |es| == k
    ensures forall i :: 0 <= i < k ==> es[i] == PositionedEdgeAt(pts, i)
  {
    if k == 0 then [] else PositionedUpTo(pts, k - 1) + [PositionedEdgeAt(pts, k - 1)]
  }

  lemma PositionStep(es: seq<Segment>, es0: seq<Segment>, pts: seq<Point>, i: nat)
    requires i < |pts| && es == es0 + PositionedUpTo(pts, i)
    ensures es + [PositionedEdgeAt(pts, i)] == es0 + PositionedUpTo(pts, i + 1)
  {
  }

  /** One pass of Polygon.setEdges' loop: edge i with its position, and the
      edge filed under its abscissa when it is vertical. */
  method FileNextEdge(pts: seq<Point>, i: nat, es: seq<Segment>, vert: map<int, seq<Segment>>,
                      ghost es0: seq<Segment>, ghost vert0: map<int, seq<Segment>>)
    returns (es1: seq<Segment>, vert1: map<int, seq<Segment>>)
    requires i < |pts|
    requires vert == IndexUpTo(vert0, pts, i)
    requires es == es0 + PositionedUpTo(pts, i)
    ensures vert1 == IndexUpTo(vert0, pts, i + 1)
    ensures es1 == es0 + PositionedUpTo(pts, i + 1)
  {
    var n := |pts|;
    var e := Segment(pts[i], pts[(i + 1) % n], i, None);
    assert e == EdgeAt(pts, i);
    vert1 := vert;
    if pts[i].x == pts[(i + 1) % n].x {
      vert1 := vert[pts[i].x := Lookup(vert, pts[i].x) + [e]];
    }
    var position := Classify(e.left, e.right);
    PositionStep(es, es0, pts, i);
    es1 := es + [e.(position := Some(position))];
  }

  function PositionedEdges(pts: seq<Point>): seq<Segment> {
    PositionedUpTo(pts, |pts|)
  }

  // ---------------------------------------------------------------------
  // The polygon container

  class Polygon {
    var points: seq<Point>
    var edges: seq<Segment>
    var verticalEdges: map<int, seq<Segment>>
    var vertices: multiset<Point>

    constructor Empty()
      ensures points == [] && edges == [] && verticalEdges == map[] && vertices == multiset{}
    {
      points, edges, verticalEdges, vertices := [], [], map[], multiset{};
    }

    /** Keeps the points in order and files every one of them in the vertex set. */
    constructor (pts: seq<Point>)
      ensures points == pts && edges == [] && verticalEdges == map[]
      ensures vertices == multiset(pts)
    {
      var vs: multiset<Point> := multiset{};
      var i := 0;
      while i < |pts|
        invariant 0 <= i <= |pts|
        invariant vs == multiset(pts[..i])
      {
        vs := vs + multiset{pts[i]};
        assert pts[..i + 1] == pts[..i] + [pts[i]];
        i := i + 1;
      }
      assert pts[..|pts|] == pts;
      points, edges, verticalEdges, vertices := pts, [], map[], vs;
    }

    /** Appends one edge per cyclic pair of points, with its position, and
        files the vertical ones (before their position is set) by x. */
    method SetEdges()
      modifies this`edges, this`verticalEdges
      ensures edges == old(edges) + PositionedEdges(points)
      ensures verticalEdges == IndexUpTo(old(verticalEdges), points, |points|)
      ensures IndexesVertical(verticalEdges, old(verticalEdges), EdgesOf(points))
    {
      var pts, es, vert := points, edges, verticalEdges;
      ghost var es0, vert0 := es, vert;
      var n := |pts|;
      var i := 0;
      while i < n
        invariant 0 <= i <= n
        invariant vert == IndexUpTo(vert0, pts, i)
        invariant es == es0 + PositionedUpTo(pts, i)
      {
        es, vert := FileNextEdge(pts, i, es, vert, es0, vert0);
        i := i + 1;
      }
      IndexUpToIndexes(vert0, pts, n);
      edges, verticalEdges := es, vert;
    }

    /** The shoelace sum of the points: twice the signed area. */
    method Square() returns (sq: int)
      ensures sq == Shoelace(points)
    {
      sq := 0;
      var pts := points;
      var n := |pts|;
      var i := 0;
      while i < n
        invariant 0 <= i <= n
        invariant sq == ShoelaceUpTo(pts, i)
      {
        var next := (i + 1) % n;
        assert next == if i + 1 < n then i + 1 else 0;
        sq := sq + Cross(pts[i], pts[next]);
        i := i + 1;
      }
    }

    /** Reverses the points, which negates the shoelace sum. */
    method RevertOrder()
      modifies this`points
      ensures points == Reverse(old(points))
      ensures Shoelace(points) == -Shoelace(old(points))
    {
      ShoelaceReverse(points);
      points := ReverseInPlace(points);
    }
  }
}
