/**
  How much two boxes overlap, as intersection over union. Boxes have exact real coordinates.
*/
module Overlap {
  datatype Box = Box(x1: real, y1: real, x2: real, y2: real)

  function Max(a: real, b: real): real {
    if a >= b then a else b
  }

  function Min(a: real, b: real): real {
    if a <= b then a else b
  }

  function Area(b: Box): real {
    (b.x2 - b.x1) * (b.y2 - b.y1)
  }

  function Intersection(a: Box, b: Box): Box {
    Box(Max(a.x1, b.x1), Max(a.y1, b.y1), Min(a.x2, b.x2), Min(a.y2, b.y2))
  }

  function Iou(a: Box, b: Box): real {
    var i := Intersection(a, b);
    if i.x2 <= i.x1 || i.y2 <= i.y1 then 0.0
    else
      var union := Area(a) + Area(b) - Area(i);
      if union <= 0.0 then 0.0 else Area(i) / union
  }

  predicate Proper(b: Box) {
    b.x1 < b.x2 && b.y1 < b.y2
  }

  lemma IouIsSymmetric(a: Box, b: Box)
    ensures Iou(a, b) == Iou(b, a)
  {
    assert Intersection(a, b) == Intersection(b, a);
  }

  lemma ProductGrows(a: real, b: real, c: real, d: real)
    requires 0.0 < a <= c && 0.0 < b <= d
    ensures 0.0 < a * b <= c * d
  {
    assert a * b <= c * b;
    assert c * b <= c * d;
  }

  /** A proper box within another has the smaller area. */
  lemma AreaGrows(i: Box, a: Box)
    requires Proper(i) && i.x2 - i.x1 <= a.x2 - a.x1 && i.y2 - i.y1 <= a.y2 - a.y1
    ensures 0.0 < Area(i) <= Area(a)
  {
    ProductGrows(i.x2 - i.x1, i.y2 - i.y1, a.x2 - a.x1, a.y2 - a.y1);
  }

  lemma IntersectionFits(a: Box, b: Box)
    ensures var i := Intersection(a, b);
            && i.x2 - i.x1 <= a.x2 - a.x1 && i.y2 - i.y1 <= a.y2 - a.y1
            && i.x2 - i.x1 <= b.x2 - b.x1 && i.y2 - i.y1 <= b.y2 - b.y1
  {
  }

  lemma Ratio(p: real, q: real, r: real)
    requires 0.0 < p <= q && p <= r
    ensures 0.0 < q + r - p && 0.0 < p / (q + r - p) <= 1.0
  {
    Quotient(p, q + r - p);
  }

  lemma Quotient(p: real, q: real)
    requires 0.0 < p <= q
    ensures 0.0 < p / q <= 1.0
  {
  }

  /** For proper boxes the ratio lies between 0 and 1. */
  lemma IouRange(a: Box, b: Box)
    requires Proper(a) && Proper(b)
    ensures 0.0 <= Iou(a, b) <= 1.0
  {
    var i := Intersection(a, b);
    if Proper(i) {
      IntersectionFits(a, b);
      AreaGrows(i, a);
      AreaGrows(i, b);
      Ratio(Area(i), Area(a), Area(b));
    }
  }

  // ---------------------------------------------------------------- what the ratio means

  /** A box holds its lower edges and not its upper ones, so that boxes side by side share no point. */
  predicate Inside(x: real, y: real, b: Box) {
    b.x1 <= x < b.x2 && b.y1 <= y < b.y2
  }

  function Hit(b: Box, x: real, y: real): nat {
    if Inside(x, y, b) then 1 else 0
  }

  /** How many of the boxes hold the point. */
  function Hits(bs: seq<Box>, x: real, y: real): nat {
    if bs == [] then 0 else Hit(bs[0], x, y) + Hits(bs[1..], x, y)
  }

  function TotalArea(bs: seq<Box>): real {
    if bs == [] then 0.0 else Area(bs[0]) + TotalArea(bs[1..])
  }

  /** No box is turned inside out, which would make its area count against the others. */
  predicate Upright(bs: seq<Box>) {
    forall i | 0 <= i < |bs| :: bs[i].x1 <= bs[i].x2 && bs[i].y1 <= bs[i].y2
  }

  /** Boxes that hold every point of either once, and no other point. */
  ghost predicate CoverEither(bs: seq<Box>, a: Box, b: Box) {
    Upright(bs) && forall x: real, y: real :: Hits(bs, x, y) == if Inside(x, y, a) || Inside(x, y, b) then 1 else 0
  }

  /** Boxes that hold every point of both once, and no other point. */
  ghost predicate CoverBoth(bs: seq<Box>, a: Box, b: Box) {
    Upright(bs) && forall x: real, y: real :: Hits(bs, x, y) == if Inside(x, y, a) && Inside(x, y, b) then 1 else 0
  }

  // Cut the plane along all edges into cells: a box is made of whole cells, and a cell is hit as often as its corner.

  predicate Ascending(xs: seq<real>) {
    forall i, j | 0 <= i < j < |xs| :: xs[i] <= xs[j]
  }

  /** The steps of `xs` that start between the two bounds. */
  function Span(lo: real, hi: real, xs: seq<real>): real {
    if |xs| < 2 then 0.0 else (if lo <= xs[0] < hi then xs[1] - xs[0] else 0.0) + Span(lo, hi, xs[1..])
  }

  function Times(d: real, n: real): real {
    d * n
  }

  function Column(bs: seq<Box>, x: real, ys: seq<real>): real {
    if |ys| < 2 then 0.0 else Times(ys[1] - ys[0], Hits(bs, x, ys[0]) as real) + Column(bs, x, ys[1..])
  }

  function Cells(bs: seq<Box>, xs: seq<real>, ys: seq<real>): real {
    if |xs| < 2 then 0.0 else Times(xs[1] - xs[0], Column(bs, xs[0], ys)) + Cells(bs, xs[1..], ys)
  }

  lemma {:induction false} SpanAfter(lo: real, hi: real, xs: seq<real>)
    requires Ascending(xs) && xs != [] && hi <= xs[0]
    ensures Span(lo, hi, xs) == 0.0
  {
    if |xs| > 1 { SpanAfter(lo, hi, xs[1..]); }
  }

  lemma {:induction false} SpanFrom(lo: real, hi: real, xs: seq<real>)
    requires Ascending(xs) && xs != [] && lo <= xs[0] && hi in xs
    ensures Span(lo, hi, xs) == hi - xs[0]
  {
    if xs[0] == hi {
      SpanAfter(lo, hi, xs);
    } else {
      assert hi in xs[1..];
      SpanFrom(lo, hi, xs[1..]);
    }
  }

  lemma {:induction false} SpanIs(lo: real, hi: real, xs: seq<real>)
    requires Ascending(xs) && lo in xs && hi in xs && lo <= hi
    ensures Span(lo, hi, xs) == hi - lo
  {
    if xs[0] == lo {
      SpanFrom(lo, hi, xs);
    } else {
      assert lo in xs[1..] && hi in xs[1..];
      SpanIs(lo, hi, xs[1..]);
    }
  }

  lemma {:induction false} ColumnOfOne(b: Box, x: real, ys: seq<real>)
    ensures Column([b], x, ys) == if b.x1 <= x < b.x2 then Span(b.y1, b.y2, ys) else 0.0
  {
    if |ys| > 1 {
      ColumnOfOne(b, x, ys[1..]);
      HitsOne(b, x, ys[0]);
    }
  }

  lemma HitsOne(b: Box, x: real, y: real)
    ensures Hits([b], x, y) == Hit(b, x, y)
  {
  }

  lemma {:induction false} CellsOfOne(b: Box, xs: seq<real>, ys: seq<real>)
    ensures Cells([b], xs, ys) == Span(b.x1, b.x2, xs) * Span(b.y1, b.y2, ys)
  {
    hide Column;
    if |xs| > 1 {
      CellsOfOne(b, xs[1..], ys);
      ColumnOfOne(b, xs[0], ys);
      var w, rest, h := xs[1] - xs[0], Span(b.x1, b.x2, xs[1..]), Span(b.y1, b.y2, ys);
      assert (w + rest) * h == w * h + rest * h;
    }
  }

  lemma Distribute(d: real, m: real, n: real)
    ensures Times(d, m + n) == Times(d, m) + Times(d, n)
  {
  }

  lemma {:induction false} ColumnNext(bs: seq<Box>, x: real, ys: seq<real>)
    requires bs != []
    ensures Column(bs, x, ys) == Column([bs[0]], x, ys) + Column(bs[1..], x, ys)
  {
    if |ys| > 1 {
      hide Hit, Times;
      ColumnNext(bs, x, ys[1..]);
      HitsOne(bs[0], x, ys[0]);
      Distribute(ys[1] - ys[0], Hit(bs[0], x, ys[0]) as real, Hits(bs[1..], x, ys[0]) as real);
    }
  }

  lemma {:induction false} CellsNext(bs: seq<Box>, xs: seq<real>, ys: seq<real>)
    requires bs != []
    ensures Cells(bs, xs, ys) == Cells([bs[0]], xs, ys) + Cells(bs[1..], xs, ys)
  {
    hide Column, Times;
    if |xs| > 1 {
      CellsNext(bs, xs[1..], ys);
      ColumnNext(bs, xs[0], ys);
      Distribute(xs[1] - xs[0], Column([bs[0]], xs[0], ys), Column(bs[1..], xs[0], ys));
    }
  }

  lemma {:induction false} CellsOfNone(xs: seq<real>, ys: seq<real>)
    ensures Cells([], xs, ys) == 0.0
  {
    if |xs| > 1 {
      ColumnOfNone(xs[0], ys);
      CellsOfNone(xs[1..], ys);
    }
  }

  lemma {:induction false} ColumnOfNone(x: real, ys: seq<real>)
    ensures Column([], x, ys) == 0.0
  {
    if |ys| > 1 { ColumnOfNone(x, ys[1..]); }
  }

  ghost predicate OnGrid(bs: seq<Box>, xs: seq<real>, ys: seq<real>) {
    && Ascending(xs) && Ascending(ys)
    && forall i | 0 <= i < |bs| :: bs[i].x1 in xs && bs[i].x2 in xs && bs[i].y1 in ys && bs[i].y2 in ys
  }

  lemma {:induction false} CellsAreTheArea(bs: seq<Box>, xs: seq<real>, ys: seq<real>)
    requires Upright(bs) && OnGrid(bs, xs, ys)
    ensures Cells(bs, xs, ys) == TotalArea(bs)
  {
    hide Cells, Span, Ascending;
    if bs == [] {
      CellsOfNone(xs, ys);
    } else {
      var b := bs[0];
      CellsNext(bs, xs, ys);
      CellsOfOne(b, xs, ys);
      SpanIs(b.x1, b.x2, xs);
      SpanIs(b.y1, b.y2, ys);
      CellsAreTheArea(bs[1..], xs, ys);
    }
  }

  lemma {:induction false} SameColumn(a: seq<Box>, b: seq<Box>, x: real, ys: seq<real>)
    requires forall y: real :: Hits(a, x, y) == Hits(b, x, y)
    ensures Column(a, x, ys) == Column(b, x, ys)
  {
    if |ys| > 1 { SameColumn(a, b, x, ys[1..]); }
  }

  lemma {:induction false} SameCells(a: seq<Box>, b: seq<Box>, xs: seq<real>, ys: seq<real>)
    requires forall x: real, y: real :: Hits(a, x, y) == Hits(b, x, y)
    ensures Cells(a, xs, ys) == Cells(b, xs, ys)
  {
    hide Column, Times;
    if |xs| > 1 {
      SameColumn(a, b, xs[0], ys);
      SameCells(a, b, xs[1..], ys);
    }
  }

  lemma {:induction false} WithEdge(xs: seq<real>, x: real) returns (r: seq<real>)
    requires Ascending(xs)
    ensures Ascending(r) && x in r && forall e | e in xs :: e in r
    ensures forall e | e in r :: e == x || e in xs
  {
    if xs == [] || x <= xs[0] {
      r := [x] + xs;
    } else {
      var rest := WithEdge(xs[1..], x);
      r := [xs[0]] + rest;
      forall i | 0 <= i < |rest| ensures xs[0] <= rest[i] { assert rest[i] in rest; }
    }
  }

  lemma {:induction false} GridOf(bs: seq<Box>) returns (xs: seq<real>, ys: seq<real>)
    ensures OnGrid(bs, xs, ys)
  {
    xs, ys := [], [];
    if bs != [] {
      xs, ys := GridOf(bs[1..]);
      xs := WithEdge(xs, bs[0].x1);
      xs := WithEdge(xs, bs[0].x2);
      ys := WithEdge(ys, bs[0].y1);
      ys := WithEdge(ys, bs[0].y2);
    }
  }

  /** Boxes that hold the same points equally often have the same area in all. */
  lemma AreaIsWellDefined(a: seq<Box>, b: seq<Box>)
    requires Upright(a) && Upright(b) && forall x: real, y: real :: Hits(a, x, y) == Hits(b, x, y)
    ensures TotalArea(a) == TotalArea(b)
  {
    var xs, ys := GridOf(a + b);
    assert forall i | 0 <= i < |a| :: a[i] == (a + b)[i];
    assert forall i | 0 <= i < |b| :: b[i] == (a + b)[|a| + i];
    CellsAreTheArea(a, xs, ys);
    CellsAreTheArea(b, xs, ys);
    SameCells(a, b, xs, ys);
  }

  lemma {:induction false} Join(a: seq<Box>, b: seq<Box>)
    ensures TotalArea(a + b) == TotalArea(a) + TotalArea(b)
    ensures forall x: real, y: real :: Hits(a + b, x, y) == Hits(a, x, y) + Hits(b, x, y)
  {
    if a == [] {
      assert a + b == b;
    } else {
      assert (a + b)[1..] == a[1..] + b;
      Join(a[1..], b);
    }
  }

  lemma CommonPoints(a: Box, b: Box, x: real, y: real)
    ensures Inside(x, y, Intersection(a, b)) <==> Inside(x, y, a) && Inside(x, y, b)
  {
  }

  lemma HitsTwo(a: Box, b: Box, x: real, y: real)
    ensures Hits([a, b], x, y) == Hit(a, x, y) + Hit(b, x, y)
  {
    assert [a, b][1..] == [b];
    HitsOne(b, x, y);
  }

  /** Both regions together are the two boxes. */
  lemma RegionsAddUp(a: Box, b: Box, either: seq<Box>, both: seq<Box>)
    requires Proper(a) && Proper(b) && CoverEither(either, a, b) && CoverBoth(both, a, b)
    ensures TotalArea(either) + TotalArea(both) == Area(a) + Area(b)
  {
    hide Inside, Area;
    Join(either, both);
    forall x: real, y: real ensures Hits(either + both, x, y) == Hits([a, b], x, y) { HitsTwo(a, b, x, y); }
    AreaIsWellDefined(either + both, [a, b]);
    assert [a, b] == [a] + [b];
    Join([a], [b]);
  }

  function Common(a: Box, b: Box): seq<Box> {
    if Proper(Intersection(a, b)) then [Intersection(a, b)] else []
  }

  lemma BothIsTheIntersection(a: Box, b: Box, both: seq<Box>)
    requires Proper(a) && Proper(b) && CoverBoth(both, a, b)
    ensures TotalArea(both) == TotalArea(Common(a, b))
  {
    hide Intersection;
    forall x: real, y: real ensures Hits(both, x, y) == Hits(Common(a, b), x, y) {
      CommonPoints(a, b, x, y);
      HitsOne(Intersection(a, b), x, y);
    }
    AreaIsWellDefined(both, Common(a, b));
  }

  /**
    For proper boxes the ratio is the area covered by both over the area covered by either, into
    whatever boxes the two regions are cut.
  */
  lemma IouIsOverlap(a: Box, b: Box, either: seq<Box>, both: seq<Box>)
    requires Proper(a) && Proper(b) && CoverEither(either, a, b) && CoverBoth(both, a, b)
    ensures TotalArea(either) > 0.0 && Iou(a, b) * TotalArea(either) == TotalArea(both)
  {
    hide Iou, Intersection, Area, CoverEither, CoverBoth;
    RegionsAddUp(a, b, either, both);
    BothIsTheIntersection(a, b, both);
    IouFromAreas(a, b);
  }

  lemma IouFromAreas(a: Box, b: Box)
    requires Proper(a) && Proper(b)
    ensures var common := TotalArea(Common(a, b));
            0.0 < Area(a) + Area(b) - common && Iou(a, b) * (Area(a) + Area(b) - common) == common
  {
    var i := Intersection(a, b);
    AreaGrows(a, a);
    AreaGrows(b, b);
    if Proper(i) {
      IntersectionFits(a, b);
      AreaGrows(i, a);
      AreaGrows(i, b);
      Ratio(Area(i), Area(a), Area(b));
    }
  }

  /** What is left of `b` once `i` is cut out of it: a strip at each side, and one below and one above. */
  function Around(b: Box, i: Box): seq<Box> {
    [Box(b.x1, b.y1, i.x1, b.y2), Box(i.x2, b.y1, b.x2, b.y2),
     Box(i.x1, b.y1, i.x2, i.y1), Box(i.x1, i.y2, i.x2, b.y2)]
  }

  /** The two regions can always be cut so. */
  lemma CoversExist(a: Box, b: Box) returns (either: seq<Box>, both: seq<Box>)
    requires Proper(a) && Proper(b)
    ensures CoverEither(either, a, b) && CoverBoth(both, a, b)
  {
    var i := Intersection(a, b);
    if Proper(i) {
      either, both := [a] + Around(b, i), [i];
      forall x: real, y: real
        ensures Hits(either, x, y) == if Inside(x, y, a) || Inside(x, y, b) then 1 else 0
      {
        Join([a], Around(b, i));
        HitsOne(a, x, y);
        AroundIsTheRest(b, i, x, y);
        CommonPoints(a, b, x, y);
      }
    } else {
      either, both := [a, b], [];
      forall x: real, y: real
        ensures Hits(either, x, y) == if Inside(x, y, a) || Inside(x, y, b) then 1 else 0
      {
        HitsTwo(a, b, x, y);
        CommonPoints(a, b, x, y);
      }
    }
    forall x: real, y: real ensures Hits(both, x, y) == if Inside(x, y, a) && Inside(x, y, b) then 1 else 0 {
      HitsOne(i, x, y);
      CommonPoints(a, b, x, y);
    }
  }

  lemma HitsFour(s: seq<Box>, x: real, y: real)
    requires |s| == 4
    ensures Hits(s, x, y) == Hit(s[0], x, y) + Hit(s[1], x, y) + Hit(s[2], x, y) + Hit(s[3], x, y)
  {
    assert s[1..][1..] == s[2..] && s[2..][1..] == s[3..] && s[3..][1..] == [];
    assert Hits(s[3..], x, y) == Hit(s[3], x, y);
    assert Hits(s[2..], x, y) == Hit(s[2], x, y) + Hit(s[3], x, y);
  }

  lemma AroundIsTheRest(b: Box, i: Box, x: real, y: real)
    requires Proper(i) && b.x1 <= i.x1 && i.x2 <= b.x2 && b.y1 <= i.y1 && i.y2 <= b.y2
    ensures Hits(Around(b, i), x, y) == if Inside(x, y, b) && !Inside(x, y, i) then 1 else 0
  {
    HitsFour(Around(b, i), x, y);
  }

  // ---------------------------------------------------------------- its values

  /** 1 for equal boxes, and for no others. */
  lemma OneIffEqual(a: Box, b: Box)
    requires Proper(a) && Proper(b)
    ensures Iou(a, b) == 1.0 <==> a == b
  {
    hide Iou;
    var i := Intersection(a, b);
    IouFromAreas(a, b);
    AreaGrows(a, a);
    if Proper(i) {
      IntersectionFits(a, b);
      AreaGrows(i, a);
      AreaGrows(i, b);
      if Iou(a, b) == 1.0 {
        assert Area(i) == Area(a) == Area(b);
        SameArea(i, a);
        SameArea(i, b);
      }
    }
  }

  lemma Thicker(w: real, w': real, h: real, h': real)
    requires 0.0 < w <= w' && 0.0 < h <= h'
    ensures w < w' ==> w * h < w' * h'
  {
    assert w * h <= w * h' <= w' * h';
    if w < w' { assert w * h' < w' * h'; }
  }

  /** A proper box cannot lie within another of the same area without being it. */
  lemma SameArea(i: Box, a: Box)
    requires Proper(i) && i.x2 - i.x1 <= a.x2 - a.x1 && i.y2 - i.y1 <= a.y2 - a.y1 && Area(i) == Area(a)
    ensures i.x2 - i.x1 == a.x2 - a.x1 && i.y2 - i.y1 == a.y2 - a.y1
  {
    Thicker(i.x2 - i.x1, a.x2 - a.x1, i.y2 - i.y1, a.y2 - a.y1);
    Thicker(i.y2 - i.y1, a.y2 - a.y1, i.x2 - i.x1, a.x2 - a.x1);
  }

  /** Strictly inside, not on an edge. */
  predicate StrictlyInside(x: real, y: real, b: Box) {
    b.x1 < x < b.x2 && b.y1 < y < b.y2
  }

  /** 0 exactly when no point lies strictly inside both. */
  lemma ZeroIffApart(a: Box, b: Box)
    requires Proper(a) && Proper(b)
    ensures Iou(a, b) == 0.0 <==>
            !exists x: real, y: real :: StrictlyInside(x, y, a) && StrictlyInside(x, y, b)
  {
    hide Iou;
    var i := Intersection(a, b);
    if Proper(i) {
      var x, y := (i.x1 + i.x2) / 2.0, (i.y1 + i.y2) / 2.0;
      assert StrictlyInside(x, y, a) && StrictlyInside(x, y, b);
      AreaGrows(i, i);
    }
    IouFromAreas(a, b);
  }

  /** A box within another overlaps it by its share of the area. */
  lemma WithinIsTheShare(a: Box, b: Box)
    requires Proper(a) && b.x1 <= a.x1 && a.x2 <= b.x2 && b.y1 <= a.y1 && a.y2 <= b.y2
    ensures Iou(a, b) * ((b.x2 - b.x1) * (b.y2 - b.y1)) == (a.x2 - a.x1) * (a.y2 - a.y1)
  {
    assert Intersection(a, b) == a;
    AreaGrows(a, b);
  }
}
