/**
  Cutting a large image into overlapping tiles and merging what was detected in them: where tiles
  start, what they cover, and how boxes travel between a tile and the image.
*/
module Tiles {
  import opened Nms
  import opened Overlap
  import opened Wrappers

  // ---------------------------------------------------------------- one axis

  predicate Increasing(ps: seq<int>) {
    forall i, j | 0 <= i < j < |ps| :: ps[i] < ps[j]
  }

  /**
    Starts from 0 in steps of at most `stride`, the last tile flush with the far edge when the axis is
    longer than a tile.
  */
  predicate Covers(ps: seq<int>, length: int, size: int, stride: int) {
    && ps != [] && ps[0] == 0 && Increasing(ps)
    && (forall i | 1 <= i < |ps| :: ps[i] - ps[i - 1] <= stride)
    && (if size < length then ps[|ps| - 1] == length - size else |ps| == 1)
  }

  /** The step between tiles, truncated toward zero; `overlap` is the fraction shared by neighbours. */
  function Stride(size: int, overlap: real): (s: int)
    ensures s >= 1
  {
    var exact := size as real * (1.0 - overlap);
    var whole := if exact >= 0.0 then exact.Floor else -((-exact).Floor);
    if whole > 1 then whole else 1
  }

  /** The stride is the largest whole number of pixels within the part of a tile not shared, and at least 1. */
  lemma StrideIs(size: int, overlap: real)
    ensures var own, s := size as real * (1.0 - overlap), Stride(size, overlap);
            if own >= 1.0 then s as real <= own < (s + 1) as real else s == 1
  {
  }

  /** Any overlap between none and all of a tile gives a stride no longer than the tile. */
  lemma StrideAtMostSize(size: int, overlap: real)
    requires size >= 1 && 0.0 <= overlap <= 1.0
    ensures 1 <= Stride(size, overlap) <= size
  {
    var x, f := size as real, 1.0 - overlap;
    assert x * f <= x * 1.0;
    assert 0.0 <= x * f;
    assert (x * f).Floor as real <= x * f;
  }

  function Elements(ps: seq<int>): set<int> {
    set p | p in ps
  }

  /** A strictly increasing list is what sorting the set of its elements returns. */
  lemma {:induction false} SortedSetIsList(ps: seq<int>, qs: seq<int>)
    requires Increasing(ps) && Increasing(qs) && Elements(ps) == Elements(qs)
    ensures ps == qs
    decreases |ps|
  {
    SameEmptiness(ps, qs);
    if ps != [] {
      var p, q := ps[|ps| - 1], qs[|qs| - 1];
      LastIsLargest(ps, qs);
      LastIsLargest(qs, ps);
      Chopped(ps);
      Chopped(qs);
      SortedSetIsList(ps[..|ps| - 1], qs[..|qs| - 1]);
      assert ps == ps[..|ps| - 1] + [p] && qs == qs[..|qs| - 1] + [q];
    }
  }

  lemma LastIsLargest(ps: seq<int>, qs: seq<int>)
    requires ps != [] && qs != [] && Increasing(ps) && Elements(ps) == Elements(qs)
    ensures qs[|qs| - 1] <= ps[|ps| - 1]
  {
    var q := qs[|qs| - 1];
    assert q in Elements(ps);
    var i :| 0 <= i < |ps| && ps[i] == q;
    if i < |ps| - 1 { assert ps[i] < ps[|ps| - 1]; }
  }

  lemma SameEmptiness(ps: seq<int>, qs: seq<int>)
    requires Elements(ps) == Elements(qs)
    ensures ps == [] <==> qs == []
  {
    if ps != [] { assert ps[0] in Elements(qs); }
    if qs != [] { assert qs[0] in Elements(ps); }
  }

  lemma Chopped(ps: seq<int>)
    requires ps != [] && Increasing(ps)
    ensures Elements(ps[..|ps| - 1]) == Elements(ps) - {ps[|ps| - 1]}
  {
    var front, last := ps[..|ps| - 1], ps[|ps| - 1];
    assert ps == front + [last];
  }

  method GetPositions(length: int, size: int, stride: int) returns (positions: seq<int>)
    requires stride >= 1
    ensures Covers(positions, length, size, stride)
    ensures forall i | 1 <= i < |positions| - 1 :: positions[i] - positions[i - 1] == stride
  {
    positions := [0];
    var pos := 0;
    while pos + size < length
      invariant positions != [] && positions[0] == 0 && Increasing(positions)
      invariant positions[|positions| - 1] == pos
      invariant forall i | 1 <= i < |positions| :: positions[i] - positions[i - 1] == stride
      invariant length <= size ==> |positions| == 1
      invariant size < length ==> pos <= length - size
      decreases length - size - pos
    {
      pos := pos + stride;
      if pos + size >= length {
        positions := positions + [length - size];
        break;
      }
      positions := positions + [pos];
    }
  }

  /** The interval [a, a + n) lies within the tile starting at p. */
  predicate Within(p: int, size: int, a: int, n: int) {
    p <= a && a + n <= p + size
  }

  /** The tile for a point: the last one starting at or before it. */
  lemma {:induction false} StartBefore(ps: seq<int>, a: int) returns (i: nat)
    requires ps != [] && ps[0] <= a && Increasing(ps)
    ensures i < |ps| && ps[i] <= a && (i + 1 < |ps| ==> a < ps[i + 1])
    decreases |ps|
  {
    if ps[|ps| - 1] <= a {
      i := |ps| - 1;
    } else {
      i := StartBefore(ps[..|ps| - 1], a);
    }
  }

  /** Tiles lie inside the image, and every short enough interval lies wholly inside one of them. */
  lemma IntervalInOneTile(ps: seq<int>, length: int, size: int, stride: int, a: int, n: int) returns (i: nat)
    requires Covers(ps, length, size, stride)
    requires 0 <= a && 0 <= n && a + n <= length
    requires n <= size - stride + 1 || length <= size
    ensures i < |ps| && Within(ps[i], size, a, n)
  {
    i := StartBefore(ps, a);
    if i + 1 < |ps| { assert ps[i + 1] - ps[i] <= stride; }
  }

  lemma TilesInside(ps: seq<int>, length: int, size: int, stride: int, i: nat)
    requires Covers(ps, length, size, stride) && size <= length && i < |ps|
    ensures 0 <= ps[i] && ps[i] + size <= length
  {
    if i < |ps| - 1 { assert ps[i] < ps[|ps| - 1]; }
    if 0 < i { assert ps[0] < ps[i]; }
  }

  /** The bound is sharp: when some gap is exactly the stride, an interval one longer fits no tile. */
  lemma LongerMayNotFit(ps: seq<int>, length: int, size: int, stride: int, i: nat)
    requires Covers(ps, length, size, stride) && i + 1 < |ps| && ps[i + 1] - ps[i] == stride && 1 < stride <= size
    ensures forall j | 0 <= j < |ps| :: !Within(ps[j], size, ps[i + 1] - 1, size - stride + 2)
  {
    forall j | 0 <= j < |ps| ensures !Within(ps[j], size, ps[i + 1] - 1, size - stride + 2) {
      if j > i + 1 { assert ps[i + 1] < ps[j]; }
      if j < i { assert ps[j] < ps[i]; }
    }
  }

  // ---------------------------------------------------------------- two axes

  datatype Tile = Tile(x: int, y: int, width: int, height: int)

  datatype Size = Size(width: int, height: int)

  function Row(xs: seq<int>, y: int, size: Size): (r: seq<Tile>)
    ensures |r| == |xs| && forall i | 0 <= i < |xs| :: r[i] == Tile(xs[i], y, size.width, size.height)
  {
    seq(|xs|, i requires 0 <= i < |xs| => Tile(xs[i], y, size.width, size.height))
  }

  /** Rows top to bottom, and in each row left to right. */
  function Grid(xs: seq<int>, ys: seq<int>, size: Size): seq<Tile> {
    if ys == [] then [] else Grid(xs, ys[..|ys| - 1], size) + Row(xs, ys[|ys| - 1], size)
  }

  /** The grid is every pairing of a column with a row, once when the starts are distinct. */
  lemma {:induction false} GridIsProduct(xs: seq<int>, ys: seq<int>, size: Size)
    requires Increasing(xs) && Increasing(ys)
    ensures forall t :: t in Grid(xs, ys, size) <==>
                          t.x in xs && t.y in ys && t.width == size.width && t.height == size.height
    ensures forall i, j | 0 <= i < j < |Grid(xs, ys, size)| :: Grid(xs, ys, size)[i] != Grid(xs, ys, size)[j]
    decreases |ys|
  {
    if ys != [] {
      var front, y := ys[..|ys| - 1], ys[|ys| - 1];
      var before, row := Grid(xs, front, size), Row(xs, y, size);
      GridIsProduct(xs, front, size);
      assert ys == front + [y] && y !in front;
      forall t: Tile | t.x in xs && t.y == y && t.width == size.width && t.height == size.height ensures t in row {
        var i :| 0 <= i < |xs| && xs[i] == t.x;
        assert row[i] == t;
      }
    }
  }

  /** Rows outermost: tile `i` of row `j` comes after `j` whole rows and `i` tiles. */
  lemma {:induction false} GridIsRowByRow(xs: seq<int>, ys: seq<int>, size: Size, i: nat, j: nat)
    requires i < |xs| && j < |ys|
    ensures |Grid(xs, ys, size)| == |ys| * |xs| && 0 <= j * |xs| + i < |ys| * |xs|
    ensures Grid(xs, ys, size)[j * |xs| + i] == Tile(xs[i], ys[j], size.width, size.height)
    decreases |ys|
  {
    var n := |ys| - 1;
    GridSize(xs, ys[..n], size);
    GridSize(xs, ys, size);
    if j < n {
      GridIsRowByRow(xs, ys[..n], size, i, j);
      assert ys[..n][j] == ys[j];
    }
  }

  lemma {:induction false} GridSize(xs: seq<int>, ys: seq<int>, size: Size)
    ensures |Grid(xs, ys, size)| == |ys| * |xs|
    decreases |ys|
  {
    if ys != [] { GridSize(xs, ys[..|ys| - 1], size); }
  }

  method Slice(image: Size, tile: Size, overlap: real) returns (tiles: seq<Tile>, xs: seq<int>, ys: seq<int>)
    ensures Covers(xs, image.width, tile.width, Stride(tile.width, overlap))
    ensures Covers(ys, image.height, tile.height, Stride(tile.height, overlap))
    ensures forall i | 1 <= i < |xs| - 1 :: xs[i] - xs[i - 1] == Stride(tile.width, overlap)
    ensures forall j | 1 <= j < |ys| - 1 :: ys[j] - ys[j - 1] == Stride(tile.height, overlap)
    ensures tiles == Grid(xs, ys, tile)
  {
    xs := GetPositions(image.width, tile.width, Stride(tile.width, overlap));
    ys := GetPositions(image.height, tile.height, Stride(tile.height, overlap));
    tiles := [];
    for j := 0 to |ys|
      invariant tiles == Grid(xs, ys[..j], tile)
    {
      ghost var before, row := tiles, Row(xs, ys[j], tile);
      for i := 0 to |xs|
        invariant tiles == before + row[..i]
      {
        tiles := tiles + [Tile(xs[i], ys[j], tile.width, tile.height)];
      }
      assert row[..|xs|] == row && ys[..j + 1][..j] == ys[..j];
    }
    assert ys[..|ys|] == ys;
  }

  // ---------------------------------------------------------------- merging

  /** A box found in a tile, moved to image coordinates and clipped twice, as the merge step does. */
  function Moved(b: Box, t: Tile, image: Size): Box {
    var w, h := image.width as real, image.height as real;
    var first := Box(b.x1 + t.x as real, b.y1 + t.y as real, Min(b.x2 + t.x as real, w), Min(b.y2 + t.y as real, h));
    Box(Max(0.0, first.x1), Max(0.0, first.y1), Min(w, first.x2), Min(h, first.y2))
  }

  /** The moved box is the part of the image the tile's box covers. */
  lemma MovedIsTheVisiblePart(b: Box, t: Tile, image: Size, x: real, y: real)
    ensures Inside(x, y, Moved(b, t, image)) <==>
              && Inside(x - t.x as real, y - t.y as real, b)
              && Inside(x, y, Box(0.0, 0.0, image.width as real, image.height as real))
  {
  }

  /** Detections of all tiles in image coordinates, empty boxes left out. */
  function Collected(tiles: seq<(Tile, seq<Detection>)>, image: Size): seq<Detection> {
    if tiles == [] then []
    else Collected(tiles[..|tiles| - 1], image) + MovedAll(tiles[|tiles| - 1].1, tiles[|tiles| - 1].0, image)
  }

  function MovedAll(ds: seq<Detection>, t: Tile, image: Size): seq<Detection> {
    if ds == [] then []
    else
      var d := ds[|ds| - 1];
      var box := Moved(d.box, t, image);
      MovedAll(ds[..|ds| - 1], t, image)
      + (if box.x2 - box.x1 <= 0.0 || box.y2 - box.y1 <= 0.0 then [] else [d.(box := box)])
  }

  /** Tile after tile, and within a tile detection after detection: the order in which ties are settled. */
  lemma {:induction false} CollectedInOrder(a: seq<(Tile, seq<Detection>)>, b: seq<(Tile, seq<Detection>)>, image: Size)
    ensures Collected(a + b, image) == Collected(a, image) + Collected(b, image)
    decreases |b|
  {
    hide MovedAll;
    if b == [] {
      assert a + b == a;
    } else {
      assert (a + b)[..|a + b| - 1] == a + b[..|b| - 1];
      CollectedInOrder(a, b[..|b| - 1], image);
    }
  }

  lemma {:induction false} MovedInOrder(t: Tile, ds: seq<Detection>, es: seq<Detection>, image: Size)
    ensures Collected([(t, ds + es)], image) == Collected([(t, ds)], image) + Collected([(t, es)], image)
    decreases |es|
  {
    assert forall x: seq<Detection> :: [(t, x)][..0] == [];
    assert Collected([], image) == [];
    MovedAllJoin(t, ds, es, image);
  }

  lemma {:induction false} MovedAllJoin(t: Tile, ds: seq<Detection>, es: seq<Detection>, image: Size)
    ensures MovedAll(ds + es, t, image) == MovedAll(ds, t, image) + MovedAll(es, t, image)
    decreases |es|
  {
    if es == [] {
      assert ds + es == ds;
    } else {
      assert (ds + es)[..|ds + es| - 1] == ds + es[..|es| - 1];
      MovedAllJoin(t, ds, es[..|es| - 1], image);
    }
  }

  lemma MergingOnlyRemoves(ds: seq<Detection>, threshold: real)
    ensures multiset(MergedDetections(ds, threshold)) <= multiset(ds) && |MergedDetections(ds, threshold)| <= |ds|
  {
    NothingIsInvented(ds, false, threshold, LowestConfidence(ds));
  }

  method CollectAll(tiles: seq<(Tile, seq<Detection>)>, image: Size) returns (all: seq<Detection>)
    ensures all == Collected(tiles, image)
  {
    all := [];
    for i := 0 to |tiles|
      invariant all == Collected(tiles[..i], image)
    {
      var moved := MoveAll(tiles[i].1, tiles[i].0, image);
      all := all + moved;
      assert tiles[..i + 1][..i] == tiles[..i];
    }
    assert tiles[..|tiles|] == tiles;
  }

  method MoveAll(ds: seq<Detection>, t: Tile, image: Size) returns (moved: seq<Detection>)
    ensures moved == MovedAll(ds, t, image)
  {
    moved := [];
    for j := 0 to |ds|
      invariant moved == MovedAll(ds[..j], t, image)
    {
      var box := Moved(ds[j].box, t, image);
      assert ds[..j + 1][..j] == ds[..j];
      if box.x2 - box.x1 <= 0.0 || box.y2 - box.y1 <= 0.0 { continue; }
      moved := moved + [ds[j].(box := box)];
    }
    assert ds[..|ds|] == ds;
  }

  /** Without tiles the detections already there stay; `removed` is the count put into the metadata. */
  method Merge(tiles: seq<(Tile, seq<Detection>)>, image: Size, threshold: real, before: seq<Detection>)
      returns (merged: seq<Detection>, removed: Option<nat>)
    ensures merged == if tiles == [] then before else MergedDetections(Collected(tiles, image), threshold)
    ensures removed == if tiles == [] then None else Some(|Collected(tiles, image)| - |merged|)
  {
    hide Collected, MergedDetections;
    if tiles == [] { return before, None; }
    var all := CollectAll(tiles, image);
    merged := ApplyNms(all, threshold);
    MergingOnlyRemoves(all, threshold);
    removed := Some(|all| - |merged|);
  }

  /** Suppression per class without a score threshold: every confidence passes. */
  function MergedDetections(ds: seq<Detection>, threshold: real): seq<Detection> {
    Processed(ds, false, threshold, LowestConfidence(ds))
  }

  function LowestConfidence(ds: seq<Detection>): (c: real)
    ensures forall d | d in ds :: d.confidence >= c
  {
    if ds == [] then 0.0 else Min(ds[0].confidence, LowestConfidence(ds[1..]))
  }

  lemma WholeClassPasses(ds: seq<Detection>, kind: string, threshold: real)
    ensures Survivors(OfKind(ds, kind), threshold, LowestConfidence(ds)) == Greedy(Sorted(OfKind(ds, kind)), threshold)
  {
    hide Iou;
    var part := OfKind(ds, kind);
    forall i | 0 <= i < |part| ensures part[i].confidence >= LowestConfidence(ds) {
      OfKindCounts(ds, kind, part[i]);
      assert multiset(part)[part[i]] > 0;
      assert part[i] in ds;
    }
    PassingAll(part, LowestConfidence(ds));
  }

  method ApplyNms(detections: seq<Detection>, threshold: real) returns (result: seq<Detection>)
    ensures result == MergedDetections(detections, threshold)
  {
    hide Iou, Greedy, Sorted, Survivors, OfKind, LowestConfidence;
    if detections == [] { return []; }
    var keys, groups := GroupByKind(detections);
    result := [];
    for i := 0 to |keys|
      invariant result == PerKind(detections, keys[..i], threshold, LowestConfidence(detections))
    {
      PerKindNext(detections, keys, i, threshold, LowestConfidence(detections));
      WholeClassPasses(detections, keys[i], threshold);
      var kept := KeepBest(Sorted(groups[keys[i]]), threshold);
      result := result + kept;
    }
    assert keys[..|keys|] == keys;
  }

  // ---------------------------------------------------------------- what merging keeps

  predicate IsEmpty(b: Box) {
    b.x2 - b.x1 <= 0.0 || b.y2 - b.y1 <= 0.0
  }

  lemma {:induction false} MovedIsInTile(ds: seq<Detection>, t: Tile, image: Size, d: Detection)
    requires d in ds && !IsEmpty(Moved(d.box, t, image))
    ensures d.(box := Moved(d.box, t, image)) in MovedAll(ds, t, image)
    decreases |ds|
  {
    var front := ds[..|ds| - 1];
    assert ds == front + [ds[|ds| - 1]];
    if d in front { MovedIsInTile(front, t, image, d); }
  }

  /** A detection in any tile is collected at its place in the image, unless nothing of it is visible. */
  lemma {:induction false} MovedIsCollected(tiles: seq<(Tile, seq<Detection>)>, image: Size, i: nat, d: Detection)
    requires i < |tiles| && d in tiles[i].1 && !IsEmpty(Moved(d.box, tiles[i].0, image))
    ensures d.(box := Moved(d.box, tiles[i].0, image)) in Collected(tiles, image)
    decreases |tiles|
  {
    var n := |tiles| - 1;
    if i == n {
      MovedIsInTile(tiles[n].1, tiles[n].0, image, d);
    } else {
      MovedIsCollected(tiles[..n], image, i, d);
    }
  }

  /** Whatever is collected was found in some tile, and stands where it is in the image. */
  lemma {:induction false} CollectedIsMoved(tiles: seq<(Tile, seq<Detection>)>, image: Size, e: Detection)
      returns (i: nat, d: Detection)
    requires e in Collected(tiles, image)
    ensures i < |tiles| && d in tiles[i].1 && e == d.(box := Moved(d.box, tiles[i].0, image)) && !IsEmpty(e.box)
    decreases |tiles|
  {
    hide Moved;
    i := |tiles| - 1;
    if e in MovedAll(tiles[i].1, tiles[i].0, image) {
      d := InTileIsMoved(tiles[i].1, tiles[i].0, image, e);
    } else {
      i, d := CollectedIsMoved(tiles[..i], image, e);
    }
  }

  lemma {:induction false} InTileIsMoved(ds: seq<Detection>, t: Tile, image: Size, e: Detection) returns (d: Detection)
    requires e in MovedAll(ds, t, image)
    ensures d in ds && e == d.(box := Moved(d.box, t, image)) && !IsEmpty(e.box)
    decreases |ds|
  {
    hide Moved;
    d := ds[|ds| - 1];
    if e in MovedAll(ds[..|ds| - 1], t, image) { d := InTileIsMoved(ds[..|ds| - 1], t, image, e); }
  }

  /** Another detection of the same class, at least as confident, overlaps this one at or above the threshold. */
  ghost predicate BeatenIn(merged: seq<Detection>, d: Detection, threshold: real) {
    exists s :: s in merged && s != d && s.kind == d.kind && Beats(s, d, threshold)
  }

  /** A collected detection is merged away exactly when another surviving one of its class beats it. */
  lemma MergedUnlessBeaten(ds: seq<Detection>, threshold: real, d: Detection)
    requires d in ds
    ensures d in MergedDetections(ds, threshold) <==> !BeatenIn(MergedDetections(ds, threshold), d, threshold)
  {
    hide Iou;
    var merged, low := MergedDetections(ds, threshold), LowestConfidence(ds);
    if d !in merged {
      assert multiset(merged)[d] == 0 < multiset(ds)[d];
      ClassLoserIsBeaten(ds, threshold, low, d);
      assert BeatenIn(merged, d, threshold);
    } else if s :| s in merged && s != d && s.kind == d.kind && Beats(s, d, threshold) {
      SurvivorsStayApart(ds, threshold, low, s, d);
      assert false;
    }
  }

  /** Two different survivors of one class overlap less than the threshold. */
  lemma SurvivorsStayApart(ds: seq<Detection>, threshold: real, score: real, s: Detection, d: Detection)
    requires s in Processed(ds, false, threshold, score) && d in Processed(ds, false, threshold, score)
    requires s != d && s.kind == d.kind
    ensures Iou(s.box, d.box) < threshold
  {
    hide Iou;
    var r := Processed(ds, false, threshold, score);
    var same := OfKind(r, d.kind);
    ClassesAreIndependent(ds, threshold, score, d.kind);
    SurvivorsAre(OfKind(ds, d.kind), threshold, score);
    OfKindCounts(r, d.kind, s);
    OfKindCounts(r, d.kind, d);
    assert multiset(r)[s] > 0 && multiset(r)[d] > 0;
    var i := MemberAt(same, s);
    var j := MemberAt(same, d);
    IouIsSymmetric(s.box, d.box);
  }

  // ---------------------------------------------------------------- there and back

  /** The box as a detector working on the tile alone reports it. */
  function InTile(b: Box, t: Tile): Box {
    Box(b.x1 - t.x as real, b.y1 - t.y as real, b.x2 - t.x as real, b.y2 - t.y as real)
  }

  lemma SpanInOneTile(ps: seq<int>, length: int, size: int, stride: int, a: real, b: real) returns (i: nat)
    requires Covers(ps, length, size, stride)
    requires 0.0 <= a <= b <= length as real && (b - a <= (size - stride) as real || length <= size)
    ensures i < |ps| && ps[i] as real <= a && b <= (ps[i] + size) as real
  {
    i := StartBefore(ps, a.Floor);
    if i + 1 < |ps| {
      assert ps[i + 1] - ps[i] <= stride;
      assert a < ps[i + 1] as real;
    }
  }

  /**
    An object no wider and no taller than a tile less its stride is wholly visible in some tile, and
    the box found there moves back to exactly where it is in the image.
  */
  lemma SmallObjectsComeBack(image: Size, tile: Size, sx: int, sy: int, xs: seq<int>, ys: seq<int>, b: Box)
      returns (i: nat, j: nat)
    requires Covers(xs, image.width, tile.width, sx) && Covers(ys, image.height, tile.height, sy)
    requires 0.0 <= b.x1 <= b.x2 <= image.width as real && 0.0 <= b.y1 <= b.y2 <= image.height as real
    requires b.x2 - b.x1 <= (tile.width - sx) as real || image.width <= tile.width
    requires b.y2 - b.y1 <= (tile.height - sy) as real || image.height <= tile.height
    ensures i < |xs| && j < |ys|
    ensures var t := Tile(xs[i], ys[j], tile.width, tile.height);
            var seen := InTile(b, t);
            && t in Grid(xs, ys, tile)
            && 0.0 <= seen.x1 && seen.x2 <= tile.width as real && 0.0 <= seen.y1 && seen.y2 <= tile.height as real
            && Moved(seen, t, image) == b
  {
    i := SpanInOneTile(xs, image.width, tile.width, sx, b.x1, b.x2);
    j := SpanInOneTile(ys, image.height, tile.height, sy, b.y1, b.y2);
    GridIsProduct(xs, ys, tile);
    var t := Tile(xs[i], ys[j], tile.width, tile.height);
    assert t in Grid(xs, ys, tile);
    BackAgain(b, t, image);
  }

  lemma BackAgain(b: Box, t: Tile, image: Size)
    requires 0.0 <= b.x1 <= b.x2 <= image.width as real && 0.0 <= b.y1 <= b.y2 <= image.height as real
    ensures Moved(InTile(b, t), t, image) == b
  {
  }

  /**
    Such an object, detected in that tile, is reported at its place in the image, unless a report
    of its own class, at least as confident, overlaps it at or above the threshold; never otherwise.
  */
  lemma SmallObjectsAreReported(tiles: seq<(Tile, seq<Detection>)>, image: Size, threshold: real, i: nat,
          d: Detection, b: Box)
    requires i < |tiles| && d in tiles[i].1 && d.box == InTile(b, tiles[i].0)
    requires 0.0 <= b.x1 < b.x2 <= image.width as real && 0.0 <= b.y1 < b.y2 <= image.height as real
    ensures var merged, back := MergedDetections(Collected(tiles, image), threshold), d.(box := b);
            back in merged <==> !BeatenIn(merged, back, threshold)
  {
    hide Iou;
    BackAgain(b, tiles[i].0, image);
    MovedIsCollected(tiles, image, i, d);
    MergedUnlessBeaten(Collected(tiles, image), threshold, d.(box := b));
  }
}
