/** The frame graph: the value of a walk, and why a forest fixes it. */
module FrameGraph {
  import opened Wrappers

  type Frame = string

  /** Transforms form a group; `Rigid` gives the instance the cell uses. */
  datatype Group<!T> = Group(one: T, mul: (T, T) -> T, inv: T -> T)

  predicate AssociatesAt<T(==)>(g: Group<T>, a: T, b: T, c: T) {
    g.mul(g.mul(a, b), c) == g.mul(a, g.mul(b, c))
  }

  predicate UnitAt<T(==)>(g: Group<T>, a: T) {
    g.mul(g.one, a) == a && g.mul(a, g.one) == a
  }

  predicate InverseAt<T(==)>(g: Group<T>, a: T) {
    g.mul(g.inv(a), a) == g.one && g.mul(a, g.inv(a)) == g.one
  }

  ghost predicate IsGroup<T(!new)>(g: Group<T>) {
    && (forall a, b, c :: AssociatesAt(g, a, b, c))
    && (forall a :: UnitAt(g, a))
    && (forall a :: InverseAt(g, a))
  }

  datatype Source<T> = Static(matrix: T) | Dynamic(key: string, required: bool)

  /** A directed edge parent <- child. */
  datatype Edge<T> = Edge(parent: Frame, child: Frame, source: Source<T>)

  type Edges<T> = seq<Edge<T>>

  /** The board values a lookup may read; None when the caller passes no snapshot. */
  type Snapshot<T> = Option<map<string, T>>

  // ---------------------------------------------------------------- edges between two frames

  predicate Joins<T>(e: Edge<T>, a: Frame, b: Frame) {
    (e.parent == a && e.child == b) || (e.parent == b && e.child == a)
  }

  /** The edges joining two frames, oldest first. */
  function Between<T>(edges: Edges<T>, a: Frame, b: Frame): Edges<T> {
    if edges == [] then []
    else
      var last := edges[|edges| - 1];
      Between(edges[..|edges| - 1], a, b) + if Joins(last, a, b) then [last] else []
  }

  /** The oldest dynamic edge wins; without one, the newest static edge. */
  function Preferred<T>(edges: Edges<T>): Option<Edge<T>> {
    if edges == [] then None
    else
      var last := edges[|edges| - 1];
      var before := Preferred(edges[..|edges| - 1]);
      if before.Some? && before.value.source.Dynamic? then before else Some(last)
  }

  function Chosen<T>(edges: Edges<T>, a: Frame, b: Frame): Option<Edge<T>> {
    Preferred(Between(edges, a, b))
  }

  predicate Adjacent<T>(edges: Edges<T>, a: Frame, b: Frame) {
    exists i | 0 <= i < |edges| :: Joins(edges[i], a, b)
  }

  lemma {:induction false} BetweenIsSymmetric<T>(edges: Edges<T>, a: Frame, b: Frame)
    ensures Between(edges, a, b) == Between(edges, b, a)
    decreases |edges|
  {
    if edges != [] { BetweenIsSymmetric(edges[..|edges| - 1], a, b); }
  }

  lemma {:induction false} BetweenJoins<T>(edges: Edges<T>, a: Frame, b: Frame)
    ensures forall i | 0 <= i < |Between(edges, a, b)| :: Joins(Between(edges, a, b)[i], a, b)
    ensures Between(edges, a, b) != [] <==> Adjacent(edges, a, b)
    decreases |edges|
  {
    if edges != [] {
      var front := edges[..|edges| - 1];
      BetweenJoins(front, a, b);
      if i :| 0 <= i < |edges| && Joins(edges[i], a, b) {
        if i < |front| { assert Joins(front[i], a, b); }
      }
    }
  }

  lemma {:induction false} PreferredIsMember<T>(edges: Edges<T>)
    ensures Preferred(edges).Some? <==> edges != []
    ensures Preferred(edges).Some? ==> Preferred(edges).value in edges
    ensures (exists i | 0 <= i < |edges| :: edges[i].source.Dynamic?) <==>
              (Preferred(edges).Some? && Preferred(edges).value.source.Dynamic?)
    decreases |edges|
  {
    if edges != [] {
      var front := edges[..|edges| - 1];
      PreferredIsMember(front);
      if i :| 0 <= i < |edges| && edges[i].source.Dynamic? {
        if i < |front| { assert front[i].source.Dynamic?; }
      }
    }
  }

  /** Two adjacent frames always have an edge to read, whichever way the hop goes; it overrides statics if dynamic. */
  lemma ChosenEdge<T>(edges: Edges<T>, a: Frame, b: Frame)
    ensures Chosen(edges, a, b) == Chosen(edges, b, a)
    ensures Chosen(edges, a, b).Some? <==> Adjacent(edges, a, b)
    ensures Chosen(edges, a, b).Some? ==> Joins(Chosen(edges, a, b).value, a, b)
    ensures Adjacent(edges, a, b) ==>
              (Chosen(edges, a, b).value.source.Dynamic? <==>
               exists i | 0 <= i < |Between(edges, a, b)| :: Between(edges, a, b)[i].source.Dynamic?)
  {
    BetweenIsSymmetric(edges, a, b);
    BetweenJoins(edges, a, b);
    PreferredIsMember(Between(edges, a, b));
  }

  // ---------------------------------------------------------------- hops

  /** T(parent <- child), or None when a required value has not been published. */
  function EdgeValue<T>(g: Group<T>, e: Edge<T>, snapshot: Snapshot<T>): Option<T> {
    match e.source
    case Static(m) => Some(m)
    case Dynamic(key, required) =>
      if snapshot.Some? && key in snapshot.value then Some(snapshot.value[key])
      else if required then None
      else Some(g.one)
  }

  /** T(b <- a): the chosen edge's value, inverted when the hop runs from parent to child. */
  function HopValue<T>(g: Group<T>, edges: Edges<T>, snapshot: Snapshot<T>, a: Frame, b: Frame): Option<T> {
    match Chosen(edges, a, b)
    case None => None
    case Some(e) =>
      var natural := EdgeValue(g, e, snapshot);
      if natural.None? then None
      else if a == e.child && b == e.parent then natural
      else Some(g.inv(natural.value))
  }

  lemma InverseIsUnique<T(!new)>(g: Group<T>, x: T, y: T)
    requires IsGroup(g) && g.mul(x, y) == g.one
    ensures x == g.inv(y) && g.mul(y, x) == g.one && y == g.inv(x)
  {
    assert AssociatesAt(g, x, y, g.inv(y)) && AssociatesAt(g, g.inv(x), x, y);
    assert InverseAt(g, x) && InverseAt(g, y);
    assert UnitAt(g, x) && UnitAt(g, y) && UnitAt(g, g.inv(x)) && UnitAt(g, g.inv(y));
  }

  /** Hopping back undoes the hop, whichever edge is used and however it is oriented. */
  lemma HopBack<T(!new)>(g: Group<T>, edges: Edges<T>, snapshot: Snapshot<T>, a: Frame, b: Frame)
    requires IsGroup(g) && a != b
    ensures var there, back := HopValue(g, edges, snapshot, a, b), HopValue(g, edges, snapshot, b, a);
            && (there.Some? <==> back.Some?)
            && (there.Some? ==> back.value == g.inv(there.value) && g.mul(back.value, there.value) == g.one)
  {
    ChosenEdge(edges, a, b);
    var there := HopValue(g, edges, snapshot, a, b);
    if there.Some? {
      var e := Chosen(edges, a, b).value;
      var natural := EdgeValue(g, e, snapshot).value;
      assert InverseAt(g, natural);
      InverseIsUnique(g, g.inv(natural), natural);
    }
  }

  // ---------------------------------------------------------------- walks

  ghost predicate IsWalk<T>(edges: Edges<T>, w: seq<Frame>) {
    w != [] && forall i | 0 <= i < |w| - 1 :: Adjacent(edges, w[i], w[i + 1])
  }

  ghost predicate Distinct(w: seq<Frame>) {
    forall i, j | 0 <= i < j < |w| :: w[i] != w[j]
  }

  ghost predicate WalkTo<T>(edges: Edges<T>, w: seq<Frame>, a: Frame, b: Frame) {
    IsWalk(edges, w) && w[0] == a && w[|w| - 1] == b
  }

  ghost predicate SimplePath<T>(edges: Edges<T>, w: seq<Frame>, a: Frame, b: Frame) {
    WalkTo(edges, w, a, b) && Distinct(w)
  }

  /** The product of the hops, the latest leftmost; None when some hop has no value. */
  function WalkValue<T>(g: Group<T>, edges: Edges<T>, snapshot: Snapshot<T>, w: seq<Frame>): Option<T>
    requires w != []
    decreases |w|
  {
    if |w| == 1 then Some(g.one)
    else
      var before := WalkValue(g, edges, snapshot, w[..|w| - 1]);
      var hop := HopValue(g, edges, snapshot, w[|w| - 2], w[|w| - 1]);
      if before.Some? && hop.Some? then Some(g.mul(hop.value, before.value)) else None
  }

  function Product<T>(g: Group<T>, x: Option<T>, y: Option<T>): Option<T> {
    if x.Some? && y.Some? then Some(g.mul(x.value, y.value)) else None
  }

  lemma WalkValueLast<T>(g: Group<T>, edges: Edges<T>, s: Snapshot<T>, w: seq<Frame>)
    requires |w| > 1
    ensures WalkValue(g, edges, s, w) ==
            Product(g, HopValue(g, edges, s, w[|w| - 2], w[|w| - 1]), WalkValue(g, edges, s, w[..|w| - 1]))
  {
  }

  lemma JoinLast(v: seq<Frame>, w: seq<Frame>)
    requires v != [] && |w| > 1 && v[|v| - 1] == w[0]
    ensures var n, whole := |w| - 1, v + w[1..];
            && |whole| > 1 && whole[..|whole| - 1] == v + w[..n][1..]
            && whole[|whole| - 2] == w[n - 1] && whole[|whole| - 1] == w[n]
  {
  }

  lemma ProductAssociates<T(!new)>(g: Group<T>, x: Option<T>, y: Option<T>, z: Option<T>)
    requires IsGroup(g)
    ensures Product(g, Product(g, x, y), z) == Product(g, x, Product(g, y, z))
    ensures Product(g, Some(g.one), x) == x && Product(g, x, Some(g.one)) == x
  {
    if x.Some? {
      assert UnitAt(g, x.value);
      if y.Some? && z.Some? { assert AssociatesAt(g, x.value, y.value, z.value); }
    }
  }

  /** The value of one walk after another is the product of their values. */
  lemma {:induction false} WalkValueJoin<T(!new)>(g: Group<T>, edges: Edges<T>, s: Snapshot<T>, v: seq<Frame>,
          w: seq<Frame>)
    requires IsGroup(g) && v != [] && w != [] && v[|v| - 1] == w[0]
    ensures WalkValue(g, edges, s, v + w[1..]) ==
            Product(g, WalkValue(g, edges, s, w), WalkValue(g, edges, s, v))
    decreases |w|
  {
    var vv := WalkValue(g, edges, s, v);
    if |w| == 1 {
      assert v + w[1..] == v;
      ProductAssociates(g, vv, vv, vv);
    } else {
      var front := w[..|w| - 1];
      var hop := HopValue(g, edges, s, w[|w| - 2], w[|w| - 1]);
      JoinLast(v, w);
      WalkValueJoin(g, edges, s, v, front);
      WalkValueLast(g, edges, s, v + w[1..]);
      WalkValueLast(g, edges, s, w);
      ProductAssociates(g, hop, WalkValue(g, edges, s, front), vv);
    }
  }

  lemma TwoFrames<T(!new)>(g: Group<T>, edges: Edges<T>, s: Snapshot<T>, a: Frame, b: Frame)
    requires IsGroup(g)
    ensures WalkValue(g, edges, s, [a, b]) == HopValue(g, edges, s, a, b)
  {
    var hop := HopValue(g, edges, s, a, b);
    WalkValueLast(g, edges, s, [a, b]);
    assert [a, b][..1] == [a];
    ProductAssociates(g, hop, hop, hop);
  }

  /** Going out to b and straight back changes nothing. */
  lemma BacktrackCancels<T(!new)>(g: Group<T>, edges: Edges<T>, s: Snapshot<T>, p: seq<Frame>, q: seq<Frame>)
    requires IsGroup(g) && |p| > 1 && |q| > 1 && p[|p| - 1] == q[0] && p[|p| - 2] == q[1] && q[0] != q[1]
    requires WalkValue(g, edges, s, p).Some? && WalkValue(g, edges, s, q).Some?
    ensures var p', q' := p[..|p| - 1], q[1..];
            Product(g, WalkValue(g, edges, s, q), WalkValue(g, edges, s, p)) ==
            Product(g, WalkValue(g, edges, s, q'), WalkValue(g, edges, s, p'))
    ensures WalkValue(g, edges, s, p[..|p| - 1]).Some? && WalkValue(g, edges, s, q[1..]).Some?
  {
    var b, x := q[0], q[1];
    var p', q' := p[..|p| - 1], q[1..];
    assert q == [b, x] + q'[1..];
    WalkValueJoin(g, edges, s, [b, x], q');
    TwoFrames(g, edges, s, b, x);
    HopBack(g, edges, s, x, b);
    var there, back := HopValue(g, edges, s, x, b).value, HopValue(g, edges, s, b, x).value;
    var vp, vq := WalkValue(g, edges, s, p').value, WalkValue(g, edges, s, q').value;
    CancelMiddle(g, vq, back, there, vp);
  }

  lemma CancelMiddle<T(!new)>(g: Group<T>, x: T, y: T, z: T, w: T)
    requires IsGroup(g) && g.mul(y, z) == g.one
    ensures g.mul(g.mul(x, y), g.mul(z, w)) == g.mul(x, w)
  {
    assert AssociatesAt(g, x, y, g.mul(z, w)) && AssociatesAt(g, y, z, w) && UnitAt(g, w);
  }

  // ---------------------------------------------------------------- forests

  /** No cycle: the ends of a simple path of three or more frames are not adjacent. Parallel edges are allowed. */
  ghost predicate IsForest<T>(edges: Edges<T>) {
    forall p, a, b | SimplePath(edges, p, a, b) && |p| >= 3 :: !Adjacent(edges, b, a)
  }

  /** Never straight back, never staying put. */
  ghost predicate Reduced(w: seq<Frame>) {
    && (forall i | 0 <= i < |w| - 1 :: w[i] != w[i + 1])
    && (forall i | 0 <= i < |w| - 2 :: w[i] != w[i + 2])
  }

  lemma NoReturn<T(!new)>(edges: Edges<T>, w: seq<Frame>, i: nat)
    requires IsForest(edges) && IsWalk(edges, w) && i + 3 < |w| && Distinct(w[..|w| - 1])
    ensures w[i] != w[|w| - 1]
  {
    var n := |w| - 1;
    var path := w[i..n];
    assert forall j | 0 <= j < |path| :: path[j] == w[..n][i + j];
    assert SimplePath(edges, path, w[i], w[n - 1]);
    assert Adjacent(edges, w[n - 1], w[n]);
  }

  lemma {:induction false} ReducedIsSimple<T(!new)>(edges: Edges<T>, w: seq<Frame>)
    requires IsForest(edges) && IsWalk(edges, w) && Reduced(w)
    ensures Distinct(w)
    decreases |w|
  {
    if |w| > 1 {
      var n := |w| - 1;
      var front := w[..n];
      assert IsWalk(edges, front);
      ReducedIsSimple(edges, front);
      forall i | 0 <= i < n ensures w[i] != w[n] {
        if i + 3 <= n { NoReturn(edges, w, i); }
      }
      forall i, j | 0 <= i < j < n ensures w[i] != w[j] { assert front[i] != front[j]; }
    }
  }

  function Rev(w: seq<Frame>): (r: seq<Frame>)
    ensures |r| == |w| && forall i | 0 <= i < |w| :: r[i] == w[|w| - 1 - i]
  {
    seq(|w|, i requires 0 <= i < |w| => w[|w| - 1 - i])
  }

  lemma AdjacentIsSymmetric<T>(edges: Edges<T>, a: Frame, b: Frame)
    ensures Adjacent(edges, a, b) <==> Adjacent(edges, b, a)
  {
    ChosenEdge(edges, a, b);
    ChosenEdge(edges, b, a);
  }

  lemma RevIsPath<T>(edges: Edges<T>, w: seq<Frame>, a: Frame, b: Frame)
    requires SimplePath(edges, w, a, b)
    ensures SimplePath(edges, Rev(w), b, a)
  {
    var r := Rev(w);
    forall i | 0 <= i < |r| - 1 ensures Adjacent(edges, r[i], r[i + 1]) {
      var j := |w| - 2 - i;
      AdjacentIsSymmetric(edges, w[j], w[j + 1]);
    }
  }

  /** Two simple paths meeting end to end without backtracking make one simple path. */
  lemma JoinIsSimple<T(!new)>(edges: Edges<T>, p: seq<Frame>, q: seq<Frame>, a: Frame, b: Frame, c: Frame)
    requires IsForest(edges) && SimplePath(edges, p, a, b) && SimplePath(edges, q, b, c)
    requires |p| > 1 && |q| > 1 ==> p[|p| - 2] != q[1]
    ensures SimplePath(edges, p + q[1..], a, c)
  {
    var w := p + q[1..];
    forall i | 0 <= i < |w| - 1 ensures Adjacent(edges, w[i], w[i + 1]) && w[i] != w[i + 1] {
      if i >= |p| - 1 { assert w[i] == q[i - |p| + 1] && w[i + 1] == q[i - |p| + 2]; }
    }
    forall i | 0 <= i < |w| - 2 ensures w[i] != w[i + 2] {
      if i >= |p| - 1 { assert w[i] == q[i - |p| + 1] && w[i + 2] == q[i - |p| + 3]; }
    }
    ReducedIsSimple(edges, w);
  }

  /** Two paths to the same place arrive from the same side, else they would close a cycle. */
  lemma SameLastHop<T(!new)>(edges: Edges<T>, p: seq<Frame>, q: seq<Frame>, a: Frame, b: Frame)
    requires IsForest(edges) && SimplePath(edges, p, a, b) && SimplePath(edges, q, a, b) && a != b
    ensures |p| > 1 && |q| > 1 && p[|p| - 2] == q[|q| - 2]
  {
    if p[|p| - 2] != q[|q| - 2] {
      RevIsPath(edges, q, a, b);
      JoinIsSimple(edges, p, Rev(q), a, b, a);
      assert false;
    }
  }

  /** In a forest there is at most one simple path between two frames. */
  lemma {:induction false} UniquePath<T(!new)>(edges: Edges<T>, p: seq<Frame>, q: seq<Frame>, a: Frame, b: Frame)
    requires IsForest(edges) && SimplePath(edges, p, a, b) && SimplePath(edges, q, a, b)
    ensures p == q
    decreases |p|
  {
    if a != b {
      SameLastHop(edges, p, q, a, b);
      Shorten(edges, p, a, b);
      Shorten(edges, q, a, b);
      UniquePath(edges, p[..|p| - 1], q[..|q| - 1], a, p[|p| - 2]);
      assert p == p[..|p| - 1] + [b] && q == q[..|q| - 1] + [b];
    }
  }

  lemma Shorten<T>(edges: Edges<T>, p: seq<Frame>, a: Frame, b: Frame)
    requires SimplePath(edges, p, a, b) && |p| > 1
    ensures SimplePath(edges, p[..|p| - 1], a, p[|p| - 2])
    ensures SimplePath(edges, p[1..], p[1], b)
  {
  }

  // ---------------------------------------------------------------- lookup

  ghost predicate ShortestPath<T>(edges: Edges<T>, p: seq<Frame>, a: Frame, b: Frame) {
    SimplePath(edges, p, a, b) && forall w | WalkTo(edges, w, a, b) :: |p| <= |w|
  }

  /** The value a lookup of `target` from `source` may return: that of a path with fewest hops. */
  ghost predicate LooksUp<T>(g: Group<T>, edges: Edges<T>, s: Snapshot<T>, target: Frame, source: Frame, v: T) {
    exists p :: ShortestPath(edges, p, source, target) && WalkValue(g, edges, s, p) == Some(v)
  }

  /** Cutting out w[i+1..j] where w[i] == w[j] leaves a walk. */
  lemma CutWalk<T>(edges: Edges<T>, w: seq<Frame>, i: nat, j: nat, a: Frame, b: Frame)
    requires WalkTo(edges, w, a, b) && i < j < |w| && w[i] == w[j]
    ensures WalkTo(edges, w[..i] + w[j..], a, b)
  {
    var v := w[..i] + w[j..];
    forall k | 0 <= k < |v| - 1 ensures Adjacent(edges, v[k], v[k + 1]) {
      if k >= i { assert v[k] == w[k - i + j] && v[k + 1] == w[k + 1 - i + j]; }
      else { assert v[k] == w[k] && v[k + 1] == w[k + 1]; }
    }
  }

  /** In a forest every simple path is a shortest one. */
  lemma {:induction false} SimpleIsShortest<T(!new)>(edges: Edges<T>, p: seq<Frame>, w: seq<Frame>, a: Frame, b: Frame)
    requires IsForest(edges) && SimplePath(edges, p, a, b) && WalkTo(edges, w, a, b)
    ensures |p| <= |w|
    decreases |w|
  {
    if i :| 0 <= i < |w| - 1 && w[i] == w[i + 1] {
      CutWalk(edges, w, i, i + 1, a, b);
      SimpleIsShortest(edges, p, w[..i] + w[i + 1..], a, b);
    } else if i :| 0 <= i < |w| - 2 && w[i] == w[i + 2] {
      CutWalk(edges, w, i, i + 2, a, b);
      SimpleIsShortest(edges, p, w[..i] + w[i + 2..], a, b);
    } else {
      ReducedIsSimple(edges, w);
      UniquePath(edges, p, w, a, b);
    }
  }

  lemma SimpleLooksUp<T(!new)>(g: Group<T>, edges: Edges<T>, s: Snapshot<T>, p: seq<Frame>, a: Frame, b: Frame, v: T)
    requires IsForest(edges) && SimplePath(edges, p, a, b) && WalkValue(g, edges, s, p) == Some(v)
    ensures LooksUp(g, edges, s, b, a, v)
  {
    forall w | WalkTo(edges, w, a, b) ensures |p| <= |w| { SimpleIsShortest(edges, p, w, a, b); }
    assert ShortestPath(edges, p, a, b);
  }

  /** The composition of two paths is worth the path between their far ends. */
  lemma {:induction false} PathsCompose<T(!new)>(g: Group<T>, edges: Edges<T>, s: Snapshot<T>,
                                                 p: seq<Frame>, q: seq<Frame>, a: Frame, b: Frame, c: Frame)
      returns (r: seq<Frame>)
    requires IsGroup(g) && IsForest(edges) && SimplePath(edges, p, a, b) && SimplePath(edges, q, b, c)
    requires WalkValue(g, edges, s, p).Some? && WalkValue(g, edges, s, q).Some?
    ensures SimplePath(edges, r, a, c)
    ensures WalkValue(g, edges, s, r) == Product(g, WalkValue(g, edges, s, q), WalkValue(g, edges, s, p))
    decreases |p|
  {
    if |p| > 1 && |q| > 1 && p[|p| - 2] == q[1] {
      Shorten(edges, p, a, b);
      Shorten(edges, q, b, c);
      BacktrackCancels(g, edges, s, p, q);
      r := PathsCompose(g, edges, s, p[..|p| - 1], q[1..], a, q[1], c);
    } else {
      JoinIsSimple(edges, p, q, a, b, c);
      WalkValueJoin(g, edges, s, p, q);
      r := p + q[1..];
    }
  }

  // ---------------------------------------------------------------- the value of one hop

  /** What an edge says T(parent <- child) is; an optional one nobody has published counts as no displacement. */
  predicate Says<T(==)>(g: Group<T>, e: Edge<T>, s: Snapshot<T>, v: T) {
    match e.source
    case Static(m) => v == m
    case Dynamic(key, required) =>
      if s.Some? && key in s.value then v == s.value[key] else !required && v == g.one
  }

  /** The edge that counts between two frames: the oldest dynamic one or, without any, the newest. */
  ghost predicate Decides<T>(edges: Edges<T>, i: nat, a: Frame, b: Frame) {
    && i < |edges| && Joins(edges[i], a, b)
    && if edges[i].source.Dynamic? then forall j | 0 <= j < i && Joins(edges[j], a, b) :: edges[j].source.Static?
       else forall j | 0 <= j < |edges| && Joins(edges[j], a, b) :: j <= i && edges[j].source.Static?
  }

  lemma StaticUnlessDynamic<T>(edges: Edges<T>, a: Frame, b: Frame)
    requires forall j | 0 <= j < |edges| && Joins(edges[j], a, b) :: edges[j].source.Static?
    ensures Preferred(Between(edges, a, b)).Some? ==> Preferred(Between(edges, a, b)).value.source.Static?
  {
    PreferredIsMember(Between(edges, a, b));
    BetweenAreEdges(edges, a, b);
  }

  lemma {:induction false} BetweenAreEdges<T>(edges: Edges<T>, a: Frame, b: Frame)
    ensures forall e | e in Between(edges, a, b) :: e in edges && Joins(e, a, b)
    decreases |edges|
  {
    if edges != [] { BetweenAreEdges(edges[..|edges| - 1], a, b); }
  }

  lemma PreferredLast<T>(es: Edges<T>, e: Edge<T>)
    requires Preferred(es).None? || Preferred(es).value.source.Static?
    ensures Preferred(es + [e]) == Some(e)
  {
    assert (es + [e])[..|es|] == es;
  }

  lemma PreferredFirst<T>(es: Edges<T>, more: Edges<T>)
    requires |more| <= 1 && Preferred(es).Some? && Preferred(es).value.source.Dynamic?
    ensures Preferred(es + more) == Preferred(es)
  {
    if more == [] { assert es + more == es; } else { assert (es + more)[..|es|] == es; }
  }

  /** The edge a hop reads is the one that counts. */
  lemma {:induction false} DecidesIsChosen<T>(edges: Edges<T>, i: nat, a: Frame, b: Frame)
    requires Decides(edges, i, a, b)
    ensures Chosen(edges, a, b) == Some(edges[i])
    decreases |edges|
  {
    hide Preferred;
    var front, last := edges[..|edges| - 1], edges[|edges| - 1];
    forall j | 0 <= j < |front| ensures front[j] == edges[j] {}
    if i == |front| {
      StaticUnlessDynamic(front, a, b);
      PreferredIsMember(Between(front, a, b));
      PreferredLast(Between(front, a, b), last);
    } else {
      assert Decides(front, i, a, b);
      DecidesIsChosen(front, i, a, b);
      if edges[i].source.Dynamic? {
        PreferredFirst(Between(front, a, b), if Joins(last, a, b) then [last] else []);
      } else {
        assert !Joins(last, a, b);
        assert Between(front, a, b) + [] == Between(front, a, b);
      }
    }
  }

  /** Some edge counts between adjacent frames. */
  lemma {:induction false} SomeDecides<T>(edges: Edges<T>, a: Frame, b: Frame) returns (i: nat)
    requires Adjacent(edges, a, b)
    ensures Decides(edges, i, a, b)
    decreases |edges|
  {
    var n := |edges| - 1;
    var front := edges[..n];
    if Adjacent(front, a, b) {
      i := SomeDecides(front, a, b);
      if front[i].source.Static? && Joins(edges[n], a, b) { i := n; }
    } else {
      i := n;
      forall j | 0 <= j < n ensures !Joins(edges[j], a, b) { assert front[j] == edges[j]; }
    }
  }

  /** Looking up a frame from an adjacent one is that hop. */
  lemma LookupIsHop<T(!new)>(g: Group<T>, edges: Edges<T>, s: Snapshot<T>, a: Frame, b: Frame, v: T)
    requires IsGroup(g) && a != b && Adjacent(edges, a, b)
    ensures LooksUp(g, edges, s, b, a, v) <==> HopValue(g, edges, s, a, b) == Some(v)
  {
    TwoFrames(g, edges, s, a, b);
    assert SimplePath(edges, [a, b], a, b);
    assert ShortestPath(edges, [a, b], a, b);
    forall p | ShortestPath(edges, p, a, b) ensures p == [a, b] { assert WalkTo(edges, [a, b], a, b); }
  }

  /**
    Between adjacent frames, whatever else joins them, the edge that counts gives the value: as it
    stands from child to parent, inverted from parent to child, none if it is required and unpublished.
  */
  lemma LookupReadsEdge<T(!new)>(g: Group<T>, edges: Edges<T>, s: Snapshot<T>, i: nat, target: Frame, source: Frame,
          v: T)
    requires IsGroup(g) && target != source && Decides(edges, i, source, target)
    ensures LooksUp(g, edges, s, target, source, v) <==>
            if edges[i].parent == target then Says(g, edges[i], s, v)
            else exists w :: Says(g, edges[i], s, w) && v == g.inv(w)
  {
    assert Adjacent(edges, source, target);
    LookupIsHop(g, edges, s, source, target, v);
    DecidesIsChosen(edges, i, source, target);
    var natural := EdgeValue(g, edges[i], s);
    if natural.Some? { assert Says(g, edges[i], s, natural.value); }
  }

  /** Two frames joined by one edge only. */
  lemma LookupReadsOnlyEdge<T(!new)>(g: Group<T>, edges: Edges<T>, s: Snapshot<T>, i: nat, v: T)
    requires IsGroup(g) && i < |edges| && edges[i].parent != edges[i].child
    requires forall j | 0 <= j < |edges| && j != i :: !Joins(edges[j], edges[i].parent, edges[i].child)
    ensures LooksUp(g, edges, s, edges[i].parent, edges[i].child, v) <==>
            match edges[i].source
            case Static(m) => v == m
            case Dynamic(key, required) =>
              if s.Some? && key in s.value then v == s.value[key] else !required && v == g.one
  {
    var e := edges[i];
    forall j | 0 <= j < |edges| && Joins(edges[j], e.child, e.parent) ensures j == i {
      assert Joins(edges[j], e.parent, e.child);
    }
    LookupReadsEdge(g, edges, s, i, e.parent, e.child, v);
  }

  // ---------------------------------------------------------------- exactly when lookup is functorial

  ghost predicate NoSelfHops(w: seq<Frame>) {
    forall i | 0 <= i < |w| - 1 :: w[i] != w[i + 1]
  }

  /** Every round trip that has a value comes back to the identity: what a calibration can be checked for. */
  ghost predicate Closes<T(!new)>(g: Group<T>, edges: Edges<T>, s: Snapshot<T>) {
    forall w, a | WalkTo(edges, w, a, a) && NoSelfHops(w) && WalkValue(g, edges, s, w).Some? ::
      WalkValue(g, edges, s, w) == Some(g.one)
  }

  ghost predicate IsFunctorial<T(!new)>(g: Group<T>, edges: Edges<T>, s: Snapshot<T>) {
    forall a, b, c, ba, cb, ca | LooksUp(g, edges, s, b, a, ba) && LooksUp(g, edges, s, c, b, cb)
        && LooksUp(g, edges, s, c, a, ca) ::
      ca == g.mul(cb, ba)
  }

  /** Every hop has a value: no required transform is missing from the snapshot. */
  ghost predicate AllValued<T(!new)>(g: Group<T>, edges: Edges<T>, s: Snapshot<T>) {
    forall a, b | Adjacent(edges, a, b) && a != b :: HopValue(g, edges, s, a, b).Some?
  }

  lemma RevIsWalk<T>(edges: Edges<T>, w: seq<Frame>, a: Frame, b: Frame)
    requires WalkTo(edges, w, a, b)
    ensures WalkTo(edges, Rev(w), b, a) && (NoSelfHops(w) ==> NoSelfHops(Rev(w)))
  {
    var r := Rev(w);
    forall i | 0 <= i < |r| - 1 ensures Adjacent(edges, r[i], r[i + 1]) && (NoSelfHops(w) ==> r[i] != r[i + 1]) {
      var j := |w| - 2 - i;
      AdjacentIsSymmetric(edges, w[j], w[j + 1]);
      assert NoSelfHops(w) ==> w[j] != w[j + 1];
    }
  }

  /** Walking back is worth the inverse. */
  lemma {:induction false} WalkBack<T(!new)>(g: Group<T>, edges: Edges<T>, s: Snapshot<T>, w: seq<Frame>)
    requires IsGroup(g) && w != [] && NoSelfHops(w) && WalkValue(g, edges, s, w).Some?
    ensures WalkValue(g, edges, s, Rev(w)) == Some(g.inv(WalkValue(g, edges, s, w).value))
    decreases |w|
  {
    if |w| == 1 {
      assert UnitAt(g, g.one);
      InverseIsUnique(g, g.one, g.one);
    } else {
      var n := |w| - 1;
      var front := w[..n];
      WalkValueLast(g, edges, s, w);
      WalkBack(g, edges, s, front);
      var hop := [w[n], w[n - 1]];
      assert Rev(w) == hop + Rev(front)[1..];
      WalkValueJoin(g, edges, s, hop, Rev(front));
      TwoFrames(g, edges, s, w[n], w[n - 1]);
      HopBack(g, edges, s, w[n - 1], w[n]);
      InverseOfProduct(g, HopValue(g, edges, s, w[n - 1], w[n]).value, WalkValue(g, edges, s, front).value);
    }
  }

  lemma InverseOfProduct<T(!new)>(g: Group<T>, x: T, y: T)
    requires IsGroup(g)
    ensures g.inv(g.mul(x, y)) == g.mul(g.inv(y), g.inv(x))
  {
    assert InverseAt(g, y) && InverseAt(g, x);
    CancelMiddle(g, g.inv(y), g.inv(x), x, y);
    InverseIsUnique(g, g.mul(g.inv(y), g.inv(x)), g.mul(x, y));
  }

  /** Where round trips close, a walk's value depends on its ends only. */
  lemma SameEndsSameValue<T(!new)>(g: Group<T>, edges: Edges<T>, s: Snapshot<T>, v: seq<Frame>, w: seq<Frame>,
          a: Frame, b: Frame)
    requires IsGroup(g) && Closes(g, edges, s)
    requires WalkTo(edges, v, a, b) && WalkTo(edges, w, a, b) && NoSelfHops(v) && NoSelfHops(w)
    requires WalkValue(g, edges, s, v).Some? && WalkValue(g, edges, s, w).Some?
    ensures WalkValue(g, edges, s, v) == WalkValue(g, edges, s, w)
  {
    var trip := v + Rev(w)[1..];
    RevIsWalk(edges, w, a, b);
    JoinWalks(edges, v, Rev(w), a, b, a);
    WalkBack(g, edges, s, w);
    WalkValueJoin(g, edges, s, v, Rev(w));
    var x, y := WalkValue(g, edges, s, v).value, WalkValue(g, edges, s, w).value;
    assert WalkValue(g, edges, s, trip) == Some(g.mul(g.inv(y), x));
    InverseIsUnique(g, g.inv(y), x);
    InverseIsUnique(g, g.inv(y), y) by { assert InverseAt(g, y); }
  }

  lemma JoinWalks<T>(edges: Edges<T>, v: seq<Frame>, w: seq<Frame>, a: Frame, b: Frame, c: Frame)
    requires WalkTo(edges, v, a, b) && WalkTo(edges, w, b, c)
    ensures WalkTo(edges, v + w[1..], a, c) && (NoSelfHops(v) && NoSelfHops(w) ==> NoSelfHops(v + w[1..]))
  {
    var u := v + w[1..];
    forall i | 0 <= i < |u| - 1
      ensures Adjacent(edges, u[i], u[i + 1]) && (NoSelfHops(v) && NoSelfHops(w) ==> u[i] != u[i + 1])
    {
      if i >= |v| - 1 { assert u[i] == w[i - |v| + 1] && u[i + 1] == w[i - |v| + 2]; }
    }
  }

  /** If round trips close, lookups compose: shortest paths are walks like any other. */
  lemma ClosedIsFunctorial<T(!new)>(g: Group<T>, edges: Edges<T>, s: Snapshot<T>, a: Frame, b: Frame, c: Frame, ba: T,
          cb: T, ca: T)
    requires IsGroup(g) && Closes(g, edges, s)
    requires LooksUp(g, edges, s, b, a, ba) && LooksUp(g, edges, s, c, b, cb) && LooksUp(g, edges, s, c, a, ca)
    ensures ca == g.mul(cb, ba)
  {
    var p :| ShortestPath(edges, p, a, b) && WalkValue(g, edges, s, p) == Some(ba);
    var q :| ShortestPath(edges, q, b, c) && WalkValue(g, edges, s, q) == Some(cb);
    var r :| ShortestPath(edges, r, a, c) && WalkValue(g, edges, s, r) == Some(ca);
    JoinWalks(edges, p, q, a, b, c);
    WalkValueJoin(g, edges, s, p, q);
    SameEndsSameValue(g, edges, s, p + q[1..], r, a, c);
  }

  /** Frames joined by a walk have a shortest path, and with all hops valued a value to look up. */
  lemma {:induction false} SomeShortest<T(!new)>(edges: Edges<T>, w: seq<Frame>, a: Frame, b: Frame)
      returns (p: seq<Frame>)
    requires WalkTo(edges, w, a, b)
    ensures ShortestPath(edges, p, a, b)
    decreases |w|
  {
    if v :| WalkTo(edges, v, a, b) && |v| < |w| {
      p := SomeShortest(edges, v, a, b);
    } else {
      p := w;
      if i, j :| 0 <= i < j < |w| && w[i] == w[j] {
        CutWalk(edges, w, i, j, a, b);
        assert false;
      }
    }
  }

  lemma {:induction false} ValuedWalk<T(!new)>(g: Group<T>, edges: Edges<T>, s: Snapshot<T>, w: seq<Frame>)
    requires AllValued(g, edges, s) && IsWalk(edges, w) && NoSelfHops(w)
    ensures WalkValue(g, edges, s, w).Some?
    decreases |w|
  {
    if |w| > 1 {
      assert Adjacent(edges, w[|w| - 2], w[|w| - 1]) by {
        var i := |w| - 2;
        assert Adjacent(edges, w[i], w[i + 1]);
      }
      assert w[|w| - 2] != w[|w| - 1] by {
        var i := |w| - 2;
        assert w[i] != w[i + 1];
      }
      ValuedWalk(g, edges, s, w[..|w| - 1]);
    }
  }

  /** If lookups compose, every walk is worth what looking up its end from its start gives. */
  lemma {:induction false} WalkIsLookup<T(!new)>(g: Group<T>, edges: Edges<T>, s: Snapshot<T>, w: seq<Frame>,
          a: Frame, b: Frame)
    requires IsGroup(g) && AllValued(g, edges, s) && IsFunctorial(g, edges, s)
    requires WalkTo(edges, w, a, b) && NoSelfHops(w)
    ensures WalkValue(g, edges, s, w).Some? && LooksUp(g, edges, s, b, a, WalkValue(g, edges, s, w).value)
    decreases |w|
  {
    ValuedWalk(g, edges, s, w);
    if |w| == 1 {
      assert ShortestPath(edges, w, a, b);
    } else {
      var n := |w| - 1;
      var front, x := w[..n], w[n - 1];
      assert WalkTo(edges, front, a, x);
      WalkIsLookup(g, edges, s, front, a, x);
      HopIsLookup(g, edges, s, x, b) by {
        assert Adjacent(edges, w[n - 1], w[n - 1 + 1]) && w[n - 1] != w[n - 1 + 1];
      }
      var ca := LookupExists(g, edges, s, w, a, b);
      WalkValueLast(g, edges, s, w);
    }
  }

  lemma HopIsLookup<T(!new)>(g: Group<T>, edges: Edges<T>, s: Snapshot<T>, a: Frame, b: Frame)
    requires IsGroup(g) && Adjacent(edges, a, b) && a != b && HopValue(g, edges, s, a, b).Some?
    ensures LooksUp(g, edges, s, b, a, HopValue(g, edges, s, a, b).value)
  {
    TwoFrames(g, edges, s, a, b);
    assert SimplePath(edges, [a, b], a, b);
    assert ShortestPath(edges, [a, b], a, b);
  }

  lemma LookupExists<T(!new)>(g: Group<T>, edges: Edges<T>, s: Snapshot<T>, w: seq<Frame>, a: Frame, b: Frame)
      returns (v: T)
    requires AllValued(g, edges, s) && WalkTo(edges, w, a, b)
    ensures LooksUp(g, edges, s, b, a, v)
  {
    var p := SomeShortest(edges, w, a, b);
    ValuedWalk(g, edges, s, p);
    v := WalkValue(g, edges, s, p).value;
  }

  /**
    Exactly when lookup is functorial, on any graph whose hops all have values: lookups compose if
    and only if every round trip, whatever way it takes, comes back to the identity.
  */
  lemma FunctorialIffClosed<T(!new)>(g: Group<T>, edges: Edges<T>, s: Snapshot<T>)
    requires IsGroup(g) && AllValued(g, edges, s)
    ensures IsFunctorial(g, edges, s) <==> Closes(g, edges, s)
  {
    if IsFunctorial(g, edges, s) {
      forall w, a | WalkTo(edges, w, a, a) && NoSelfHops(w) && WalkValue(g, edges, s, w).Some?
        ensures WalkValue(g, edges, s, w) == Some(g.one)
      {
        WalkIsLookup(g, edges, s, w, a, a);
        StayIsUnit(g, edges, s, a, WalkValue(g, edges, s, w).value);
      }
    }
    if Closes(g, edges, s) {
      forall a, b, c, ba, cb, ca | LooksUp(g, edges, s, b, a, ba) && LooksUp(g, edges, s, c, b, cb)
          && LooksUp(g, edges, s, c, a, ca)
        ensures ca == g.mul(cb, ba)
      {
        ClosedIsFunctorial(g, edges, s, a, b, c, ba, cb, ca);
      }
    }
  }

  /** A frame looked up from itself is the identity: the shortest path has no hop. */
  lemma StayIsUnit<T(!new)>(g: Group<T>, edges: Edges<T>, s: Snapshot<T>, a: Frame, v: T)
    requires LooksUp(g, edges, s, a, a, v)
    ensures v == g.one
  {
    assert WalkTo(edges, [a], a, a);
  }

  /** Where round trips close, looking up the other way round gives the inverse. */
  lemma ClosedInverts<T(!new)>(g: Group<T>, edges: Edges<T>, s: Snapshot<T>, a: Frame, b: Frame, ba: T, ab: T)
    requires IsGroup(g) && Closes(g, edges, s)
    requires LooksUp(g, edges, s, b, a, ba) && LooksUp(g, edges, s, a, b, ab)
    ensures ab == g.inv(ba)
  {
    assert ShortestPath(edges, [a], a, a);
    assert LooksUp(g, edges, s, a, a, g.one);
    ClosedIsFunctorial(g, edges, s, a, b, a, ba, ab, g.one);
    InverseIsUnique(g, ab, ba);
  }

  // ---------------------------------------------------------------- forests always close

  /** On a forest a walk is worth the simple path between its ends. */
  lemma {:induction false} WalkIsPath<T(!new)>(g: Group<T>, edges: Edges<T>, s: Snapshot<T>, w: seq<Frame>, a: Frame,
          b: Frame)
      returns (p: seq<Frame>)
    requires IsGroup(g) && IsForest(edges) && WalkTo(edges, w, a, b) && NoSelfHops(w)
    requires WalkValue(g, edges, s, w).Some?
    ensures SimplePath(edges, p, a, b) && WalkValue(g, edges, s, p) == WalkValue(g, edges, s, w)
    decreases |w|
  {
    if |w| == 1 {
      p := w;
    } else {
      var n := |w| - 1;
      var front, x := w[..n], w[n - 1];
      assert Adjacent(edges, w[n - 1], w[n - 1 + 1]) && w[n - 1] != w[n - 1 + 1];
      WalkValueLast(g, edges, s, w);
      var q := WalkIsPath(g, edges, s, front, a, x);
      TwoFrames(g, edges, s, x, b);
      assert SimplePath(edges, [x, b], x, b);
      p := PathsCompose(g, edges, s, q, [x, b], a, x, b);
    }
  }

  /** Without cycles every round trip closes, whatever the edges say and whichever values are missing. */
  lemma ForestCloses<T(!new)>(g: Group<T>, edges: Edges<T>, s: Snapshot<T>)
    requires IsGroup(g) && IsForest(edges)
    ensures Closes(g, edges, s)
  {
    forall w, a | WalkTo(edges, w, a, a) && NoSelfHops(w) && WalkValue(g, edges, s, w).Some?
      ensures WalkValue(g, edges, s, w) == Some(g.one)
    {
      var p := WalkIsPath(g, edges, s, w, a, a);
      UniquePath(edges, p, [a], a, a);
    }
  }

  /**
    On a forest, for any mix of static and dynamic edges in either orientation, lookup is
    functorial: when b from a and c from b have values, so has c from a, it is their product,
    and it is the only value lookup can return.
  */
  lemma LookupIsFunctorial<T(!new)>(g: Group<T>, edges: Edges<T>, s: Snapshot<T>, a: Frame, b: Frame, c: Frame, ba: T,
          cb: T)
    requires IsGroup(g) && IsForest(edges)
    requires LooksUp(g, edges, s, b, a, ba) && LooksUp(g, edges, s, c, b, cb)
    ensures forall v :: LooksUp(g, edges, s, c, a, v) <==> v == g.mul(cb, ba)
  {
    var p :| ShortestPath(edges, p, a, b) && WalkValue(g, edges, s, p) == Some(ba);
    var q :| ShortestPath(edges, q, b, c) && WalkValue(g, edges, s, q) == Some(cb);
    var r := PathsCompose(g, edges, s, p, q, a, b, c);
    SimpleLooksUp(g, edges, s, r, a, c, g.mul(cb, ba));
    ForestCloses(g, edges, s);
    forall v | LooksUp(g, edges, s, c, a, v) ensures v == g.mul(cb, ba) {
      ClosedIsFunctorial(g, edges, s, a, b, c, ba, cb, v);
    }
  }

  /** On a forest, looking up the other way round gives the inverse. */
  lemma LookupInverts<T(!new)>(g: Group<T>, edges: Edges<T>, s: Snapshot<T>, a: Frame, b: Frame, ba: T, ab: T)
    requires IsGroup(g) && IsForest(edges)
    requires LooksUp(g, edges, s, b, a, ba) && LooksUp(g, edges, s, a, b, ab)
    ensures ab == g.inv(ba)
  {
    ForestCloses(g, edges, s);
    ClosedInverts(g, edges, s, a, b, ba, ab);
  }

  // ---------------------------------------------------------------- a cycle breaks it

  function Sums(): Group<int> {
    Group(0, (x: int, y: int) => x + y, (x: int) => -x)
  }

  /** A ring of three frames whose edges do not close. */
  function Triangle(a: Frame, b: Frame, c: Frame): Edges<int> {
    [Edge(a, b, Static(1)), Edge(b, c, Static(1)), Edge(c, a, Static(1))]
  }

  lemma SumsIsGroup()
    ensures IsGroup(Sums())
  {
  }

  /** On a cycle the shortest way and the way round may disagree: lookup is then not functorial. */
  lemma CycleBreaksFunctoriality(a: Frame, b: Frame, c: Frame)
    requires a != b && b != c && c != a
    ensures IsGroup(Sums())
    ensures LooksUp(Sums(), Triangle(a, b, c), None, b, a, -1) && LooksUp(Sums(), Triangle(a, b, c), None, c, b, -1)
    ensures LooksUp(Sums(), Triangle(a, b, c), None, c, a, 1)
    ensures Sums().mul(-1, -1) != 1
    ensures !Closes(Sums(), Triangle(a, b, c), None) && !IsFunctorial(Sums(), Triangle(a, b, c), None)
  {
    SumsIsGroup();
    var t := Triangle(a, b, c);
    OnlyJoin(t, 0, a, b);
    OnlyJoin(t, 1, b, c);
    OnlyJoin(t, 2, a, c);
    OneHop(t, t[0], a, b, -1);
    OneHop(t, t[1], b, c, -1);
    OneHop(t, t[2], a, c, 1);
    if Closes(Sums(), t, None) { ClosedIsFunctorial(Sums(), t, None, a, b, c, -1, -1, 1); }
  }

  lemma {:induction false} OnlyJoin<T>(edges: Edges<T>, i: nat, a: Frame, b: Frame)
    requires i < |edges| && Joins(edges[i], a, b) && forall j | 0 <= j < |edges| && j != i :: !Joins(edges[j], a, b)
    ensures Between(edges, a, b) == [edges[i]]
    decreases |edges|
  {
    var front := edges[..|edges| - 1];
    if i < |front| { OnlyJoin(front, i, a, b); } else { BetweenJoins(front, a, b); }
  }

  /** Two frames joined by one static edge: looking one up from the other is that hop. */
  lemma OneHop(t: Edges<int>, e: Edge<int>, a: Frame, b: Frame, v: int)
    requires a != b && Between(t, a, b) == [e] && e.source == Static(1) && Joins(e, a, b)
    requires v == if e.parent == a then -1 else 1
    ensures LooksUp(Sums(), t, None, b, a, v)
  {
    SumsIsGroup();
    BetweenJoins(t, a, b);
    assert Preferred([e]) == Some(e) by { assert [e][..0] == []; }
    TwoFrames(Sums(), t, None, a, b);
    assert SimplePath(t, [a, b], a, b);
    assert ShortestPath(t, [a, b], a, b);
  }
}
