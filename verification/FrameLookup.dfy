/**
  The Frames container: adjacency lists, breadth-first path finding, edge override and lookup.
*/
module FrameLookup {
  import opened Wrappers
  import opened FrameGraph

  datatype FramesError = FrameNotFound(frame: Frame) | FramesDisconnected | AlreadyBound(parent: Frame, child: Frame)

  /** The adjacency list of a frame: every edge touching it, in insertion order, a self-loop twice. */
  function Touching<T>(edges: Edges<T>, f: Frame): Edges<T> {
    if edges == [] then []
    else
      var e := edges[|edges| - 1];
      Touching(edges[..|edges| - 1], f) + (if e.parent == f then [e] else []) + (if e.child == f then [e] else [])
  }

  function Other<T>(e: Edge<T>, f: Frame): Frame {
    if e.parent == f then e.child else e.parent
  }

  ghost predicate Known<T>(edges: Edges<T>, f: Frame) {
    exists i | 0 <= i < |edges| :: edges[i].parent == f || edges[i].child == f
  }

  ghost predicate BoundDynamic<T>(edges: Edges<T>, parent: Frame, child: Frame) {
    exists i | 0 <= i < |edges| :: edges[i].parent == parent && edges[i].child == child && edges[i].source.Dynamic?
  }

  lemma TouchingSnoc<T>(edges: Edges<T>, e: Edge<T>, f: Frame)
    ensures Touching(edges + [e], f) ==
            Touching(edges, f) + (if e.parent == f then [e] else []) + (if e.child == f then [e] else [])
  {
    assert (edges + [e])[..|edges|] == edges;
  }

  /** Some edge of f's list leads to m. */
  predicate Reaches<T>(es: Edges<T>, f: Frame, m: Frame) {
    exists j | 0 <= j < |es| :: Other(es[j], f) == m
  }

  lemma ReachesConcat<T>(x: Edges<T>, y: Edges<T>, f: Frame, m: Frame)
    ensures Reaches(x + y, f, m) <==> Reaches(x, f, m) || Reaches(y, f, m)
  {
    if i :| 0 <= i < |x| && Other(x[i], f) == m { assert (x + y)[i] == x[i]; }
    if i :| 0 <= i < |y| && Other(y[i], f) == m { assert (x + y)[|x| + i] == y[i]; }
  }

  lemma AdjacentSnoc<T>(edges: Edges<T>, f: Frame, m: Frame)
    requires edges != []
    ensures Adjacent(edges, f, m) <==>
            Adjacent(edges[..|edges| - 1], f, m) || Joins(edges[|edges| - 1], f, m)
  {
    var front := edges[..|edges| - 1];
    if i :| 0 <= i < |front| && Joins(front[i], f, m) { assert edges[i] == front[i]; }
    if i :| 0 <= i < |edges| && Joins(edges[i], f, m) {
      if i < |front| { assert front[i] == edges[i]; }
    }
  }

  /** The neighbours found in the adjacency list are the adjacent frames. */
  lemma {:induction false} NeighboursListed<T>(edges: Edges<T>, f: Frame, m: Frame)
    ensures Adjacent(edges, f, m) <==> Reaches(Touching(edges, f), f, m)
    decreases |edges|
  {
    if edges != [] {
      hide Adjacent;
      var front, e := edges[..|edges| - 1], edges[|edges| - 1];
      var more := (if e.parent == f then [e] else []) + (if e.child == f then [e] else []);
      NeighboursListed(front, f, m);
      AdjacentSnoc(edges, f, m);
      ReachesConcat(Touching(front, f), more, f, m);
      assert Touching(edges, f) == Touching(front, f) + more;
      if more != [] { assert more[0] == e && more[|more| - 1] == e; }
    }
  }

  lemma {:induction false} BetweenConcat<T>(x: Edges<T>, y: Edges<T>, a: Frame, b: Frame)
    ensures Between(x + y, a, b) == Between(x, a, b) + Between(y, a, b)
    decreases |y|
  {
    if y == [] {
      assert x + y == x;
    } else {
      assert (x + y)[..|x + y| - 1] == x + y[..|y| - 1];
      BetweenConcat(x, y[..|y| - 1], a, b);
    }
  }

  lemma BetweenOne<T>(e: Edge<T>, a: Frame, b: Frame)
    ensures Between([e], a, b) == if Joins(e, a, b) then [e] else []
  {
    assert [e][..0] == [];
  }

  /** Scanning one endpoint's list meets the joining edges in insertion order. */
  lemma {:induction false} TouchingHoldsBetween<T>(edges: Edges<T>, a: Frame, b: Frame)
    requires a != b
    ensures Between(Touching(edges, a), a, b) == Between(edges, a, b)
    decreases |edges|
  {
    if edges != [] {
      var front, e := edges[..|edges| - 1], edges[|edges| - 1];
      TouchingHoldsBetween(front, a, b);
      var t := Touching(front, a);
      var x, y := if e.parent == a then [e] else [], if e.child == a then [e] else [];
      BetweenConcat(t + x, y, a, b);
      BetweenConcat(t, x, a, b);
      BetweenOne(e, a, b);
    }
  }

  lemma {:induction false} DynamicIsKept<T>(x: Edges<T>, y: Edges<T>)
    requires Preferred(x).Some? && Preferred(x).value.source.Dynamic?
    ensures Preferred(x + y) == Preferred(x)
    decreases |y|
  {
    if y == [] {
      assert x + y == x;
    } else {
      assert (x + y)[..|x + y| - 1] == x + y[..|y| - 1];
      DynamicIsKept(x, y[..|y| - 1]);
    }
  }

  // ---------------------------------------------------------------- breadth-first search

  type Prev = map<Frame, Option<Frame>>
  type Levels = map<Frame, nat>

  /** Every discovered frame but the source has a discovered predecessor, adjacent and one level up. */
  ghost predicate Layered<T>(edges: Edges<T>, source: Frame, prev: Prev, level: Levels) {
    && prev.Keys == level.Keys && source in prev && level[source] == 0
    && (forall n | n in prev :: prev[n].None? <==> n == source)
    && (forall n | n in prev && n != source ::
          && prev[n].value in prev && Adjacent(edges, prev[n].value, n)
          && level[n] == level[prev[n].value] + 1)
  }

  /** Frames already expanded have all their neighbours discovered, at most one level down. */
  ghost predicate Expanded<T>(edges: Edges<T>, level: Levels, done: set<Frame>) {
    forall n, m | n in done && Adjacent(edges, n, m) :: n in level && m in level && level[m] <= level[n] + 1
  }

  /** Queued frames sit on level d and then on level d+1; everything expanded lies at d or above. */
  ghost predicate Frontier(level: Levels, q: seq<Frame>, done: set<Frame>, d: nat) {
    && (forall i | 0 <= i < |q| :: q[i] in level && d <= level[q[i]] <= d + 1)
    && (forall i, j | 0 <= i < j < |q| && q[i] in level && q[j] in level :: level[q[i]] <= level[q[j]])
    && (forall n | n in done :: n in level && level[n] <= d)
  }

  /** The state of a search at depth d: discovered frames are expanded, queued, or being expanded. */
  ghost predicate Searching<T>(edges: Edges<T>, source: Frame, prev: Prev, level: Levels, q: seq<Frame>,
                               done: set<Frame>, busy: set<Frame>, d: nat) {
    && Layered(edges, source, prev, level) && Expanded(edges, level, done) && Frontier(level, q, done, d)
    && Accounted(prev, q, done, busy) && OnLevel(level, busy, d)
  }

  /** Every discovered frame is expanded, queued or being expanded. */
  ghost predicate Accounted(prev: Prev, q: seq<Frame>, done: set<Frame>, busy: set<Frame>) {
    forall n | n in prev :: n in done || n in q || n in busy
  }

  ghost predicate OnLevel(level: Levels, frames: set<Frame>, d: nat) {
    forall n | n in frames :: n in level && level[n] == d
  }

  lemma Pop<T>(edges: Edges<T>, source: Frame, prev: Prev, level: Levels, q: seq<Frame>, done: set<Frame>, d: nat)
    requires q != [] && Searching(edges, source, prev, level, q, done, {}, d) && level[q[0]] == d
    ensures Searching(edges, source, prev, level, q[1..], done, {q[0]}, d)
  {
  }

  lemma DiscoverLayered<T>(edges: Edges<T>, source: Frame, prev: Prev, level: Levels, node: Frame, m: Frame)
    requires Layered(edges, source, prev, level) && node in prev && m !in prev && Adjacent(edges, node, m)
    ensures Layered(edges, source, prev[m := Some(node)], level[m := level[node] + 1])
  {
  }

  lemma DiscoverExpanded<T>(edges: Edges<T>, level: Levels, done: set<Frame>, m: Frame, l: nat)
    requires Expanded(edges, level, done) && m !in level
    ensures Expanded(edges, level[m := l], done)
  {
  }

  lemma DiscoverFrontier(level: Levels, q: seq<Frame>, done: set<Frame>, m: Frame, d: nat)
    requires Frontier(level, q, done, d) && m !in level
    ensures Frontier(level[m := d + 1], q + [m], done, d)
  {
  }

  lemma Discover<T>(edges: Edges<T>, source: Frame, prev: Prev, level: Levels, q: seq<Frame>, done: set<Frame>,
                    node: Frame, m: Frame, d: nat)
    requires Searching(edges, source, prev, level, q, done, {node}, d)
    requires m !in prev && Adjacent(edges, node, m)
    ensures Searching(edges, source, prev[m := Some(node)], level[m := d + 1], q + [m], done, {node}, d)
  {
    assert node in {node} && node in level && level[node] == d && m !in level;
    assert OnLevel(level[m := d + 1], {node}, d);
    DiscoverLayered(edges, source, prev, level, node, m);
    DiscoverExpanded(edges, level, done, m, d + 1);
    DiscoverFrontier(level, q, done, m, d);
    StillQueued(prev, q, done, node, m);
  }

  lemma StillQueued(prev: Prev, q: seq<Frame>, done: set<Frame>, node: Frame, m: Frame)
    requires Accounted(prev, q, done, {node})
    ensures Accounted(prev[m := Some(node)], q + [m], done, {node})
  {
    forall n | n in prev[m := Some(node)] ensures n in done || n in q + [m] || n in {node} {
      if n == m { assert (q + [m])[|q|] == m; } else if n in q { InPrefix(q, m, n); }
    }
  }

  lemma InPrefix(q: seq<Frame>, m: Frame, n: Frame)
    requires n in q
    ensures n in q + [m]
  {
    var i :| 0 <= i < |q| && q[i] == n;
    assert (q + [m])[i] == n;
  }

  lemma Finish<T>(edges: Edges<T>, source: Frame, prev: Prev, level: Levels, q: seq<Frame>, done: set<Frame>,
                  node: Frame, d: nat)
    requires Searching(edges, source, prev, level, q, done, {node}, d)
    requires forall m | Adjacent(edges, node, m) :: m in prev
    ensures Searching(edges, source, prev, level, q, done + {node}, {}, d)
    ensures q != [] ==> Searching(edges, source, prev, level, q, done + {node}, {}, level[q[0]])
  {
    forall n | n in prev ensures level[n] <= d + 1 {
      if n in q { var i :| 0 <= i < |q| && q[i] == n; }
    }
    assert Expanded(edges, level, done + {node});
  }

  /** Up to depth D, a walk from the source only visits discovered frames, no deeper than its length. */
  lemma {:induction false} WalkIsDiscovered<T>(edges: Edges<T>, source: Frame, prev: Prev, level: Levels,
          done: set<Frame>, depth: nat, w: seq<Frame>, i: nat)
    requires Layered(edges, source, prev, level) && Expanded(edges, level, done)
    requires forall n | n in level && n !in done :: level[n] >= depth
    requires IsWalk(edges, w) && w[0] == source && i < |w| && i <= depth
    ensures w[i] in level && level[w[i]] <= i
    decreases i
  {
    if i > 0 {
      WalkIsDiscovered(edges, source, prev, level, done, depth, w, i - 1);
      assert Adjacent(edges, w[i - 1], w[i]);
    }
  }

  /** Nothing shorter than the level found exists. */
  lemma NoShorterWalk<T>(edges: Edges<T>, source: Frame, prev: Prev, level: Levels, q: seq<Frame>, done: set<Frame>,
                         busy: set<Frame>, d: nat, target: Frame, w: seq<Frame>)
    requires Searching(edges, source, prev, level, q, done, busy, d)
    requires busy == {target} || (busy == {} && q == [])
    requires WalkTo(edges, w, source, target)
    ensures target in level && level[target] + 1 <= |w|
  {
    hide Layered, Expanded, Frontier, Accounted;
    if busy == {} {
      AllExpanded(edges, source, prev, level, q, done, d);
      WalkIsDiscovered(edges, source, prev, level, done, |w| - 1, w, |w| - 1);
    } else if |w| - 1 < d {
      PendingAreDeep(edges, source, prev, level, q, done, busy, d);
      WalkIsDiscovered(edges, source, prev, level, done, d, w, |w| - 1);
    }
  }

  lemma AllExpanded<T>(edges: Edges<T>, source: Frame, prev: Prev, level: Levels, q: seq<Frame>, done: set<Frame>,
                       d: nat)
    requires Searching(edges, source, prev, level, q, done, {}, d) && q == []
    ensures forall n | n in level :: n in done
  {
    hide Expanded, Frontier;
  }

  /** What is not expanded yet lies at the current depth or below. */
  lemma PendingAreDeep<T>(edges: Edges<T>, source: Frame, prev: Prev, level: Levels, q: seq<Frame>, done: set<Frame>,
                          busy: set<Frame>, d: nat)
    requires Searching(edges, source, prev, level, q, done, busy, d)
    ensures forall n | n in level && n !in done :: level[n] >= d
  {
    hide Expanded;
    forall n | n in level && n !in done ensures level[n] >= d {
      if n in q { var i :| 0 <= i < |q| && q[i] == n; }
    }
  }

  /** A way up from the target, one level per hop. */
  ghost predicate Climbed<T>(edges: Edges<T>, level: Levels, target: Frame, back: seq<Frame>)
    requires target in level
  {
    && (back != [] ==> back[0] == target)
    && (forall i | 0 <= i < |back| :: back[i] in level && level[back[i]] == level[target] - i)
    && (forall i | 0 <= i < |back| - 1 :: Adjacent(edges, back[i + 1], back[i]))
  }

  lemma ClimbOn<T>(edges: Edges<T>, source: Frame, prev: Prev, level: Levels, target: Frame, back: seq<Frame>)
    requires Layered(edges, source, prev, level) && target in level && Climbed(edges, level, target, back)
    requires back != [] && back[|back| - 1] in prev && prev[back[|back| - 1]].Some?
    ensures Climbed(edges, level, target, back + [prev[back[|back| - 1]].value])
  {
  }

  lemma ClimbedIsPath<T>(edges: Edges<T>, level: Levels, source: Frame, target: Frame, back: seq<Frame>)
    requires target in level && Climbed(edges, level, target, back) && |back| == level[target] + 1
    requires back[|back| - 1] == source
    ensures SimplePath(edges, Rev(back), source, target)
  {
    var r := Rev(back);
    forall i | 0 <= i < |r| - 1 ensures Adjacent(edges, r[i], r[i + 1]) {
      var j := |back| - 2 - i;
      assert Adjacent(edges, back[j + 1], back[j]);
    }
    forall i, j | 0 <= i < j < |r| ensures r[i] != r[j] {
      assert level[back[|back| - 1 - i]] != level[back[|back| - 1 - j]];
    }
  }

  function FramesOf<T>(edges: Edges<T>): set<Frame> {
    (set i | 0 <= i < |edges| :: edges[i].parent) + (set i | 0 <= i < |edges| :: edges[i].child)
  }

  lemma OtherIsFrame<T>(edges: Edges<T>, node: Frame, m: Frame)
    requires Adjacent(edges, node, m)
    ensures m in FramesOf(edges)
  {
    var i :| 0 <= i < |edges| && Joins(edges[i], node, m);
    assert edges[i].parent in FramesOf(edges) && edges[i].child in FramesOf(edges);
  }

  lemma Neighbour<T>(edges: Edges<T>, node: Frame, i: nat)
    requires i < |Touching(edges, node)|
    ensures var m := Other(Touching(edges, node)[i], node); Adjacent(edges, node, m) && m in FramesOf(edges)
  {
    var m := Other(Touching(edges, node)[i], node);
    NeighboursListed(edges, node, m);
    OtherIsFrame(edges, node, m);
  }

  lemma BetweenPrefix<T>(es: Edges<T>, i: nat, a: Frame, b: Frame)
    requires i < |es|
    ensures Between(es[..i + 1], a, b) == Between(es[..i], a, b) + if Joins(es[i], a, b) then [es[i]] else []
  {
    var init := es[..i + 1];
    assert init[..|init| - 1] == es[..i] && init[|init| - 1] == es[i];
  }

  lemma PreferredSnoc<T>(es: Edges<T>, e: Edge<T>)
    ensures Preferred(es + [e]) ==
            if Preferred(es).Some? && Preferred(es).value.source.Dynamic? then Preferred(es) else Some(e)
  {
    assert (es + [e])[..|es|] == es;
  }

  lemma RestKeepsDynamic<T>(es: Edges<T>, i: nat, a: Frame, b: Frame)
    requires i <= |es|
    requires var p := Preferred(Between(es[..i], a, b)); p.Some? && p.value.source.Dynamic?
    ensures Preferred(Between(es, a, b)) == Preferred(Between(es[..i], a, b))
  {
    assert es == es[..i] + es[i..];
    BetweenConcat(es[..i], es[i..], a, b);
    DynamicIsKept(Between(es[..i], a, b), Between(es[i..], a, b));
  }

  /** One more entry scanned: a dynamic joining edge is the choice for good, a static one for now. */
  lemma ScanStep<T>(es: Edges<T>, i: nat, a: Frame, b: Frame)
    requires i < |es|
    requires var before := Preferred(Between(es[..i], a, b)); before.Some? ==> before.value.source.Static?
    ensures Preferred(Between(es[..i + 1], a, b)) ==
            if Joins(es[i], a, b) then Some(es[i]) else Preferred(Between(es[..i], a, b))
    ensures Joins(es[i], a, b) && es[i].source.Dynamic? ==> Preferred(Between(es, a, b)) == Some(es[i])
  {
    var before := Between(es[..i], a, b);
    BetweenPrefix(es, i, a, b);
    if Joins(es[i], a, b) {
      PreferredSnoc(before, es[i]);
      if es[i].source.Dynamic? { RestKeepsDynamic(es, i + 1, a, b); }
    } else {
      assert before + [] == before;
    }
  }

  /** A missing value stays missing, however much further the path goes. */
  lemma {:induction false} NoneAfter<T>(g: Group<T>, edges: Edges<T>, s: Snapshot<T>, p: seq<Frame>, n: nat)
    requires 0 < n <= |p| && WalkValue(g, edges, s, p[..n]).None?
    ensures WalkValue(g, edges, s, p).None?
    decreases |p| - n
  {
    if n < |p| {
      assert p[..n + 1][..n] == p[..n];
      NoneAfter(g, edges, s, p, n + 1);
    } else {
      assert p[..n] == p;
    }
  }

  /** The first i entries of an adjacency list lead to discovered frames. */
  ghost predicate Visited<T>(es: Edges<T>, i: nat, node: Frame, prev: Prev) {
    i <= |es| && forall j | 0 <= j < i :: Other(es[j], node) in prev
  }

  lemma AllVisited<T>(edges: Edges<T>, node: Frame, prev: Prev)
    requires Visited(Touching(edges, node), |Touching(edges, node)|, node, prev)
    ensures forall m | Adjacent(edges, node, m) :: m in prev
  {
    forall m | Adjacent(edges, node, m) ensures m in prev { NeighboursListed(edges, node, m); }
  }

  lemma OneFewer(all: set<Frame>, prev: Prev, m: Frame, from: Frame)
    requires m in all && m !in prev
    ensures |all - prev[m := Some(from)].Keys| == |all - prev.Keys| - 1
  {
    assert all - prev[m := Some(from)].Keys == (all - prev.Keys) - {m};
  }

  lemma KnownSnoc<T>(edges: Edges<T>, e: Edge<T>)
    ensures forall f :: Known(edges + [e], f) <==> Known(edges, f) || f == e.parent || f == e.child
    ensures forall p, c :: BoundDynamic(edges + [e], p, c) <==>
                             BoundDynamic(edges, p, c) || (p == e.parent && c == e.child && e.source.Dynamic?)
  {
    var after := edges + [e];
    assert after[|edges|] == e;
    forall f | Known(edges, f) ensures Known(after, f) {
      var i :| 0 <= i < |edges| && (edges[i].parent == f || edges[i].child == f);
      assert after[i] == edges[i];
    }
    forall p, c | BoundDynamic(edges, p, c) ensures BoundDynamic(after, p, c) {
      var i :| 0 <= i < |edges| && edges[i].parent == p && edges[i].child == c && edges[i].source.Dynamic?;
      assert after[i] == edges[i];
    }
  }

  type Adjacency<T> = map<Frame, Edges<T>>

  function ListOf<T>(adj: Adjacency<T>, f: Frame): Edges<T> {
    if f in adj then adj[f] else []
  }

  /** A self-loop enters its list twice, as two appends do. */
  function WithEdge<T>(adj: Adjacency<T>, e: Edge<T>): Adjacency<T> {
    var adj' := adj[e.parent := ListOf(adj, e.parent) + [e]];
    adj'[e.child := ListOf(adj', e.child) + [e]]
  }

  /** The adjacency lists of a log of edges: a frame has one exactly when some edge names it. */
  ghost predicate Lists<T>(adj: Adjacency<T>, edges: Edges<T>) {
    && (forall f :: f in adj <==> Known(edges, f))
    && (forall f :: ListOf(adj, f) == Touching(edges, f))
  }

  lemma WithEdgeLists<T>(adj: Adjacency<T>, edges: Edges<T>, e: Edge<T>)
    requires Lists(adj, edges)
    ensures Lists(WithEdge(adj, e), edges + [e])
  {
    hide Touching;
    var adj', edges' := WithEdge(adj, e), edges + [e];
    forall f ensures ListOf(adj', f) == Touching(edges', f) && (f in adj' <==> Known(edges', f)) {
      TouchingSnoc(edges, e, f);
      KnownSnoc(edges, e);
      assert ListOf(adj, f) == Touching(edges, f) && (f in adj <==> Known(edges, f));
      assert ListOf(adj', f) == ListOf(adj, f) + (if e.parent == f then [e] else [])
          + (if e.child == f then [e] else []);
    }
  }

  class Frames<T(!new)> {
    const group: Group<T>
    var adj: map<Frame, Edges<T>>
    var dynamicEdges: map<(Frame, Frame), Edge<T>>
    /** The log: all edges ever added, oldest first. */
    ghost var edges: Edges<T>

    ghost predicate Valid()
      reads this
    {
      && Lists(adj, edges)
      && (forall p, c :: (p, c) in dynamicEdges <==> BoundDynamic(edges, p, c))
    }

    constructor (group: Group<T>)
      ensures Valid() && edges == [] && this.group == group
    {
      this.group := group;
      adj, dynamicEdges, edges := map[], map[], [];
    }

    method AddEdge(e: Edge<T>)
      requires Lists(adj, edges)
      modifies `adj, `edges
      ensures Lists(adj, edges) && edges == old(edges) + [e]
    {
      WithEdgeLists(adj, edges, e);
      adj := adj[e.parent := ListOf(adj, e.parent) + [e]];
      adj := adj[e.child := ListOf(adj, e.child) + [e]];
      edges := edges + [e];
    }

    /** Binding the same ordered pair twice is an error and changes nothing. */
    method BindDynamic(parent: Frame, child: Frame, key: string, required: bool) returns (r: Result<(), FramesError>)
      requires Valid()
      modifies this
      ensures Valid()
      ensures r == if BoundDynamic(old(edges), parent, child) then Err(AlreadyBound(parent, child)) else Ok(())
      ensures r.Err? <==> exists i | 0 <= i < |old(edges)| ::
                old(edges)[i].source.Dynamic? && old(edges)[i].parent == parent && old(edges)[i].child == child
      ensures edges == if r.Ok? then old(edges) + [Edge(parent, child, Dynamic(key, required))] else old(edges)
    {
      if (parent, child) in dynamicEdges { return Err(AlreadyBound(parent, child)); }
      var e := Edge(parent, child, Dynamic(key, required));
      dynamicEdges := dynamicEdges[(parent, child) := e];
      AddEdge(e);
      KnownSnoc(old(edges), e);
      return Ok(());
    }

    /** Load the calibration's edges in file order, stopping at the first double binding. */
    method Load(records: Edges<T>) returns (r: Result<(), FramesError>)
      requires Valid()
      modifies this
      ensures Valid()
      ensures r.Ok? ==> edges == old(edges) + records
      ensures r.Err? ==> exists i | 0 <= i < |records| ::
                edges == old(edges) + records[..i] && records[i].source.Dynamic?
                && BoundDynamic(edges, records[i].parent, records[i].child)
    {
      for i := 0 to |records|
        invariant Valid() && edges == old(edges) + records[..i]
      {
        var e := records[i];
        assert records[..i + 1] == records[..i] + [e];
        match e.source
        case Dynamic(key, required) =>
          var bound := BindDynamic(e.parent, e.child, key, required);
          if bound.Err? { return bound; }
        case Static(_) =>
          ghost var before := edges;
          AddEdge(e);
          KnownSnoc(before, e);
      }
      assert records[..|records|] == records;
      return Ok(());
    }

    // ------------------------------------------------------------ path finding

    /** Visit the neighbours of a frame just taken from the queue; each discovery moves one frame into the queue. */
    method Expand(node: Frame, prev: Prev, q: seq<Frame>, ghost source: Frame, ghost level: Levels,
            ghost done: set<Frame>, ghost d: nat, ghost all: set<Frame>)
        returns (prev': Prev, q': seq<Frame>, ghost level': Levels)
      requires Valid() && Searching(edges, source, prev, level, q, done, {node}, d)
      requires all == FramesOf(edges) + {source}
      ensures Searching(edges, source, prev', level', q', done + {node}, {}, d)
      ensures q' != [] ==> Searching(edges, source, prev', level', q', done + {node}, {}, level'[q'[0]])
      ensures |all - prev'.Keys| + |q'| == |all - prev.Keys| + |q|
    {
      prev', q', level' := prev, q, level;
      var es := ListOf(adj, node);
      for i := 0 to |es|
        invariant Searching(edges, source, prev', level', q', done, {node}, d)
        invariant Visited(es, i, node, prev')
        invariant |all - prev'.Keys| + |q'| == |all - prev.Keys| + |q|
      {
        prev', q', level' := Visit(node, i, prev', q', source, level', done, d, all);
      }
      AllVisited(edges, node, prev');
      Finish(edges, source, prev', level', q', done, node, d);
    }

    method Visit(node: Frame, i: nat, prev: Prev, q: seq<Frame>, ghost source: Frame, ghost level: Levels,
                 ghost done: set<Frame>, ghost d: nat, ghost all: set<Frame>)
        returns (prev': Prev, q': seq<Frame>, ghost level': Levels)
      requires Valid() && Searching(edges, source, prev, level, q, done, {node}, d) && all == FramesOf(edges) + {source}
      requires i < |ListOf(adj, node)| && Visited(ListOf(adj, node), i, node, prev)
      ensures Searching(edges, source, prev', level', q', done, {node}, d)
      ensures Visited(ListOf(adj, node), i + 1, node, prev')
      ensures |all - prev'.Keys| + |q'| == |all - prev.Keys| + |q|
    {
      prev', q', level' := prev, q, level;
      var next := Other(ListOf(adj, node)[i], node);
      if next !in prev {
        Neighbour(edges, node, i);
        Discover(edges, source, prev, level, q, done, node, next, d);
        OneFewer(all, prev, next, node);
        prev', q', level' := prev[next := Some(node)], q + [next], level[next := d + 1];
      }
    }

    /** Follow the predecessors back from the target. */
    method Trace(prev: Prev, target: Frame, ghost source: Frame, ghost level: Levels) returns (path: seq<Frame>)
      requires Layered(edges, source, prev, level) && target in prev
      ensures SimplePath(edges, path, source, target) && |path| == level[target] + 1
    {
      var back: seq<Frame> := [];
      var cur := Some(target);
      while cur.Some?
        invariant Climbed(edges, level, target, back)
        invariant cur.Some? ==> cur.value in prev && level[cur.value] == level[target] - |back|
                                && Climbed(edges, level, target, back + [cur.value])
        invariant cur.None? ==> |back| == level[target] + 1 && back[|back| - 1] == source
        decreases cur.Some?, level[target] + 1 - |back|
      {
        var node := cur.value;
        back := back + [node];
        cur := prev[node];
        if cur.Some? { ClimbOn(edges, source, prev, level, target, back); }
      }
      path := Rev(back);
      ClimbedIsPath(edges, level, source, target, back);
    }

    /** None exactly when no walk connects the two frames, else a simple path with as few hops as any walk. */
    method FindPath(source: Frame, target: Frame) returns (path: Option<seq<Frame>>)
      requires Valid()
      ensures path.None? <==> forall w :: !WalkTo(edges, w, source, target)
      ensures path.Some? ==> ShortestPath(edges, path.value, source, target)
    {
      hide FramesOf;
      var prev: Prev := map[source := None];
      var q := [source];
      ghost var level: Levels, done: set<Frame>, busy: set<Frame>, depth := map[source := 0], {}, {}, 0;
      ghost var all := FramesOf(edges) + {source};
      while q != []
        invariant Searching(edges, source, prev, level, q, done, busy, depth)
        invariant busy == {} && (q != [] ==> level[q[0]] == depth)
        decreases |all - prev.Keys| + |q|
      {
        var node := q[0];
        Pop(edges, source, prev, level, q, done, depth);
        q := q[1..];
        if node == target {
          busy := {node};
          break;
        }
        prev, q, level := Expand(node, prev, q, source, level, done, depth, all);
        done := done + {node};
        if q != [] { depth := level[q[0]]; }
      }
      forall w | WalkTo(edges, w, source, target) ensures target in level && level[target] + 1 <= |w| {
        NoShorterWalk(edges, source, prev, level, q, done, busy, depth, target, w);
      }
      if target !in prev { return None; }
      var p := Trace(prev, target, source, level);
      path := Some(p);
    }

    // ------------------------------------------------------------ lookup

    /** The dynamic edge wins over the static one: scan one endpoint's list, stopping at the first dynamic edge. */
    method EdgeBetween(a: Frame, b: Frame) returns (r: Result<Edge<T>, FramesError>)
      requires Valid() && a != b
      ensures r == match Chosen(edges, a, b) case Some(e) => Ok(e) case None => Err(FramesDisconnected)
    {
      var es := ListOf(adj, a);
      TouchingHoldsBetween(edges, a, b);
      var chosen: Option<Edge<T>> := None;
      for i := 0 to |es|
        invariant chosen == Preferred(Between(es[..i], a, b))
        invariant chosen.Some? ==> chosen.value.source.Static?
      {
        var e := es[i];
        ScanStep(es, i, a, b);
        if Joins(e, a, b) {
          if e.source.Dynamic? { return Ok(e); }
          chosen := Some(e);
        }
      }
      assert es[..|es|] == es;
      if chosen.None? { return Err(FramesDisconnected); }
      return Ok(chosen.value);
    }

    /** T(b <- a) for one hop. */
    method HopMatrix(a: Frame, b: Frame, snapshot: Snapshot<T>) returns (r: Result<T, FramesError>)
      requires Valid() && a != b
      ensures r == match HopValue(group, edges, snapshot, a, b)
                   case Some(v) => Ok(v)
                   case None => Err(FramesDisconnected)
    {
      var found := EdgeBetween(a, b);
      if found.Err? { return Err(found.error); }
      var e := found.value;
      var natural := EdgeValue(group, e, snapshot);
      if natural.None? { return Err(FramesDisconnected); }
      if a == e.child && b == e.parent { return Ok(natural.value); }
      return Ok(group.inv(natural.value));
    }

    /** The running product over the hops of a path; the first hop without a value ends it. */
    method Along(p: seq<Frame>, snapshot: Snapshot<T>) returns (r: Result<T, FramesError>)
      requires Valid() && p != [] && Distinct(p)
      ensures r == match WalkValue(group, edges, snapshot, p)
                   case Some(v) => Ok(v)
                   case None => Err(FramesDisconnected)
    {
      hide HopValue;
      var result := group.one;
      for i := 0 to |p| - 1
        invariant WalkValue(group, edges, snapshot, p[..i + 1]) == Some(result)
      {
        var hop := HopMatrix(p[i], p[i + 1], snapshot);
        ghost var upTo := p[..i + 2];
        assert upTo[..|upTo| - 1] == p[..i + 1];
        if hop.Err? {
          NoneAfter(group, edges, snapshot, p, i + 2);
          return Err(FramesDisconnected);
        }
        result := group.mul(hop.value, result);
      }
      assert p[..|p| - 1 + 1] == p;
      return Ok(result);
    }

    /**
      T(target <- source). An unknown frame is reported before anything else, the source first;
      the rest fails only when the frames are disconnected or a required value on the path is missing.
    */
    method Lookup(target: Frame, source: Frame, snapshot: Snapshot<T>) returns (r: Result<T, FramesError>)
      requires Valid()
      ensures r == Err(FrameNotFound(source)) <==> !Known(edges, source)
      ensures Known(edges, source) ==> (r == Err(FrameNotFound(target)) <==> !Known(edges, target))
      ensures Known(edges, source) && Known(edges, target) && r.Err? ==>
                && r.error == FramesDisconnected
                && ((forall w :: !WalkTo(edges, w, source, target))
                    || exists p :: ShortestPath(edges, p, source, target) && WalkValue(group, edges, snapshot, p).None?)
      ensures r.Ok? ==> LooksUp(group, edges, snapshot, target, source, r.value)
    {
      hide HopValue;
      if source !in adj { return Err(FrameNotFound(source)); }
      if target !in adj { return Err(FrameNotFound(target)); }
      if source == target {
        assert ShortestPath(edges, [source], source, target);
        return Ok(group.one);
      }
      var path := FindPath(source, target);
      if path.None? { return Err(FramesDisconnected); }
      r := Along(path.value, snapshot);
    }
  }
}
