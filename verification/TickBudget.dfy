/** How much work a tick can cause. */
module TickBudget {
  import opened Wrappers
  import opened BehaviorTree
  import opened LeafProtocol

  // Every call out of a tree, halts included, is paid for by the ticks: a node pays for at most two
  // calls a tick, and a leaf that stays RUNNING has its halt paid in advance. That the ticks
  // themselves reach a node at most once each is part of `TreeNodes.TreeNode.Tick`.

  /** The number of nodes. */
  function Size(t: Tree): (n: nat)
    ensures n >= 1
    decreases t
  {
    match t
    case Leaf(_, _, _) => 1
    case Control(_, _, _, cs) => 1 + SizeOf(cs)
    case Decorator(_, _, _, _, _, c) => 1 + Size(c)
  }

  function SizeOf(cs: seq<Tree>): nat
    decreases cs
  {
    if cs == [] then 0 else Size(cs[0]) + SizeOf(cs[1..])
  }

  /** The number of RUNNING leaves: the calls a halt would make. */
  function Live(t: Tree): nat
    decreases t
  {
    match t
    case Leaf(_, st, _) => if st == RUNNING then 1 else 0
    case Control(_, _, _, cs) => LiveOf(cs)
    case Decorator(_, _, _, _, _, c) => Live(c)
  }

  function LiveOf(cs: seq<Tree>): nat
    decreases cs
  {
    if cs == [] then 0 else Live(cs[0]) + LiveOf(cs[1..])
  }

  // ---------------------------------------------------------------- halt

  /** Halting makes one call for every RUNNING leaf and leaves none RUNNING. */
  lemma {:induction false} HaltCost(t: Tree, h: Trace)
    ensures var r := Halt(t, h); |r.trace| == |h| + Live(t) && Live(r.tree) == 0
    decreases t
  {
    match t
    case Leaf(_, _, _) =>
    case Control(_, _, _, cs) => HaltAllCost(cs, h);
    case Decorator(_, _, _, _, _, c) => HaltCost(c, h);
  }

  lemma {:induction false} HaltAllCost(cs: seq<Tree>, h: Trace)
    ensures var r := HaltAll(cs, h); |r.trace| == |h| + LiveOf(cs) && LiveOf(r.trees) == 0
    decreases cs
  {
    if cs != [] {
      var r := Halt(cs[0], h);
      HaltCost(cs[0], h);
      HaltAllCost(cs[1..], r.trace);
      assert HaltAll(cs, h).trees[1..] == HaltAll(cs[1..], r.trace).trees;
    }
  }

  lemma {:induction false} HaltRunningCost(cs: seq<Tree>, h: Trace)
    ensures var r := HaltRunning(cs, h); |r.trace| + LiveOf(r.trees) == |h| + LiveOf(cs)
    decreases cs
  {
    if cs != [] {
      var r := if cs[0].status == RUNNING then Halt(cs[0], h) else HaltStep(cs[0], h);
      HaltCost(cs[0], h);
      HaltRunningCost(cs[1..], r.trace);
      assert HaltRunning(cs, h).trees[1..] == HaltRunning(cs[1..], r.trace).trees;
    }
  }

  // ---------------------------------------------------------------- tick

  /** From h to h', at most `paid` calls beyond those saved by RUNNING leaves that no longer run. */
  ghost predicate Within(h: Trace, before: nat, h': Trace, after: nat, paid: nat) {
    |h'| + after <= |h| + before + paid
  }

  /**
    The work of one tick of any tree, in any state: calls made plus leaves left RUNNING are at most
    the leaves that were RUNNING plus two for every node.
  */
  lemma {:induction false} TickCost(t: Tree, now: real, o: Oracle, h: Trace)
    ensures var r := Tick(t, now, o, h); Within(h, Live(t), r.trace, Live(r.tree), 2 * Size(t))
    decreases t, 0
  {
    match t
    case Leaf(_, _, _) =>
    case Control(k, st, idx, cs) =>
      if IsResting(st) { RunControlCost(k, if st == IDLE then 0 else idx, cs, now, o, h); }
    case Decorator(k, st, n, start, _, c) =>
      if IsResting(st) { RunDecoratorCost(k, st == IDLE, n, start, c, now, o, h); }
  }

  lemma {:induction false} RunControlCost(k: ControlKind, i: nat, cs: seq<Tree>, now: real, o: Oracle, h: Trace)
    ensures var r := RunControl(k, i, cs, now, o, h);
            Within(h, LiveOf(cs), r.trace, LiveOf(r.trees), 2 * SizeOf(cs))
    decreases cs, 2
  {
    match k
    case Sequence(_) => WalkFromCost(i, cs, SUCCESS, now, o, h);
    case Fallback(_) => WalkFromCost(i, cs, FAILURE, now, o, h);
    case Premise => WalkListCost(cs, SUCCESS, now, o, h);
    case Parallel(_) =>
      PollAllCost(cs, now, o, h);
      var p := PollAll(cs, now, o, h);
      HaltRunningCost(p.trees, p.trace);
  }

  lemma {:induction false} SplitSums(a: seq<Tree>, b: seq<Tree>)
    ensures SizeOf(a + b) == SizeOf(a) + SizeOf(b) && LiveOf(a + b) == LiveOf(a) + LiveOf(b)
    decreases a
  {
    if a == [] {
      assert a + b == b;
    } else {
      assert (a + b)[1..] == a[1..] + b;
      SplitSums(a[1..], b);
    }
  }

  lemma {:induction false} WalkFromCost(i: nat, cs: seq<Tree>, go: Status, now: real, o: Oracle, h: Trace)
    requires go == SUCCESS || go == FAILURE
    ensures var r := WalkFrom(i, cs, go, now, o, h);
            Within(h, LiveOf(cs), r.trace, LiveOf(r.trees), 2 * SizeOf(cs))
    decreases cs, 1
  {
    if i < |cs| {
      assert cs == cs[..i] + cs[i..];
      SplitSums(cs[..i], cs[i..]);
      SplitSums(cs[..i], WalkList(cs[i..], go, now, o, h).trees);
      WalkListCost(cs[i..], go, now, o, h);
    }
  }

  lemma {:induction false} WalkListCost(cs: seq<Tree>, go: Status, now: real, o: Oracle, h: Trace)
    requires go == SUCCESS || go == FAILURE
    ensures var r := WalkList(cs, go, now, o, h);
            Within(h, LiveOf(cs), r.trace, LiveOf(r.trees), 2 * SizeOf(cs))
    decreases cs, 0
  {
    if cs != [] {
      var r := Tick(cs[0], now, o, h);
      var w := WalkList(cs, go, now, o, h);
      TickCost(cs[0], now, o, h);
      if r.status == RUNNING {
        assert w.trees[1..] == cs[1..];
      } else if r.status == Opposite(go) {
        HaltAllCost(cs[1..], r.trace);
        assert w.trees[1..] == HaltAll(cs[1..], r.trace).trees;
      } else {
        WalkListCost(cs[1..], go, now, o, r.trace);
        assert w.trees[1..] == WalkList(cs[1..], go, now, o, r.trace).trees;
      }
    }
  }

  lemma {:induction false} PollAllCost(cs: seq<Tree>, now: real, o: Oracle, h: Trace)
    ensures var p := PollAll(cs, now, o, h);
            Within(h, LiveOf(cs), p.trace, LiveOf(p.trees), 2 * SizeOf(cs))
    decreases cs, 0
  {
    if cs != [] {
      var r := Tick(cs[0], now, o, h);
      TickCost(cs[0], now, o, h);
      PollAllCost(cs[1..], now, o, r.trace);
      assert PollAll(cs, now, o, h).trees[1..] == PollAll(cs[1..], now, o, r.trace).trees;
    }
  }

  /** A decorator makes at most two calls of its own: ForEach may write before and after its child. */
  lemma {:induction false} RunDecoratorCost(k: DecoratorKind, starting: bool, n: nat, start: Option<real>, c: Tree,
                                            now: real, o: Oracle, h: Trace)
    ensures var p := RunDecorator(k, starting, n, start, c, now, o, h);
            Within(h, Live(c), p.trace, Live(p.child), 2 * Size(c) + 2)
    decreases c, 2
  {
    TickCost(c, now, o, h);
    match k
    case Inverter =>
    case ForceSuccess =>
    case Repeat(times) => CountPassCost(SUCCESS, times, if starting then 0 else n, start, c, now, o, h);
    case Retry(attempts) => CountPassCost(FAILURE, attempts, if starting then 0 else n, start, c, now, o, h);
    case ForEach(key, items) =>
      if !starting {
        ItemPassCost(key, items, n, start, c, now, o, h);
      } else if items != [] {
        var w := WriteItem(key, items[0]);
        ItemPassCost(key, items, 0, start, c, now, o, h + [Asked(w, o(h, w))]);
      }
    case RepeatUntil(_) =>
    case Timeout(_) => HaltCost(c, h);
  }

  lemma {:induction false} CountPassCost(counted: Status, limit: int, n: nat, start: Option<real>, c: Tree,
                                         now: real, o: Oracle, h: Trace)
    ensures var p := CountPass(counted, limit, n, start, c, now, o, h);
            Within(h, Live(c), p.trace, Live(p.child), 2 * Size(c))
    decreases c, 1
  {
    TickCost(c, now, o, h);
    var r := Tick(c, now, o, h);
    HaltCost(r.tree, r.trace);
    CountPassIs(counted, limit, n, start, c, now, o, h);
  }

  lemma {:induction false} ItemPassCost(key: string, items: seq<int>, n: nat, start: Option<real>, c: Tree,
                                        now: real, o: Oracle, h: Trace)
    ensures var p := ItemPass(key, items, n, start, c, now, o, h);
            Within(h, Live(c), p.trace, Live(p.child), 2 * Size(c) + 1)
    decreases c, 1
  {
    TickCost(c, now, o, h);
  }

  // ---------------------------------------------------------------- whole runs

  /** The number of nodes depends on the shape only. */
  lemma {:induction false} SizeOfShape(t: Tree)
    ensures Size(Built(t)) == Size(t) && Live(Built(t)) == 0
    decreases t
  {
    match t
    case Leaf(_, _, _) =>
    case Control(_, _, _, cs) => SizesOfShapes(cs);
    case Decorator(_, _, _, _, _, c) => SizeOfShape(c);
  }

  lemma {:induction false} SizesOfShapes(cs: seq<Tree>)
    ensures SizeOf(BuiltAll(cs)) == SizeOf(cs) && LiveOf(BuiltAll(cs)) == 0
    decreases cs
  {
    if cs != [] {
      SizeOfShape(cs[0]);
      SizesOfShapes(cs[1..]);
      assert BuiltAll(cs)[1..] == BuiltAll(cs[1..]);
    }
  }

  function TicksIn(ops: seq<Op>): nat {
    if ops == [] then 0 else (if ops[0].DoTick? then 1 else 0) + TicksIn(ops[1..])
  }

  /** What a run of ticks costs at most. */
  function Budget(ops: seq<Op>, size: nat): nat
    decreases |ops|
  {
    if ops == [] then 0 else (if ops[0].DoTick? then 2 * size else 0) + Budget(ops[1..], size)
  }

  lemma {:induction false} BudgetIs(ops: seq<Op>, size: nat)
    ensures Budget(ops, size) == 2 * size * TicksIn(ops)
    decreases |ops|
  {
    if ops != [] {
      BudgetIs(ops[1..], size);
      assert 2 * size * (1 + TicksIn(ops[1..])) == 2 * size + 2 * size * TicksIn(ops[1..]);
    }
  }

  lemma {:induction false} RunCostFrom(t: Tree, ops: seq<Op>, o: Oracle, h: Trace)
    ensures var r := RunOps(t, ops, o, h); Within(h, Live(t), r.trace, Live(r.tree), Budget(ops, Size(t)))
    decreases |ops|
  {
    if ops != [] {
      match ops[0]
      case DoTick(now) =>
        var r := Tick(t, now, o, h);
        TickCost(t, now, o, h);
        SameSize(t, r.tree) by { TickKeepsShape(t, now, o, h); }
        RunCostFrom(r.tree, ops[1..], o, r.trace);
      case DoHalt =>
        var r := Halt(t, h);
        HaltCost(t, h);
        SameSize(t, r.tree) by { HaltKeepsShape(t, h); }
        RunCostFrom(r.tree, ops[1..], o, r.trace);
    }
  }

  lemma SameSize(t: Tree, u: Tree)
    requires Built(t) == Built(u)
    ensures Size(t) == Size(u)
  {
    SizeOfShape(t);
    SizeOfShape(u);
  }

  /**
    The work of a whole run, from construction, under any ticks and halts: at most two calls for
    every node and tick. Halts are free: each was paid for by the tick that left the leaf RUNNING.
  */
  lemma RunCost(t: Tree, ops: seq<Op>, o: Oracle)
    ensures var r := RunOps(Built(t), ops, o, []); |r.trace| + Live(r.tree) <= 2 * Size(t) * TicksIn(ops)
  {
    SizeOfShape(t);
    RunCostFrom(Built(t), ops, o, []);
    BudgetIs(ops, Size(t));
  }
}
