/**
  The tree as mutable node objects, as the running program keeps it.

  Every method is proved to do to the objects exactly what the functions on tree values say, so
  that whatever holds of the values holds of the objects.
*/
module TreeNodes {
  import opened Wrappers
  import opened BehaviorTree

  /** What the tree talks to: leaf code, the blackboard, exit predicates. Only its trace changes. */
  class World {
    var trace: Trace
    const oracle: Oracle
    ghost var ticked: multiset<TreeNode>    // every call of a node's tick

    constructor (oracle: Oracle)
      ensures this.oracle == oracle && trace == [] && ticked == multiset{}
    {
      this.oracle := oracle;
      trace, ticked := [], multiset{};
    }

    method Ask(q: Query) returns (r: Reply)
      modifies this`trace
      ensures r == oracle(old(trace), q) && trace == old(trace) + [Asked(q, r)]
    {
      r := oracle(trace, q);
      trace := trace + [Asked(q, r)];
    }

    method OnHalted(leaf: nat)
      modifies this`trace
      ensures trace == old(trace) + [Halted(leaf)]
    {
      trace := trace + [Halted(leaf)];
    }
  }

  /** Between two points, tick was called only on nodes of the given set, and on each at most once. */
  ghost predicate TickedOnce(before: multiset<TreeNode>, after: multiset<TreeNode>, nodes: set<object>) {
    before <= after && forall n | n in after :: after[n] <= before[n] + if n in nodes then 1 else 0
  }

  /** Two stretches that reach different nodes. */
  lemma TickedOnceJoin(a: multiset<TreeNode>, b: multiset<TreeNode>, c: multiset<TreeNode>, s: set<object>,
          t: set<object>)
    requires TickedOnce(a, b, s) && TickedOnce(b, c, t) && s !! t
    ensures TickedOnce(a, c, s + t)
  {
    forall n | n in c ensures c[n] <= a[n] + if n in s + t then 1 else 0 {
      assert b[n] <= a[n] + if n in s then 1 else 0 by { if n in b {} }
    }
  }

  /** So at most as many calls were made as there are nodes. */
  lemma TicksAreFew(before: multiset<TreeNode>, after: multiset<TreeNode>, nodes: set<object>)
    requires TickedOnce(before, after, nodes)
    ensures |before| <= |after| <= |before| + |nodes|
  {
    var calls := after - before;
    assert after == before + calls;
    forall n | n in calls ensures n in nodes && calls[n] == 1 { assert n in after; }
    DistinctAreFew(calls, nodes);
  }

  lemma {:induction false} DistinctAreFew(calls: multiset<TreeNode>, nodes: set<object>)
    requires forall n | n in calls :: n in nodes && calls[n] == 1
    ensures |calls| <= |nodes|
    decreases |calls|
  {
    if calls != multiset{} {
      var n :| n in calls;
      DistinctAreFew(calls - multiset{n}, nodes - {n});
    }
  }

  datatype NodeKind = LeafNode(id: nat) | ControlNode(control: ControlKind) | DecoratorNode(decorator: DecoratorKind)

  class TreeNode {
    const kind: NodeKind
    const children: seq<TreeNode>
    ghost const Repr: set<object>

    var status: Status
    var index: nat                  // Sequence and Fallback: the child to resume at
    var count: nat                  // Repeat, Retry, ForEach: passes completed
    var startTime: Option<real>     // Timeout: when the child was started
    var raised: bool                // an exception was recorded

    /** The nodes form a tree; nothing here depends on mutable state. */
    ghost predicate Valid()
      decreases Repr, 0
    {
      && this in Repr
      && (forall i | 0 <= i < |children| ::
            children[i].Repr <= Repr && this !in children[i].Repr && children[i].Repr < Repr && children[i].Valid())
      && (forall i, j | 0 <= i < j < |children| :: children[i].Repr !! children[j].Repr)
      && (kind.LeafNode? ==> children == [])
      && (kind.DecoratorNode? ==> |children| == 1)
    }

    /** The tree value these objects stand for. */
    ghost function Abs(): Tree
      requires Valid()
      reads Repr
      decreases Repr, 1
    {
      match kind
      case LeafNode(id) => Leaf(id, status, raised)
      case ControlNode(k) => Control(k, status, index, Kids())
      case DecoratorNode(k) => Decorator(k, status, count, startTime, raised, children[0].Abs())
    }

    ghost function Kids(): (r: seq<Tree>)
      requires Valid()
      reads Repr - {this}
      ensures |r| == |children|
      decreases Repr, 0
    {
      seq(|children|, i requires 0 <= i < |children| reads Repr - {this} => children[i].Abs())
    }
  
    constructor OfLeaf(id: nat)
      ensures Valid() && fresh(Repr)
      ensures Abs() == Leaf(id, IDLE, false)
    {
      kind := LeafNode(id);
      children := [];
      Repr := {this};
      status, index, count, startTime, raised := IDLE, 0, 0, None, false;
    }

    static ghost function ReprsOf(nodes: seq<TreeNode>): (r: set<object>)
      ensures forall i | 0 <= i < |nodes| :: nodes[i].Repr <= r
    {
      if nodes == [] then {} else nodes[0].Repr + ReprsOf(nodes[1..])
    }

    constructor OfControl(k: ControlKind, children: seq<TreeNode>)
      requires forall i | 0 <= i < |children| :: children[i].Valid()
      requires forall i, j | 0 <= i < j < |children| :: children[i].Repr !! children[j].Repr
      ensures Valid() && kind == ControlNode(k) && this.children == children
      ensures Repr == {this} + ReprsOf(children)
      ensures status == IDLE && index == 0
    {
      kind := ControlNode(k);
      this.children := children;
      Repr := {this} + ReprsOf(children);
      status, index, count, startTime, raised := IDLE, 0, 0, None, false;
      new;
      forall i | 0 <= i < |children|
        ensures children[i].Repr <= Repr && this !in children[i].Repr
      {
        assert children[i].Valid();
      }
    }

    constructor OfDecorator(k: DecoratorKind, child: TreeNode)
      requires child.Valid()
      ensures Valid() && kind == DecoratorNode(k) && children == [child] && Repr == {this} + child.Repr
      ensures Abs() == Decorator(k, IDLE, 0, None, false, child.Abs())
    {
      kind := DecoratorNode(k);
      children := [child];
      Repr := {this} + child.Repr;
      status, index, count, startTime, raised := IDLE, 0, 0, None, false;
    }

    /** Nodes of one child are not touched by work on another. */
    twostate lemma OthersUnchanged(i: nat)
      requires Valid() && i < |children|
      requires unchanged(Repr - children[i].Repr)
      ensures Kids() == old(Kids())[i := children[i].Abs()]
    {
      forall j | 0 <= j < |children| && j != i
        ensures children[j].Abs() == old(children[j].Abs())
      {
        assert children[j].Repr !! children[i].Repr by {
          if j < i { } else { }
        }
        assert unchanged(children[j].Repr);
      }
    }

    // -------------------------------------------------------------- halt

    method Halt(w: World)
      requires Valid() && w !in Repr
      modifies Repr, w`trace
      ensures var r := BehaviorTree.Halt(old(Abs()), old(w.trace)); Abs() == r.tree && w.trace == r.trace
      decreases Repr, 1
    {
      ghost var kids, h := Kids(), w.trace;
      HaltAssembled(kind, status, index, count, startTime, raised, kids, h);
      HaltLoopIs(kids, 0, h);
      assert kids[0..] == kids && kids[..0] == [];
      AbsIsAssembled();
      HaltFrom(0, w);
      if status == RUNNING {
        if kind.LeafNode? { w.OnHalted(kind.id); }
        status := IDLE;
      }
      AbsIsAssembled();
    }

    lemma AbsIsAssembled()
      requires Valid()
      ensures Abs() == Assembled(kind, status, index, count, startTime, raised, Kids())
    {
      if kind.DecoratorNode? { assert Kids() == [children[0].Abs()]; }
    }

    method HaltChild(i: nat, w: World)
      requires Valid() && w !in Repr && i < |children|
      modifies Repr - {this}, w`trace
      ensures var r := BehaviorTree.Halt(old(Kids())[i], old(w.trace));
              Kids() == old(Kids())[i := r.tree] && w.trace == r.trace
      decreases Repr, 0, 0
    {
      children[i].Halt(w);
      OthersUnchanged(i);
    }

    /** Halt the children from position `start` on. */
    method HaltFrom(start: nat, w: World)
      requires Valid() && w !in Repr && start <= |children|
      modifies Repr - {this}, w`trace
      ensures HaltLoop(old(Kids()), start, old(w.trace)) == HaltWalk(Kids(), w.trace)
      decreases Repr, 0
    {
      ghost var whole := HaltLoop(Kids(), start, w.trace);
      var i := start;
      while i < |children|
        invariant start <= i <= |children|
        invariant HaltLoop(Kids(), i, w.trace) == whole
      {
        HaltChild(i, w);
        i := i + 1;
      }
    }

    /** Parallel's clean-up: halt only the children that are RUNNING. */
    method HaltRunningChildren(w: World)
      requires Valid() && w !in Repr
      modifies Repr - {this}, w`trace
      ensures var r := HaltRunning(old(Kids()), old(w.trace)); Kids() == r.trees && w.trace == r.trace
      decreases Repr, 0
    {
      HaltRunningLoopIs(Kids(), 0, w.trace);
      ghost var whole := HaltRunningLoop(Kids(), 0, w.trace);
      var i := 0;
      while i < |children|
        invariant i <= |children|
        invariant HaltRunningLoop(Kids(), i, w.trace) == whole
      {
        assert Kids()[i].status == children[i].status;
        if children[i].status == RUNNING { HaltChild(i, w); }
        i := i + 1;
      }
    }

    // -------------------------------------------------------------- tick

    /** The whole tree below and including this node is ticked at most once a node. */
    method Tick(now: real, w: World) returns (result: Status)
      requires Valid() && w !in Repr
      modifies Repr, w
      ensures var s := BehaviorTree.Tick(old(Abs()), now, w.oracle, old(w.trace));
              Abs() == s.tree && result == s.status && w.trace == s.trace
      ensures TickedOnce(old(w.ticked), w.ticked, Repr)
      decreases Repr, 4
    {
      ghost var before := w.ticked;
      w.ticked := w.ticked + multiset{this};
      ghost var entered := w.ticked;
      result := Pass(now, w);
      if result != RUNNING { Reset(); }
      TickedOnceJoin(before, entered, w.ticked, {this}, Repr - {this});
      assert {this} + (Repr - {this}) == Repr;
    }

    /** on_start or on_running, by status; the verdict stays in `status`. */
    method Pass(now: real, w: World) returns (result: Status)
      requires Valid() && w !in Repr
      modifies Repr, w
      ensures var s := BehaviorTree.Tick(old(Abs()), now, w.oracle, old(w.trace));
              && result == status == s.status && w.trace == s.trace
              && Assembled(kind, Rest(status), if status == RUNNING then index else 0,
                           if status == RUNNING then count else 0, if status == RUNNING then startTime else None,
                           raised, Kids()) == s.tree
      ensures TickedOnce(old(w.ticked), w.ticked, Repr - {this})
      decreases Repr, 3
    {
      hide BehaviorTree.Halt, PollAll, RunDecorator;
      AbsIsAssembled();
      if status == IDLE || status == RUNNING {
        var threw := false;
        match kind {
          case LeafNode(id) => status, threw := AskLeaf(id, w);
          case ControlNode(k) => status := PassControl(k, now, w);
          case DecoratorNode(k) => status, threw := PassDecorator(k, now, w);
        }
        if threw { raised := true; }
      }
      result := status;
    }

    method Reset()
      requires Valid()
      modifies this
      ensures status == IDLE && raised == old(raised) && Kids() == old(Kids())
      ensures kind.ControlNode? ==> index == 0
      ensures kind.DecoratorNode? ==> count == 0 && startTime == None
    {
      status := IDLE;
      index, count, startTime := 0, 0, None;
    }

    method AskLeaf(id: nat, w: World) returns (s: Status, threw: bool)
      requires IsResting(status)
      modifies w`trace
      ensures var q := if status == IDLE then Start(id) else Continue(id);
              var reply := w.oracle(old(w.trace), q);
              s == ReplyStatus(reply) && threw == (reply == Raise) && w.trace == old(w.trace) + [Asked(q, reply)]
    {
      var reply;
      if status == IDLE { reply := w.Ask(Start(id)); } else { reply := w.Ask(Continue(id)); }
      s, threw := ReplyStatus(reply), reply == Raise;
    }

    method PassControl(k: ControlKind, now: real, w: World) returns (s: Status)
      requires Valid() && w !in Repr && kind == ControlNode(k)
      modifies Repr, w
      ensures var r := RunControl(k, if old(status) == IDLE then 0 else old(index), old(Kids()), now, w.oracle,
                                  old(w.trace));
              Kids() == r.trees && s == r.status && w.trace == r.trace && (s == RUNNING ==> index == r.done)
      ensures raised == old(raised) && TickedOnce(old(w.ticked), w.ticked, Repr - {this})
      decreases Repr, 2
    {
      hide Abs, Kids;
      if status == IDLE { index := 0; }
      match k {
        case Sequence(_) =>
          WalkLoopIs(Kids(), index, SUCCESS, now, w.oracle, w.trace);
          s, index := WalkChildren(index, SUCCESS, now, w);
        case Fallback(_) =>
          WalkLoopIs(Kids(), index, FAILURE, now, w.oracle, w.trace);
          s, index := WalkChildren(index, FAILURE, now, w);
        case Premise =>
          WalkLoopIs(Kids(), 0, SUCCESS, now, w.oracle, w.trace);
          WalkFromStart(Kids(), SUCCESS, now, w.oracle, w.trace);
          var i;
          s, i := WalkChildren(0, SUCCESS, now, w);
        case Parallel(threshold) => s := PassParallel(threshold, now, w);
      }
    }

    method PassParallel(threshold: int, now: real, w: World) returns (s: Status)
      requires Valid() && w !in Repr
      modifies Repr - {this}, w
      ensures RunControl(Parallel(threshold), index, old(Kids()), now, w.oracle, old(w.trace)) ==
              Walk(Kids(), index, s, w.trace)
      ensures TickedOnce(old(w.ticked), w.ticked, Repr - {this})
      decreases Repr, 1, 1
    {
      var successes, failures := PollChildren(now, w);
      if successes >= threshold {
        HaltRunningChildren(w);
        return SUCCESS;
      }
      if failures > |children| - threshold {
        HaltRunningChildren(w);
        return FAILURE;
      }
      s := RUNNING;
    }

    method TickChild(i: nat, now: real, w: World) returns (s: Status)
      requires Valid() && w !in Repr && i < |children|
      modifies Repr - {this}, w
      ensures var r := BehaviorTree.Tick(old(Kids())[i], now, w.oracle, old(w.trace));
              Kids() == old(Kids())[i := r.tree] && s == r.status && w.trace == r.trace
      ensures TickedOnce(old(w.ticked), w.ticked, children[i].Repr)
      decreases Repr, 0, 0
    {
      s := children[i].Tick(now, w);
      OthersUnchanged(i);
    }

    /** The nodes of the children before position i. */
    ghost function Before(i: nat): (r: set<object>)
      requires Valid()
      ensures r <= Repr - {this} && forall j | i <= j < |children| :: r !! children[j].Repr
    {
      if i == 0 || i > |children| then {} else Before(i - 1) + children[i - 1].Repr
    }

    /** Of the children before position i, and of them only, some nodes have been ticked once since `first`. */
    ghost predicate TickedBefore(i: nat, first: multiset<TreeNode>, now: multiset<TreeNode>)
      requires Valid()
    {
      TickedOnce(first, now, Before(i)) && TickedOnce(first, now, Repr - {this})
    }

    lemma TickedNext(i: nat, first: multiset<TreeNode>, before: multiset<TreeNode>, now: multiset<TreeNode>)
      requires Valid() && i < |children|
      requires TickedBefore(i, first, before) && TickedOnce(before, now, children[i].Repr)
      ensures TickedBefore(i + 1, first, now)
    {
      TickedOnceJoin(first, before, now, Before(i), children[i].Repr);
    }

    /** One round of the walk: tick the child at `at`, and halt the later ones if that ends the walk. */
    method WalkRound(at: nat, go: Status, now: real, w: World) returns (s: Status)
      requires Valid() && w !in Repr && at < |children|
      requires go == SUCCESS || go == FAILURE
      modifies Repr - {this}, w
      ensures WalkLoop(old(Kids()), at, go, now, w.oracle, old(w.trace)) ==
              if s == RUNNING then Walk(Kids(), at, s, w.trace)
              else if s == Opposite(go) then Walk(Kids(), 0, s, w.trace)
              else WalkLoop(Kids(), at + 1, go, now, w.oracle, w.trace)
      ensures TickedOnce(old(w.ticked), w.ticked, children[at].Repr)
      decreases Repr, 0, 2
    {
      WalkLoopStep(Kids(), at, go, now, w.oracle, w.trace);
      s := TickChild(at, now, w);
      if s == Opposite(go) { HaltFrom(at + 1, w); }
    }

    /** Tick the children from `start` on while they return `go`; `at` is where the walk stopped RUNNING. */
    method WalkChildren(start: nat, go: Status, now: real, w: World) returns (s: Status, at: nat)
      requires Valid() && w !in Repr
      requires go == SUCCESS || go == FAILURE
      modifies Repr - {this}, w
      ensures WalkLoop(old(Kids()), start, go, now, w.oracle, old(w.trace)) == Walk(Kids(), at, s, w.trace)
      ensures TickedOnce(old(w.ticked), w.ticked, Repr - {this})
      decreases Repr, 1
    {
      hide Abs, Kids;
      ghost var whole := WalkLoop(Kids(), start, go, now, w.oracle, w.trace);
      ghost var first := w.ticked;
      at := start;
      while at < |children|
        invariant WalkLoop(Kids(), at, go, now, w.oracle, w.trace) == whole
        invariant TickedBefore(at, first, w.ticked)
      {
        ghost var reached := w.ticked;
        s := WalkRound(at, go, now, w);
        TickedNext(at, first, reached, w.ticked);
        if s == Opposite(go) { return s, 0; }
        if s == RUNNING { return s, at; }
        at := at + 1;
      }
      s, at := go, 0;
    }

    method PollChildren(now: real, w: World) returns (successes: nat, failures: nat)
      requires Valid() && w !in Repr
      modifies Repr - {this}, w
      ensures var p := PollAll(old(Kids()), now, w.oracle, old(w.trace));
              Kids() == p.trees && successes == p.successes && failures == p.failures && w.trace == p.trace
      ensures TickedOnce(old(w.ticked), w.ticked, Repr - {this})
      decreases Repr, 1, 0
    {
      hide Abs, Kids;
      PollLoopIs(Kids(), 0, now, w.oracle, w.trace);
      ghost var whole := PollLoop(Kids(), 0, 0, 0, now, w.oracle, w.trace);
      ghost var first := w.ticked;
      successes, failures := 0, 0;
      var i := 0;
      while i < |children|
        invariant i <= |children|
        invariant PollLoop(Kids(), i, successes, failures, now, w.oracle, w.trace) == whole
        invariant TickedBefore(i, first, w.ticked)
      {
        ghost var reached := w.ticked;
        var s := TickChild(i, now, w);
        TickedNext(i, first, reached, w.ticked);
        if s == SUCCESS { successes := successes + 1; } else if s == FAILURE { failures := failures + 1; }
        i := i + 1;
      }
    }

    method PassDecorator(k: DecoratorKind, now: real, w: World) returns (s: Status, threw: bool)
      requires Valid() && w !in Repr && kind == DecoratorNode(k)
      modifies Repr, w
      ensures Passed(RunDecorator(k, old(status) == IDLE, old(count), old(startTime), old(children[0].Abs()),
                                  now, w.oracle, old(w.trace)), s, threw, w)
      decreases Repr, 2
    {
      hide BehaviorTree.Tick, BehaviorTree.Halt;
      var child := children[0];
      threw := false;
      match k {
        case Inverter =>
          s := child.Tick(now, w);
          s := Opposite(s);
        case ForceSuccess =>
          s := child.Tick(now, w);
          if s != RUNNING { s := SUCCESS; }
        case Repeat(times) =>
          if status == IDLE { count := 0; }
          s := TickCounted(SUCCESS, times, now, w);
        case Retry(attempts) =>
          if status == IDLE { count := 0; }
          s := TickCounted(FAILURE, attempts, now, w);
        case ForEach(key, items) => s, threw := PassForEach(key, items, now, w);
        case RepeatUntil(cond) => s, threw := PassUntil(cond, now, w);
        case Timeout(seconds) => s, threw := PassTimeout(seconds, now, w);
      }
    }

    /** What every decorator pass leaves behind. */
    twostate predicate Passed(p: Pass, s: Status, threw: bool, w: World)
      requires Valid() && kind.DecoratorNode?
      reads this, Repr, w
    {
      && children[0].Abs() == p.child && s == p.status && threw == p.raised && w.trace == p.trace
      && (s == RUNNING ==> count == p.count && startTime == p.startTime)
      && raised == old(raised) && TickedOnce(old(w.ticked), w.ticked, Repr - {this})
    }

    method PassForEach(key: string, items: seq<int>, now: real, w: World) returns (s: Status, threw: bool)
      requires Valid() && w !in Repr && kind.DecoratorNode?
      modifies Repr, w
      ensures Passed(RunDecorator(ForEach(key, items), old(status) == IDLE, old(count), old(startTime),
                                  old(children[0].Abs()), now, w.oracle, old(w.trace)), s, threw, w)
      decreases Repr, 1, 2
    {
      hide BehaviorTree.Tick, BehaviorTree.Halt;
      if status == IDLE {
        count := 0;
        if items == [] { return SUCCESS, false; }
        var reply := w.Ask(WriteItem(key, items[0]));
        if reply == Raise { return FAILURE, true; }
      }
      s, threw := TickItem(key, items, now, w);
    }

    method PassUntil(cond: nat, now: real, w: World) returns (s: Status, threw: bool)
      requires Valid() && w !in Repr && kind.DecoratorNode?
      modifies Repr, w
      ensures Passed(RunDecorator(RepeatUntil(cond), old(status) == IDLE, old(count), old(startTime),
                                  old(children[0].Abs()), now, w.oracle, old(w.trace)), s, threw, w)
      decreases Repr, 1, 1
    {
      hide BehaviorTree.Tick, BehaviorTree.Halt;
      threw := false;
      s := children[0].Tick(now, w);
      if s != FAILURE && s != RUNNING {
        var reply := w.Ask(TestExit(cond));
        s, threw := if reply == Raise then FAILURE else if reply == Succeed then SUCCESS else RUNNING, reply == Raise;
      }
    }

    method PassTimeout(seconds: real, now: real, w: World) returns (s: Status, threw: bool)
      requires Valid() && w !in Repr && kind.DecoratorNode?
      modifies Repr, w
      ensures Passed(RunDecorator(Timeout(seconds), old(status) == IDLE, old(count), old(startTime),
                                  old(children[0].Abs()), now, w.oracle, old(w.trace)), s, threw, w)
      decreases Repr, 1, 1
    {
      hide BehaviorTree.Tick, BehaviorTree.Halt, Abs;
      threw := false;
      if status == IDLE { startTime := Some(now); }
      if startTime.None? { return FAILURE, true; }
      if now - startTime.value > seconds {
        children[0].Halt(w);
        startTime := None;
        return FAILURE, false;
      }
      s := children[0].Tick(now, w);
      if s != RUNNING { startTime := None; }
    }

    /** Repeat (counting SUCCESS) and Retry (counting FAILURE). */
    method TickCounted(counted: Status, limit: int, now: real, w: World) returns (s: Status)
      requires Valid() && w !in Repr && kind.DecoratorNode?
      modifies Repr, w
      ensures Passed(CountPass(counted, limit, old(count), old(startTime), old(children[0].Abs()),
                               now, w.oracle, old(w.trace)), s, false, w)
      decreases Repr, 1, 1
    {
      hide BehaviorTree.Tick, BehaviorTree.Halt, Kids, Abs;
      s := children[0].Tick(now, w);
      if s == Opposite(counted) {
        count := 0;
        return;
      }
      if s == RUNNING { return; }
      count := count + 1;
      if count >= limit {
        count := 0;
        return counted;
      }
      children[0].Halt(w);
      s := RUNNING;
    }

    /** ForEach once the current item is on the blackboard. */
    method TickItem(key: string, items: seq<int>, now: real, w: World) returns (s: Status, threw: bool)
      requires Valid() && w !in Repr && kind.DecoratorNode?
      modifies Repr, w
      ensures Passed(ItemPass(key, items, old(count), old(startTime), old(children[0].Abs()),
                              now, w.oracle, old(w.trace)), s, threw, w)
      decreases Repr, 1, 1
    {
      hide BehaviorTree.Tick, BehaviorTree.Halt;
      threw := false;
      s := children[0].Tick(now, w);
      if s == FAILURE || s == RUNNING { return; }
      count := count + 1;
      if count >= |items| { return SUCCESS, false; }
      var reply := w.Ask(WriteItem(key, items[count]));
      if reply == Raise { return FAILURE, true; }
      s := RUNNING;
    }
  }

  // ---------------------------------------------------------------- a node's value from its parts

  function Assembled(kind: NodeKind, status: Status, index: nat, count: nat, startTime: Option<real>, raised: bool,
          kids: seq<Tree>): Tree
    requires kind.DecoratorNode? ==> |kids| == 1
  {
    match kind
    case LeafNode(id) => Leaf(id, status, raised)
    case ControlNode(k) => Control(k, status, index, kids)
    case DecoratorNode(k) => Decorator(k, status, count, startTime, raised, kids[0])
  }

  /** Halting a node halts its children in order and then resets its own status, a leaf telling the world. */
  lemma HaltAssembled(kind: NodeKind, status: Status, index: nat, count: nat, startTime: Option<real>, raised: bool,
                      kids: seq<Tree>, h: Trace)
    requires (kind.LeafNode? ==> kids == []) && (kind.DecoratorNode? ==> |kids| == 1)
    ensures var r := HaltAll(kids, h);
            BehaviorTree.Halt(Assembled(kind, status, index, count, startTime, raised, kids), h) ==
            HaltStep(Assembled(kind, if status == RUNNING then IDLE else status, index, count, startTime, raised,
                               r.trees),
                     if status == RUNNING && kind.LeafNode? then r.trace + [Halted(kind.id)] else r.trace)
  {
    if kind.DecoratorNode? {
      assert kids == [kids[0]];
      HaltOne(kids[0], h);
    }
  }

  // ---------------------------------------------------------------- the list functions as loops in place

  function HaltLoop(cs: seq<Tree>, i: nat, h: Trace): (r: HaltWalk)
    ensures |r.trees| == |cs|
    decreases |cs| - i
  {
    if i >= |cs| then HaltWalk(cs, h)
    else
      var r := BehaviorTree.Halt(cs[i], h);
      HaltLoop(cs[i := r.tree], i + 1, r.trace)
  }

  lemma {:induction false} HaltLoopIs(cs: seq<Tree>, i: nat, h: Trace)
    requires i <= |cs|
    ensures var r := HaltAll(cs[i..], h);
            HaltLoop(cs, i, h) == HaltWalk(cs[..i] + r.trees, r.trace)
    decreases |cs| - i
  {
    if i < |cs| {
      var r := BehaviorTree.Halt(cs[i], h);
      var cs' := cs[i := r.tree];
      HaltLoopIs(cs', i + 1, r.trace);
      assert cs'[i + 1..] == cs[i..][1..];
      assert cs'[..i + 1] == cs[..i] + [r.tree];
    }
  }

  function HaltRunningLoop(cs: seq<Tree>, i: nat, h: Trace): (r: HaltWalk)
    ensures |r.trees| == |cs|
    decreases |cs| - i
  {
    if i >= |cs| then HaltWalk(cs, h)
    else
      var r := if cs[i].status == RUNNING then BehaviorTree.Halt(cs[i], h) else HaltStep(cs[i], h);
      HaltRunningLoop(if cs[i].status == RUNNING then cs[i := r.tree] else cs, i + 1, r.trace)
  }

  lemma {:induction false} HaltRunningLoopIs(cs: seq<Tree>, i: nat, h: Trace)
    requires i <= |cs|
    ensures var r := HaltRunning(cs[i..], h);
            HaltRunningLoop(cs, i, h) == HaltWalk(cs[..i] + r.trees, r.trace)
    decreases |cs| - i
  {
    if i < |cs| {
      var r := if cs[i].status == RUNNING then BehaviorTree.Halt(cs[i], h) else HaltStep(cs[i], h);
      var cs' := if cs[i].status == RUNNING then cs[i := r.tree] else cs;
      HaltRunningLoopIs(cs', i + 1, r.trace);
      assert cs'[i + 1..] == cs[i..][1..];
      assert cs'[..i + 1] == cs[..i] + [r.tree];
    }
  }

  function WalkLoop(cs: seq<Tree>, i: nat, go: Status, now: real, o: Oracle, h: Trace): (r: Walk)
    requires go == SUCCESS || go == FAILURE
    ensures |r.trees| == |cs|
    decreases |cs| - i
  {
    if i >= |cs| then Walk(cs, 0, go, h)
    else
      var s := BehaviorTree.Tick(cs[i], now, o, h);
      var cs' := cs[i := s.tree];
      if s.status == RUNNING then Walk(cs', i, RUNNING, s.trace)
      else if s.status == Opposite(go) then
        var rest := HaltLoop(cs', i + 1, s.trace);
        Walk(rest.trees, 0, s.status, rest.trace)
      else WalkLoop(cs', i + 1, go, now, o, s.trace)
  }

  lemma WalkLoopStep(cs: seq<Tree>, i: nat, go: Status, now: real, o: Oracle, h: Trace)
    requires i < |cs| && (go == SUCCESS || go == FAILURE)
    ensures var s := BehaviorTree.Tick(cs[i], now, o, h);
            var cs' := cs[i := s.tree];
            var rest := HaltLoop(cs', i + 1, s.trace);
            WalkLoop(cs, i, go, now, o, h) ==
            if s.status == RUNNING then Walk(cs', i, RUNNING, s.trace)
            else if s.status == Opposite(go) then Walk(rest.trees, 0, s.status, rest.trace)
            else WalkLoop(cs', i + 1, go, now, o, s.trace)
  {
  }

  ghost predicate SameWalk(a: Walk, b: Walk) {
    a.trees == b.trees && a.status == b.status && a.trace == b.trace && (a.status == RUNNING ==> a.done == b.done)
  }

  lemma {:induction false} WalkLoopIs(cs: seq<Tree>, i: nat, go: Status, now: real, o: Oracle, h: Trace)
    requires go == SUCCESS || go == FAILURE
    ensures SameWalk(WalkLoop(cs, i, go, now, o, h), WalkFrom(i, cs, go, now, o, h))
    decreases |cs| - i
  {
    hide WalkList;
    if i < |cs| {
      var s := BehaviorTree.Tick(cs[i], now, o, h);
      var cs' := cs[i := s.tree];
      WalkFromStep(cs, i, go, now, o, h);
      if s.status == RUNNING {
        assert cs' == cs[..i] + [s.tree] + cs[i + 1..];
      } else if s.status == Opposite(go) {
        HaltLoopIs(cs', i + 1, s.trace);
        assert cs'[i + 1..] == cs[i + 1..] && cs'[..i + 1] == cs[..i] + [s.tree];
      } else {
        WalkLoopIs(cs', i + 1, go, now, o, s.trace);
      }
    }
  }

  lemma WalkFromStep(cs: seq<Tree>, i: nat, go: Status, now: real, o: Oracle, h: Trace)
    requires i < |cs| && (go == SUCCESS || go == FAILURE)
    ensures var s := BehaviorTree.Tick(cs[i], now, o, h);
            var r := WalkFrom(i, cs, go, now, o, h);
            if s.status == RUNNING then
              r == Walk(cs[..i] + [s.tree] + cs[i + 1..], i, RUNNING, s.trace)
            else if s.status == Opposite(go) then
              var rest := HaltAll(cs[i + 1..], s.trace);
              SameWalk(r, Walk(cs[..i] + [s.tree] + rest.trees, 0, s.status, rest.trace))
            else
              SameWalk(r, WalkFrom(i + 1, cs[i := s.tree], go, now, o, s.trace))
  {
    var s := BehaviorTree.Tick(cs[i], now, o, h);
    var w, rest := WalkList(cs[i..], go, now, o, h), WalkList(cs[i + 1..], go, now, o, s.trace);
    assert cs[i..][1..] == cs[i + 1..];
    if s.status == RUNNING {
      assert w.trees == [s.tree] + cs[i + 1..];
      assert cs[..i] + w.trees == cs[..i] + [s.tree] + cs[i + 1..];
    } else if s.status == Opposite(go) {
      var halted := HaltAll(cs[i + 1..], s.trace);
      assert w.trees == [s.tree] + halted.trees;
      assert cs[..i] + w.trees == cs[..i] + [s.tree] + halted.trees;
    } else {
      assert w == Walk([s.tree] + rest.trees, rest.done + 1, rest.status, rest.trace);
      WalkOnStep(cs, i, s.tree, go, now, o, s.trace);
    }
  }

  lemma WalkOnStep(cs: seq<Tree>, i: nat, t: Tree, go: Status, now: real, o: Oracle, h: Trace)
    requires i < |cs| && (go == SUCCESS || go == FAILURE)
    ensures var rest := WalkList(cs[i + 1..], go, now, o, h);
            SameWalk(WalkFrom(i + 1, cs[i := t], go, now, o, h),
                     Walk(cs[..i] + ([t] + rest.trees), i + (rest.done + 1), rest.status, rest.trace))
  {
    var cs', rest := cs[i := t], WalkList(cs[i + 1..], go, now, o, h);
    assert cs'[i + 1..] == cs[i + 1..] && cs'[..i + 1] == cs[..i] + [t];
    if i + 1 == |cs| {
      assert cs[i + 1..] == [];
      assert rest == Walk([], 0, go, h);
      assert cs' == cs[..i] + ([t] + rest.trees);
    } else {
      assert cs'[..i + 1] + rest.trees == cs[..i] + ([t] + rest.trees);
    }
  }

  function PollLoop(cs: seq<Tree>, i: nat, successes: nat, failures: nat, now: real, o: Oracle, h: Trace): (r: Poll)
    ensures |r.trees| == |cs|
    decreases |cs| - i
  {
    if i >= |cs| then Poll(cs, successes, failures, h)
    else
      var s := BehaviorTree.Tick(cs[i], now, o, h);
      PollLoop(cs[i := s.tree], i + 1, successes + (if s.status == SUCCESS then 1 else 0),
               failures + (if s.status == FAILURE then 1 else 0), now, o, s.trace)
  }

  lemma {:induction false} PollLoopIs(cs: seq<Tree>, i: nat, now: real, o: Oracle, h: Trace)
    requires i <= |cs|
    ensures forall s: nat, f: nat ::
              var p := PollAll(cs[i..], now, o, h);
              PollLoop(cs, i, s, f, now, o, h) == Poll(cs[..i] + p.trees, s + p.successes, f + p.failures, p.trace)
    decreases |cs| - i
  {
    if i < |cs| {
      var s := BehaviorTree.Tick(cs[i], now, o, h);
      var cs' := cs[i := s.tree];
      PollLoopIs(cs', i + 1, now, o, s.trace);
      assert cs'[i + 1..] == cs[i..][1..];
      assert cs'[..i + 1] == cs[..i] + [s.tree];
    }
  }
}
