/**
  Batch and BTClock as the running objects, over the node objects of TreeNodes. Each method is
  proved to do what Batches and ClockSlot say on values, so the results there are about these.
*/
module Kernel {
  import opened Wrappers
  import opened BehaviorTree
  import opened TreeNodes
  import opened TreeInvariants
  import B = Batches
  import C = ClockSlot

  class Batch {
    const tree: TreeNode
    const teardown: TreeNode?
    ghost const Repr: set<object>

    var state: B.BatchState
    var exiting: bool
    var pending: Option<B.BatchResult>
    var result: Option<B.BatchResult>

    ghost predicate Valid() {
      && this in Repr
      && tree.Valid() && tree.Repr <= Repr && this !in tree.Repr
      && (teardown != null ==>
            teardown.Valid() && teardown.Repr <= Repr && this !in teardown.Repr && tree.Repr !! teardown.Repr)
    }

    ghost function Abs(): B.Batch
      requires Valid()
      reads Repr
    {
      B.Batch(tree.Abs(), if teardown == null then None else Some(teardown.Abs()), state, exiting, pending, result)
    }

    constructor (tree: TreeNode, teardown: TreeNode?)
      requires tree.Valid()
      requires teardown != null ==> teardown.Valid() && tree.Repr !! teardown.Repr
      ensures Valid() && Repr == {this} + tree.Repr + (if teardown == null then {} else teardown.Repr)
      ensures Abs() == B.NewBatch(tree.Abs(), if teardown == null then None else Some(teardown.Abs()))
    {
      this.tree, this.teardown := tree, teardown;
      Repr := {this} + tree.Repr + (if teardown == null then {} else teardown.Repr);
      state, exiting, pending, result := B.Ready, false, None, None;
    }

    method Tick(now: real, w: World) returns (status: Status)
      requires Valid() && w !in Repr
      modifies Repr, w
      ensures var s := B.TickBatch(old(Abs()), now, w.oracle, old(w.trace));
              Abs() == s.batch && status == s.status && w.trace == s.trace
    {
      hide BehaviorTree.Tick, TreeNode.Abs;
      if state == B.Exited {
        return if result.Some? then result.value.finalStatus else IDLE;
      }
      if state == B.Ready { state := B.Started; }
      if exiting {
        if teardown == null {
          Finalize(B.NoTeardown);
          return result.value.finalStatus;
        }
        status := teardown.Tick(now, w);
        if status == SUCCESS {
          Finalize(B.TornDown);
        } else if status == FAILURE {
          Finalize(B.TeardownFailed);
        }
        return;
      }
      status := tree.Tick(now, w);
      if status == SUCCESS {
        EnterExit(B.BatchResult(B.Completed, SUCCESS, B.NoTeardown, None));
      } else if status == FAILURE {
        var failed := FindRaised(tree);
        EnterExit(B.BatchResult(if failed.Some? then B.Errored else B.Failed, FAILURE, B.NoTeardown, failed));
      }
    }

    method Kill(w: World)
      requires Valid() && w !in Repr
      modifies Repr, w
      ensures var s := B.KillBatch(old(Abs()), old(w.trace)); Abs() == s.batch && w.trace == s.trace
    {
      if state == B.Exited || exiting { return; }
      StatusOf(tree);
      var r := B.BatchResult(B.Killed, tree.status, B.NoTeardown, None);
      tree.Halt(w);
      EnterExit(r);
    }

    /** Straight to EXITED without the teardown tree; `error` when the tick raised. */
    method Abort(error: bool, w: World)
      requires Valid() && w !in Repr
      modifies Repr, w
      ensures var s := B.AbortBatch(old(Abs()), error, old(w.trace)); Abs() == s.batch && w.trace == s.trace
    {
      hide BehaviorTree.Halt, TreeNode.Abs;
      if state == B.Exited { return; }
      StatusOf(tree);
      var r := B.BatchResult(if error then B.Errored else B.Killed, tree.status, B.NoTeardown, None);
      if !error && pending.Some? { r := pending.value; }
      HaltTrees(w);
      r := r.(teardown := if teardown == null then B.NoTeardown else B.Aborted);
      pending, exiting, result, state := Some(r), true, Some(r), B.Exited;
    }

    /** The main tree first, then the teardown tree. */
    method HaltTrees(w: World)
      requires Valid() && w !in Repr
      modifies Repr - {this}, w
      ensures var m := BehaviorTree.Halt(old(tree.Abs()), old(w.trace));
              && tree.Abs() == m.tree
              && if teardown == null then w.trace == m.trace
                 else BehaviorTree.Halt(old(teardown.Abs()), m.trace) == HaltStep(teardown.Abs(), w.trace)
    {
      tree.Halt(w);
      if teardown != null { teardown.Halt(w); }
    }

    method EnterExit(r: B.BatchResult)
      requires Valid()
      modifies this
      ensures Abs() == B.EnterExit(old(Abs()), r)
    {
      pending, exiting := Some(r), true;
      if teardown == null { Finalize(B.NoTeardown); }
    }

    method Finalize(outcome: B.TeardownOutcome)
      requires Valid()
      modifies this
      ensures Abs() == B.Finalize(old(Abs()), outcome)
    {
      var r := if pending.Some? then pending.value else B.BatchResult(B.Killed, IDLE, B.NoTeardown, None);
      result, state := Some(r.(teardown := outcome)), B.Exited;
    }

    /** Walk the tree for the first node that has recorded an exception. */
    static method FindRaised(n: TreeNode) returns (found: Option<B.Path>)
      requires n.Valid()
      ensures found == B.FirstRaised(n.Abs())
      decreases n.Repr
    {
      if n.kind.LeafNode? || n.kind.DecoratorNode? {
        if n.raised { return Some([]); }
      }
      found := None;
      var i := 0;
      assert n.Kids()[0..] == n.Kids();
      while i < |n.children|
        invariant i <= |n.children| && found.None?
        invariant B.FirstRaisedIn(n.Kids(), 0) == B.FirstRaisedIn(n.Kids()[i..], i)
      {
        found := FindRaised(n.children[i]);
        assert n.Kids()[i..][1..] == n.Kids()[i + 1..] && n.Kids()[i..][0] == n.children[i].Abs();
        if found.Some? {
          found := Some([i] + found.value);
          break;
        }
        i := i + 1;
      }
      if n.kind.DecoratorNode? {
        assert n.Kids() == [n.children[0].Abs()];
        OnlyChild(n.Kids());
      }
    }
  }

  lemma OnlyChild(kids: seq<Tree>)
    requires |kids| == 1
    ensures B.FirstRaisedIn(kids, 0) ==
            match B.FirstRaised(kids[0]) case Some(p) => Some([0] + p) case None => None
  {
    assert B.FirstRaisedIn(kids[1..], 1) == None;
  }

  lemma StatusOf(n: TreeNode)
    requires n.Valid()
    ensures n.Abs().status == n.status
  {
  }

  class BTClock {
    var batches: seq<Batch>
    ghost var detached: seq<B.Batch>    // what the batches that have left the slot were then

    /** At most one Batch is attached, and it has not EXITED. */
    ghost predicate Valid()
      reads this, Footprint()
    {
      && |batches| <= 1
      && (forall i | 0 <= i < |batches| ::
            batches[i].Valid() && B.BatchInv(batches[i].Abs()) && batches[i].state != B.Exited
                && this !in batches[i].Repr)
    }

    ghost function Footprint(): set<object>
      reads this
    {
      set i, o | 0 <= i < |batches| && o in batches[i].Repr :: o
    }

    /** The slot this clock stands for. */
    ghost function Abs(): C.Clock
      requires Valid()
      reads this, Footprint()
    {
      C.Clock(if batches == [] then [] else [batches[0].Abs()], detached)
    }

    constructor ()
      ensures Valid() && Abs() == C.Clock([], [])
    {
      batches, detached := [], [];
    }

    /** `workersReady`: every attached worker's on_batch_start returned. */
    method Submit(b: Batch, workersReady: bool, ghost w: World) returns (accepted: bool)
      requires Valid() && b.Valid() && B.BatchInv(b.Abs()) && this !in b.Repr
      modifies this
      ensures Valid()
      ensures accepted <==> b.state == B.Ready && old(batches) == [] && workersReady
      ensures accepted == C.Accepts(old(Abs()), b.Abs(), workersReady)
      ensures C.ApplyClock(old(Abs()), C.Submit(b.Abs(), workersReady), w.oracle, w.trace) ==
          C.ClockStep(Abs(), w.trace)
      ensures batches == if accepted then [b] else old(batches)
    {
      if b.state != B.Ready { return false; }
      if batches != [] { return false; }
      if !workersReady { return false; }
      batches := batches + [b];
      accepted := true;
      assert [] + [b.Abs()] == [b.Abs()];
    }

    /** Through the handle of a Batch: only the attached one is reached. */
    method Kill(b: Batch, w: World)
      requires Valid() && w !in Footprint() && w != this as object
      modifies this, Footprint(), w
      ensures Valid()
      ensures b in old(batches) ==>
                var s := B.KillBatch(old(b.Abs()), old(w.trace));
                && C.ApplyClock(old(Abs()), C.Kill, w.oracle, old(w.trace)) == C.ClockStep(Abs(), w.trace)
                && b.Abs() == s.batch && w.trace == s.trace
                && batches == (if b.state == B.Exited then [] else [b])
                && detached == if b.state == B.Exited then old(detached) + [b.Abs()] else old(detached)
      ensures b !in old(batches) ==> Abs() == old(Abs()) && w.trace == old(w.trace)
    {
      hide BehaviorTree.Halt, BehaviorTree.Tick, TreeNode.Abs;
      if b !in batches { return; }
      assert batches[0] == b && batches == [b];
      B.KillKeepsInv(b.Abs(), w.trace);
      SlotOfOne(b.Abs(), detached, C.Kill, w.oracle, w.trace);
      b.Kill(w);
      ReapIfExited(b);
    }

    method ReapIfExited(b: Batch)
      requires batches == [b] && b.Valid() && this !in b.Repr
      modifies this
      ensures if b.state == B.Exited then batches == [] && detached == old(detached) + [b.Abs()]
              else batches == [b] && detached == old(detached)
    {
      if b.state != B.Exited { return; }
      batches, detached := [], detached + [b.Abs()];
    }

    /** The batch phase of a clock tick. */
    method TickOnce(now: real, w: World)
      requires Valid() && w !in Footprint() && w != this as object
      modifies this, Footprint(), w
      ensures Valid()
      ensures C.ApplyClock(old(Abs()), C.TickOnce(now), w.oracle, old(w.trace)) == C.ClockStep(Abs(), w.trace)
      ensures old(batches) != [] ==>
                var b := old(batches)[0];
                && b.Abs() == B.TickBatch(old(b.Abs()), now, w.oracle, old(w.trace)).batch
                && batches == if b.state == B.Exited then [] else [b]
    {
      hide BehaviorTree.Halt, BehaviorTree.Tick;
      if batches == [] {
        EmptySlot(detached, C.TickOnce(now), w.oracle, w.trace);
        return;
      }
      var b := batches[0];
      assert batches == [b];
      B.TickKeepsInv(b.Abs(), now, w.oracle, w.trace);
      SlotOfOne(b.Abs(), detached, C.TickOnce(now), w.oracle, w.trace);
      var status := b.Tick(now, w);
      ReapIfExited(b);
    }

    /**
      A batch tick that raised: force the exit and free the slot. `before` is the Batch as that tick
      found it, `left` the tree as the exception left it.
    */
    method OnTickRaised(b: Batch, w: World, ghost before: B.Batch, ghost left: Tree)
      requires batches == [b] && b.Valid() && this !in b.Repr && before.state != B.Exited
      requires b.Abs() == (if !before.exiting then before.(tree := left)
                           else if before.teardown.Some? then before.(teardown := Some(left)) else before)
                          .(state := b.state)
      requires AllResting(b.Abs().tree) && (b.Abs().teardown.Some? ==> AllResting(b.Abs().teardown.value))
      requires b.state != B.Exited
      requires w !in b.Repr && w != this as object
      modifies this, b.Repr, w
      ensures Valid() && batches == []
      ensures b.state == B.Exited && b.result.Some? && b.result.value.reason == B.Errored
      ensures C.ApplyClock(C.Clock([before], old(detached)), C.TickOnceRaises(left), w.oracle, old(w.trace)) ==
              C.ClockStep(Abs(), w.trace)
    {
      hide BehaviorTree.Halt, BehaviorTree.Tick, TreeNode.Abs;
      SlotOfOne(before, detached, C.TickOnceRaises(left), w.oracle, w.trace);
      B.AbortKeepsInv(b.Abs(), true, w.trace);
      b.Abort(true, w);
      batches, detached := [], detached + [b.Abs()];
    }

    method Shutdown(w: World)
      requires Valid() && w !in Footprint() && w != this as object
      modifies this, Footprint(), w
      ensures Valid() && batches == []
      ensures C.ApplyClock(old(Abs()), C.Shutdown, w.oracle, old(w.trace)) == C.ClockStep(Abs(), w.trace)
      ensures old(batches) != [] ==> old(batches)[0].state == B.Exited
    {
      hide BehaviorTree.Halt, BehaviorTree.Tick;
      if batches == [] {
        EmptySlot(detached, C.Shutdown, w.oracle, w.trace);
        return;
      }
      var b := batches[0];
      assert batches == [b];
      B.ForcedExit(b.Abs(), B.ShutdownOp, w.oracle, w.trace);
      SlotOfOne(b.Abs(), detached, C.Shutdown, w.oracle, w.trace);
      Kill(b, w);
      if b.state != B.Exited {
        b.Abort(false, w);
        detached := detached + [b.Abs()];
      }
      batches := [];
    }
  }

  /** An operation on a slot with one Batch is that operation on the Batch. */
  lemma SlotOfOne(b: B.Batch, detached: seq<B.Batch>, op: C.ClockOp, o: Oracle, h: Trace)
    requires !op.Submit?
    ensures var s := B.Apply(b, C.BatchOpOf(op), o, h);
            C.ApplyClock(C.Clock([b], detached), op, o, h) ==
            C.ClockStep(if s.batch.state == B.Exited then C.Clock([], detached + [s.batch])
                        else C.Clock([s.batch], detached), s.trace)
  {
    assert [b][1..] == [];
    var s := B.Apply(b, C.BatchOpOf(op), o, h);
    assert C.ForEachAttached([], C.BatchOpOf(op), o, s.trace) == C.ClockStep(C.Clock([], []), s.trace);
    assert detached + [] == detached;
  }

  lemma EmptySlot(detached: seq<B.Batch>, op: C.ClockOp, o: Oracle, h: Trace)
    requires !op.Submit?
    ensures C.ApplyClock(C.Clock([], detached), op, o, h) == C.ClockStep(C.Clock([], detached), h)
  {
    assert detached + [] == detached;
  }
}
