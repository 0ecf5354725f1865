/** The life of a Batch: main tree, exit path, teardown tree. */
module Batches {
  import opened Wrappers
  import opened BehaviorTree
  import opened TreeInvariants
  import opened LeafProtocol

  datatype BatchState = Ready | Started | Exited

  datatype ExitReason = Completed | Failed | Errored | Killed

  datatype TeardownOutcome = NoTeardown | TornDown | TeardownFailed | Aborted

  /** Where a node is in its tree: the child positions on the way from the root. */
  type Path = seq<nat>

  /** `failed` is the node whose exception the result carries. */
  datatype BatchResult = BatchResult(reason: ExitReason, finalStatus: Status, teardown: TeardownOutcome,
                                     failed: Option<Path>)

  datatype Batch = Batch(tree: Tree, teardown: Option<Tree>, state: BatchState, exiting: bool,
                         pending: Option<BatchResult>, result: Option<BatchResult>)

  datatype BatchStep = BatchStep(batch: Batch, status: Status, trace: Trace)

  function NewBatch(tree: Tree, teardown: Option<Tree>): Batch {
    Batch(tree, teardown, Ready, false, None, None)
  }

  /** Some node of the tree has recorded an exception. */
  predicate AnyRaised(t: Tree)
    decreases t
  {
    match t
    case Leaf(_, _, raised) => raised
    case Control(_, _, _, cs) => AnyRaisedIn(cs)
    case Decorator(_, _, _, _, raised, c) => raised || AnyRaised(c)
  }

  predicate AnyRaisedIn(cs: seq<Tree>)
    decreases cs
  {
    cs != [] && (AnyRaised(cs[0]) || AnyRaisedIn(cs[1..]))
  }

  /** The first node, parents before children and left before right, that has recorded an exception. */
  function FirstRaised(t: Tree): Option<Path>
    decreases t
  {
    match t
    case Leaf(_, _, raised) => if raised then Some([]) else None
    case Control(_, _, _, cs) => FirstRaisedIn(cs, 0)
    case Decorator(_, _, _, _, raised, c) =>
      if raised then Some([]) else match FirstRaised(c) case Some(p) => Some([0] + p) case None => None
  }

  /** The same among children, of which the first is at position i. */
  function FirstRaisedIn(cs: seq<Tree>, i: nat): Option<Path>
    decreases cs
  {
    if cs == [] then None
    else match FirstRaised(cs[0]) case Some(p) => Some([i] + p) case None => FirstRaisedIn(cs[1..], i + 1)
  }

  lemma {:induction false} FirstRaisedExists(t: Tree)
    ensures FirstRaised(t).Some? <==> AnyRaised(t)
    decreases t
  {
    match t
    case Leaf(_, _, _) =>
    case Control(_, _, _, cs) => FirstRaisedInExists(cs, 0);
    case Decorator(_, _, _, _, _, c) => FirstRaisedExists(c);
  }

  lemma {:induction false} FirstRaisedInExists(cs: seq<Tree>, i: nat)
    ensures FirstRaisedIn(cs, i).Some? <==> AnyRaisedIn(cs)
    decreases cs
  {
    if cs != [] {
      FirstRaisedExists(cs[0]);
      FirstRaisedInExists(cs[1..], i + 1);
    }
  }

  /** The node at the end of a path. */
  predicate HasRaisedAt(t: Tree, p: Path)
    decreases t
  {
    match t
    case Leaf(_, _, raised) => p == [] && raised
    case Control(_, _, _, cs) => p != [] && p[0] < |cs| && HasRaisedAt(cs[p[0]], p[1..])
    case Decorator(_, _, _, _, raised, c) => if p == [] then raised else p[0] == 0 && HasRaisedAt(c, p[1..])
  }

  /** Reading order of paths: a node before those below it, left before right. */
  predicate Earlier(p: Path, q: Path) {
    q != [] && (p == [] || p[0] < q[0] || (p[0] == q[0] && Earlier(p[1..], q[1..])))
  }

  /** The path found leads to a node that has recorded an exception, and no earlier node has. */
  lemma {:induction false} FirstRaisedIsFirst(t: Tree, q: Path)
    requires FirstRaised(t).Some? && HasRaisedAt(t, q)
    ensures var p := FirstRaised(t).value; HasRaisedAt(t, p) && (p == q || Earlier(p, q))
    decreases t
  {
    match t
    case Leaf(_, _, _) =>
    case Control(_, _, _, cs) => FirstRaisedInIsFirst(cs, 0, q);
    case Decorator(_, _, _, _, raised, c) =>
      if !raised {
        FirstRaisedIsFirst(c, q[1..]);
        var p := FirstRaised(c).value;
        assert ([0] + p)[1..] == p;
        if p == q[1..] { assert q == [0] + p; }
      }
  }

  lemma {:induction false} RaisedAtIsRaised(t: Tree, q: Path)
    requires HasRaisedAt(t, q)
    ensures FirstRaised(t).Some?
    decreases t
  {
    match t
    case Leaf(_, _, _) =>
    case Control(_, _, _, cs) => RaisedAtIsRaisedIn(cs, 0, q);
    case Decorator(_, _, _, _, raised, c) => if !raised { RaisedAtIsRaised(c, q[1..]); }
  }

  lemma {:induction false} RaisedAtIsRaisedIn(cs: seq<Tree>, i: nat, q: Path)
    requires q != [] && i <= q[0] < i + |cs| && HasRaisedAt(cs[q[0] - i], q[1..])
    ensures FirstRaisedIn(cs, i).Some?
    decreases cs
  {
    if q[0] == i { RaisedAtIsRaised(cs[0], q[1..]); } else { RaisedAtIsRaisedIn(cs[1..], i + 1, q); }
  }

  lemma {:induction false} FirstRaisedInIsFirst(cs: seq<Tree>, i: nat, q: Path)
    requires q != [] && i <= q[0] < i + |cs| && HasRaisedAt(cs[q[0] - i], q[1..])
    ensures FirstRaisedIn(cs, i).Some?
    ensures var p := FirstRaisedIn(cs, i).value;
            && p != [] && i <= p[0] < i + |cs| && HasRaisedAt(cs[p[0] - i], p[1..])
            && (p == q || Earlier(p, q))
    decreases cs
  {
    RaisedAtIsRaisedIn(cs, i, q);
    if FirstRaised(cs[0]).Some? {
      var p := FirstRaised(cs[0]).value;
      assert ([i] + p)[1..] == p;
      if q[0] == i {
        FirstRaisedIsFirst(cs[0], q[1..]);
        if p == q[1..] { assert q == [i] + p; }
      } else {
        FirstIsRaised(cs[0]);
      }
    } else {
      if q[0] == i { RaisedAtIsRaised(cs[0], q[1..]); }
      FirstRaisedInIsFirst(cs[1..], i + 1, q);
    }
  }

  lemma {:induction false} FirstIsRaised(t: Tree)
    requires FirstRaised(t).Some?
    ensures HasRaisedAt(t, FirstRaised(t).value)
    decreases t
  {
    match t
    case Leaf(_, _, _) =>
    case Control(_, _, _, cs) => FirstInIsRaised(cs, 0);
    case Decorator(_, _, _, _, raised, c) =>
      if !raised {
        FirstIsRaised(c);
        assert ([0] + FirstRaised(c).value)[1..] == FirstRaised(c).value;
      }
  }

  lemma {:induction false} FirstInIsRaised(cs: seq<Tree>, i: nat)
    requires FirstRaisedIn(cs, i).Some?
    ensures var p := FirstRaisedIn(cs, i).value;
            p != [] && i <= p[0] < i + |cs| && HasRaisedAt(cs[p[0] - i], p[1..])
    decreases cs
  {
    if FirstRaised(cs[0]).Some? {
      FirstIsRaised(cs[0]);
      assert ([i] + FirstRaised(cs[0]).value)[1..] == FirstRaised(cs[0]).value;
    } else {
      FirstInIsRaised(cs[1..], i + 1);
    }
  }

  /** The result of a main tree that failed. */
  function FailureResult(t: Tree): BatchResult {
    BatchResult(if FirstRaised(t).Some? then Errored else Failed, FAILURE, NoTeardown, FirstRaised(t))
  }

  function Finalize(b: Batch, outcome: TeardownOutcome): Batch {
    var r := if b.pending.Some? then b.pending.value else BatchResult(Killed, IDLE, NoTeardown, None);
    b.(result := Some(r.(teardown := outcome)), state := Exited)
  }

  function EnterExit(b: Batch, r: BatchResult): Batch {
    var b' := b.(pending := Some(r), exiting := true);
    if b.teardown.None? then Finalize(b', NoTeardown) else b'
  }

  /** One tick of whichever tree is current. */
  function TickBatch(b: Batch, now: real, o: Oracle, h: Trace): BatchStep {
    if b.state == Exited then BatchStep(b, if b.result.Some? then b.result.value.finalStatus else IDLE, h)
    else
      var b1 := b.(state := Started);
      if b1.exiting then
        if b1.teardown.None? then
          var f := Finalize(b1, NoTeardown);
          BatchStep(f, f.result.value.finalStatus, h)
        else
          var s := Tick(b1.teardown.value, now, o, h);
          var b2 := b1.(teardown := Some(s.tree));
          BatchStep(if s.status == SUCCESS then Finalize(b2, TornDown)
                    else if s.status == FAILURE then Finalize(b2, TeardownFailed) else b2,
                    s.status, s.trace)
      else
        var s := Tick(b1.tree, now, o, h);
        var b2 := b1.(tree := s.tree);
        BatchStep(if s.status == SUCCESS then EnterExit(b2, BatchResult(Completed, SUCCESS, NoTeardown, None))
                  else if s.status == FAILURE then
                    EnterExit(b2, FailureResult(s.tree))
                  else b2,
                  s.status, s.trace)
  }

  function KillBatch(b: Batch, h: Trace): BatchStep {
    if b.state == Exited || b.exiting then BatchStep(b, IDLE, h)
    else
      var r := Halt(b.tree, h);
      BatchStep(EnterExit(b.(tree := r.tree), BatchResult(Killed, b.tree.status, NoTeardown, None)), IDLE, r.trace)
  }

  /** Force the Batch to EXITED without running the teardown tree; `error` when its tick raised. */
  function AbortBatch(b: Batch, error: bool, h: Trace): BatchStep {
    if b.state == Exited then BatchStep(b, IDLE, h)
    else
      var r := if error then BatchResult(Errored, b.tree.status, NoTeardown, None)
               else if b.pending.Some? then b.pending.value
               else BatchResult(Killed, b.tree.status, NoTeardown, None);
      var m := Halt(b.tree, h);
      var t := if b.teardown.None? then HaltStep(m.tree, m.trace) else Halt(b.teardown.value, m.trace);
      var r' := r.(teardown := if b.teardown.None? then NoTeardown else Aborted);
      BatchStep(Batch(m.tree, if b.teardown.None? then None else Some(t.tree), Exited, true, Some(r'), Some(r')),
                IDLE, t.trace)
  }

  // ---------------------------------------------------------------- what can happen to a Batch

  /**
    TickRaises is a tick that raised out of the tree: it leaves the tree it was ticking in any
    state whatever, after which the clock aborts the Batch.
  */
  datatype BatchOp =
    | TickOp(now: real)
    | KillOp
    | TickRaises(left: Tree)
    | ShutdownOp

  function Apply(b: Batch, op: BatchOp, o: Oracle, h: Trace): BatchStep {
    match op
    case TickOp(now) => TickBatch(b, now, o, h)
    case KillOp => KillBatch(b, h)
    case TickRaises(left) =>
      if b.state == Exited then BatchStep(b, IDLE, h)
      else if b.exiting then
        AbortBatch(if b.teardown.Some? then b.(teardown := Some(left)) else b, true, h)
      else AbortBatch(b.(tree := left), true, h)
    case ShutdownOp =>
      var k := KillBatch(b, h);
      AbortBatch(k.batch, false, k.trace)
  }

  function RunBatch(b: Batch, ops: seq<BatchOp>, o: Oracle, h: Trace): BatchStep
    decreases |ops|
  {
    if ops == [] then BatchStep(b, IDLE, h)
    else
      var s := Apply(b, ops[0], o, h);
      RunBatch(s.batch, ops[1..], o, s.trace)
  }

  /** Trees left behind by a raising tick still have resting statuses. */
  ghost predicate GoodOp(op: BatchOp) {
    op.TickRaises? ==> AllResting(op.left)
  }

  // ---------------------------------------------------------------- the invariant

  ghost predicate BatchInv(b: Batch) {
    // result is set exactly when the Batch has EXITED, and is the decided one
    && (b.result.Some? <==> b.state == Exited)
    && (b.exiting <==> b.pending.Some?)
    && (b.state == Exited ==> b.exiting && b.result.value.reason == b.pending.value.reason)
    // on the exit path a Batch waits only for its teardown tree
    && (b.exiting && b.state != Exited ==> b.teardown.Some?)
    && Sound(b.tree) && (b.teardown.Some? ==> Sound(b.teardown.value))
    // the main tree is at rest before the start and on the exit path
    && (b.exiting || b.state == Ready ==> AllIdle(b.tree))
    // the teardown tree is at rest before the exit path and after it
    && (b.teardown.Some? && (!b.exiting || b.state == Exited) ==> AllIdle(b.teardown.value))
  }

  lemma NewBatchInv(tree: Tree, teardown: Option<Tree>)
    requires AllIdle(tree) && (teardown.Some? ==> AllIdle(teardown.value))
    ensures BatchInv(NewBatch(tree, teardown))
  {
    IdleIsSound(tree);
    if teardown.Some? { IdleIsSound(teardown.value); }
  }

  lemma TickKeepsInv(b: Batch, now: real, o: Oracle, h: Trace)
    requires BatchInv(b)
    ensures BatchInv(TickBatch(b, now, o, h).batch)
  {
    if b.state != Exited {
      var t := if b.exiting then b.teardown.value else b.tree;
      TickKeepsSound(t, now, o, h);
      var s := Tick(t, now, o, h);
      if s.status != RUNNING { IdleRootIsAllIdle(s.tree); }
    }
  }

  lemma KillKeepsInv(b: Batch, h: Trace)
    requires BatchInv(b)
    ensures BatchInv(KillBatch(b, h).batch) && KillBatch(b, h).batch.exiting
  {
    HaltKeepsSound(b.tree, h);
  }

  lemma AbortKeepsInv(b: Batch, error: bool, h: Trace)
    requires b.state != Exited ==> AllResting(b.tree) && (b.teardown.Some? ==> AllResting(b.teardown.value))
    requires b.state == Exited ==> BatchInv(b)
    ensures BatchInv(AbortBatch(b, error, h).batch) && AbortBatch(b, error, h).batch.state == Exited
  {
    if b.state != Exited {
      HaltIdles(b.tree, h);
      var m := Halt(b.tree, h);
      IdleIsSound(m.tree);
      if b.teardown.Some? {
        HaltIdles(b.teardown.value, m.trace);
        IdleIsSound(Halt(b.teardown.value, m.trace).tree);
      }
    }
  }

  lemma ApplyKeepsInv(b: Batch, op: BatchOp, o: Oracle, h: Trace)
    requires BatchInv(b) && GoodOp(op)
    ensures BatchInv(Apply(b, op, o, h).batch)
  {
    SoundIsResting(b.tree);
    if b.teardown.Some? { SoundIsResting(b.teardown.value); }
    match op
    case TickOp(now) => TickKeepsInv(b, now, o, h);
    case KillOp => KillKeepsInv(b, h);
    case TickRaises(left) =>
      if b.state != Exited {
        AbortKeepsInv(if b.exiting then b.(teardown := Some(left)) else b.(tree := left), true, h);
      }
    case ShutdownOp =>
      KillKeepsInv(b, h);
      var k := KillBatch(b, h);
      SoundIsResting(k.batch.tree);
      if k.batch.teardown.Some? { SoundIsResting(k.batch.teardown.value); }
      AbortKeepsInv(k.batch, false, k.trace);
  }

  /** In every run: result is set iff EXITED, and at every teardown tick the main tree is all IDLE. */
  lemma {:induction false} RunKeepsInv(b: Batch, ops: seq<BatchOp>, o: Oracle, h: Trace)
    requires BatchInv(b) && forall i | 0 <= i < |ops| :: GoodOp(ops[i])
    ensures BatchInv(RunBatch(b, ops, o, h).batch)
    decreases |ops|
  {
    if ops != [] {
      ApplyKeepsInv(b, ops[0], o, h);
      var s := Apply(b, ops[0], o, h);
      RunKeepsInv(s.batch, ops[1..], o, s.trace);
    }
  }

  // ---------------------------------------------------------------- the exit path

  /** Once on the exit path, later operations leave the main tree alone and keep the decided reason. */
  ghost predicate OnTheWayOut(b: Batch, b': Batch, errored: bool) {
    && b'.exiting && b'.tree == b.tree && b.pending.Some? && b'.pending.Some?
    && (b'.pending.value.reason == b.pending.value.reason || (errored && b'.pending.value.reason == Errored))
    && (b.state == Exited ==> b' == b)
  }

  lemma ApplyOnTheWayOut(b: Batch, op: BatchOp, o: Oracle, h: Trace)
    requires BatchInv(b) && b.exiting && GoodOp(op)
    ensures OnTheWayOut(b, Apply(b, op, o, h).batch, op.TickRaises?)
  {
    HaltIdleIsNoop(b.tree, h);
  }

  /**
    The decided reason survives teardown success, teardown failure, repeated kills and shutdown;
    only a raising tick rewrites it. The main tree is never touched again.
  */
  lemma {:induction false} ReasonSurvives(b: Batch, ops: seq<BatchOp>, o: Oracle, h: Trace)
    requires BatchInv(b) && b.exiting && forall i | 0 <= i < |ops| :: GoodOp(ops[i])
    ensures var b' := RunBatch(b, ops, o, h).batch;
            && b'.exiting && b'.pending.Some? && b'.tree == b.tree
            && ((forall i | 0 <= i < |ops| :: !ops[i].TickRaises?) ==>
                  b'.pending.value.reason == b.pending.value.reason)
            && (b'.result.Some? && (forall i | 0 <= i < |ops| :: !ops[i].TickRaises?) ==>
                  b'.result.value.reason == b.pending.value.reason)
    decreases |ops|
  {
    RunKeepsInv(b, ops, o, h);
    if ops != [] {
      ApplyOnTheWayOut(b, ops[0], o, h);
      ApplyKeepsInv(b, ops[0], o, h);
      var s := Apply(b, ops[0], o, h);
      ReasonSurvives(s.batch, ops[1..], o, s.trace);
    }
  }

  /** Halting calls only the tree's own leaves, in whatever state an exception left it. */
  lemma {:induction false} HaltLeavesOthers(t: Tree, h: Trace, leaf: nat)
    requires leaf !in Leaves(t)
    ensures SameCalls(h, Halt(t, h).trace, leaf)
    decreases t
  {
    match t
    case Leaf(id, _, _) => Append(h, Halted(id));
    case Control(_, _, _, cs) => HaltAllLeavesOthers(cs, h, leaf);
    case Decorator(_, _, _, _, _, c) => HaltLeavesOthers(c, h, leaf);
  }

  lemma {:induction false} HaltAllLeavesOthers(cs: seq<Tree>, h: Trace, leaf: nat)
    requires leaf !in LeavesOf(cs)
    ensures SameCalls(h, HaltAll(cs, h).trace, leaf)
    decreases cs
  {
    if cs != [] {
      HaltLeavesOthers(cs[0], h, leaf);
      HaltAllLeavesOthers(cs[1..], Halt(cs[0], h).trace, leaf);
    }
  }

  /** The leaf has been neither started, continued nor halted between h and h'. */
  predicate SameCalls(h: Trace, h': Trace, leaf: nat) {
    PhaseOf(h', leaf) == PhaseOf(h, leaf) && TicksOf(h', leaf) == TicksOf(h, leaf)
  }

  /** The teardown tree a Batch still has to run is a tree of other leaves. */
  ghost predicate TeardownElsewhere(b: Batch, h: Trace, leaf: nat) {
    b.teardown.Some? && b.state != Exited ==>
      NoSharing(b.teardown.value) && Agrees(b.teardown.value, h) && leaf !in Leaves(b.teardown.value)
  }

  /** A raising tick leaves behind a tree of the same shape, in any state. */
  ghost predicate LeavesShape(b: Batch, op: BatchOp) {
    GoodOp(op) && (op.TickRaises? && b.teardown.Some? ==> Built(op.left) == Built(b.teardown.value))
  }

  lemma TeardownTickElsewhere(t: Tree, now: real, o: Oracle, h: Trace, leaf: nat)
    requires Sound(t) && NoSharing(t) && Agrees(t, h) && leaf !in Leaves(t)
    ensures var s := Tick(t, now, o, h);
            && SameCalls(h, s.trace, leaf) && Built(s.tree) == Built(t)
            && NoSharing(s.tree) && Agrees(s.tree, s.trace) && leaf !in Leaves(s.tree)
  {
    TickProtocol(t, now, o, h);
    TickKeepsShape(t, now, o, h);
    LeavesOfShape(t);
    LeavesOfShape(Tick(t, now, o, h).tree);
  }

  /** One operation on the exit path. */
  lemma ApplyElsewhere(b: Batch, op: BatchOp, o: Oracle, h: Trace, leaf: nat)
    requires BatchInv(b) && b.exiting && LeavesShape(b, op) && TeardownElsewhere(b, h, leaf)
    ensures var s := Apply(b, op, o, h);
            && SameCalls(h, s.trace, leaf) && TeardownElsewhere(s.batch, s.trace, leaf)
            && (b.teardown.Some? && s.batch.state != Exited ==>
                  s.batch.teardown.Some? && Built(s.batch.teardown.value) == Built(b.teardown.value))
            && (b.teardown.None? ==> s.batch.teardown.None?)
  {
    hide BehaviorTree.Tick, BehaviorTree.Halt, Sound, AllResting;
    HaltIdleIsNoop(b.tree, h);
    if b.state != Exited {
      var t := b.teardown.value;
      match op {
        case TickOp(now) => TeardownTickElsewhere(t, now, o, h, leaf);
        case KillOp =>
        case TickRaises(left) =>
          LeavesOfShape(t);
          LeavesOfShape(left);
          HaltLeavesOthers(left, h, leaf);
        case ShutdownOp => HaltLeavesOthers(t, h, leaf);
      }
    }
  }

  /**
    Once on the exit path no leaf of the main tree is ever started, continued or halted again,
    whatever is done to the Batch, raising ticks included.
  */
  lemma {:induction false} MainLeavesLeftAlone(b: Batch, ops: seq<BatchOp>, o: Oracle, h: Trace, leaf: nat)
    requires BatchInv(b) && b.exiting && TeardownElsewhere(b, h, leaf)
    requires forall i | 0 <= i < |ops| :: LeavesShape(b, ops[i])
    ensures SameCalls(h, RunBatch(b, ops, o, h).trace, leaf)
    decreases |ops|
  {
    if ops != [] {
      var s := Apply(b, ops[0], o, h);
      ApplyElsewhere(b, ops[0], o, h, leaf);
      if s.batch.state == Exited {
        ExitedStays(s.batch, ops[1..], o, s.trace);
      } else {
        ApplyOnTheWayOut(b, ops[0], o, h);
        ApplyKeepsInv(b, ops[0], o, h);
        forall i | 0 <= i < |ops[1..]| ensures LeavesShape(s.batch, ops[1..][i]) { assert LeavesShape(b, ops[i + 1]); }
        MainLeavesLeftAlone(s.batch, ops[1..], o, s.trace, leaf);
      }
    }
  }

  /** Nothing is done to a Batch that has EXITED. */
  lemma {:induction false} ExitedStays(b: Batch, ops: seq<BatchOp>, o: Oracle, h: Trace)
    requires b.state == Exited
    ensures RunBatch(b, ops, o, h).batch == b && RunBatch(b, ops, o, h).trace == h
    decreases |ops|
  {
    if ops != [] { ExitedStays(b, ops[1..], o, h); }
  }

  /** Killing twice is killing once: the second kill changes nothing and calls nobody. */
  lemma KillTwice(b: Batch, h: Trace)
    ensures var k := KillBatch(b, h); KillBatch(k.batch, k.trace) == BatchStep(k.batch, IDLE, k.trace)
  {
  }

  /** What the result says: reason by the main tree's verdict, teardown outcome by the teardown tree's. */
  lemma OutcomeOfTick(b: Batch, now: real, o: Oracle, h: Trace)
    requires BatchInv(b) && b.state != Exited
    ensures var s := TickBatch(b, now, o, h);
            if !b.exiting then
              && s.status == Tick(b.tree, now, o, h).status
              && (s.batch.exiting <==> s.status != RUNNING)
              && (s.status == SUCCESS ==> s.batch.pending.value.reason == Completed)
              && (s.status == FAILURE ==>
                    && s.batch.pending.value.reason == (if AnyRaised(s.batch.tree) then Errored else Failed)
                    && s.batch.pending.value.failed == FirstRaised(s.batch.tree))
              && (s.batch.state == Exited <==> s.status != RUNNING && b.teardown.None?)
            else
              && s.status == Tick(b.teardown.value, now, o, h).status
              && (s.batch.state == Exited <==> s.status != RUNNING)
              && (s.batch.state == Exited ==>
                    s.batch.result.value.teardown == if s.status == SUCCESS then TornDown else TeardownFailed)
  {
    TickKeepsSound(if b.exiting then b.teardown.value else b.tree, now, o, h);
    FirstRaisedExists(Tick(b.tree, now, o, h).tree);
  }

  /**
    What a tick records besides: the status the main tree ended with, which the teardown leaves
    alone; one tick of one tree, the other untouched; STARTED until the exit is complete.
  */
  lemma RecordOfTick(b: Batch, now: real, o: Oracle, h: Trace)
    requires BatchInv(b) && b.state != Exited
    ensures var s := TickBatch(b, now, o, h);
            && (s.batch.state == Started || s.batch.state == Exited)
            && if !b.exiting then
                 && s.trace == Tick(b.tree, now, o, h).trace && s.batch.tree == Tick(b.tree, now, o, h).tree
                 && s.batch.teardown == b.teardown
                 && (s.status != RUNNING ==> s.batch.pending.Some? && s.batch.pending.value.finalStatus == s.status)
                 && (s.status == SUCCESS ==> s.batch.pending.value.failed == None)
                 && (s.batch.state == Exited ==> s.batch.result == Some(s.batch.pending.value.(teardown := NoTeardown)))
               else
                 && s.trace == Tick(b.teardown.value, now, o, h).trace
                 && s.batch.teardown == Some(Tick(b.teardown.value, now, o, h).tree)
                 && s.batch.tree == b.tree && s.batch.pending == b.pending
                 && (s.batch.state == Exited ==>
                       s.batch.result ==
                       Some(b.pending.value.(teardown := if s.status == SUCCESS then TornDown else TeardownFailed)))
  {
    TickKeepsSound(if b.exiting then b.teardown.value else b.tree, now, o, h);
  }

  /** Ticking a Batch that has EXITED does nothing and answers the status it ended with. */
  lemma ExitedTick(b: Batch, now: real, o: Oracle, h: Trace)
    requires BatchInv(b) && b.state == Exited
    ensures TickBatch(b, now, o, h) == BatchStep(b, b.result.value.finalStatus, h)
  {
  }

  /** A kill records KILLED and the status the main tree had, halts that tree, and leaves the teardown to come. */
  lemma RecordOfKill(b: Batch, h: Trace)
    requires BatchInv(b)
    ensures var k := KillBatch(b, h);
            if b.exiting || b.state == Exited then k.batch == b && k.trace == h
            else
              && k.trace == Halt(b.tree, h).trace && AllIdle(k.batch.tree) && k.batch.teardown == b.teardown
              && k.batch.pending == Some(BatchResult(Killed, b.tree.status, NoTeardown, None))
              && (k.batch.state == Exited <==> b.teardown.None?)
              && (k.batch.state == Exited ==> k.batch.result == k.batch.pending)
              && (k.batch.state != Exited ==> k.batch.state == b.state)
  {
    HaltKeepsSound(b.tree, h);
  }

  /** An abort halts both trees, main tree first, and decides only what was not decided yet. */
  lemma RecordOfAbort(b: Batch, error: bool, h: Trace)
    requires b.state != Exited
    ensures var a := AbortBatch(b, error, h).batch;
            a.state == Exited && a.result.Some? && a.pending == a.result
    ensures var r := AbortBatch(b, error, h).batch.result.value;
            && r.teardown == (if b.teardown.None? then NoTeardown else Aborted)
            && (error ==> r.reason == Errored && r.finalStatus == b.tree.status && r.failed == None)
            && (!error && b.pending.Some? ==> r == b.pending.value.(teardown := r.teardown))
            && (!error && b.pending.None? ==> r.reason == Killed && r.finalStatus == b.tree.status && r.failed == None)
    ensures var a := AbortBatch(b, error, h);
            && a.batch.tree == Halt(b.tree, h).tree
            && (b.teardown.None? ==> a.trace == Halt(b.tree, h).trace && a.batch.teardown.None?)
            && (b.teardown.Some? ==>
                  var t := Halt(b.teardown.value, Halt(b.tree, h).trace);
                  a.trace == t.trace && a.batch.teardown == Some(t.tree))
  {
  }

  /** After shutdown or a raising tick a Batch has EXITED, whatever it was doing. */
  lemma ForcedExit(b: Batch, op: BatchOp, o: Oracle, h: Trace)
    requires BatchInv(b) && GoodOp(op) && (op.ShutdownOp? || op.TickRaises?)
    ensures var b' := Apply(b, op, o, h).batch;
            && b'.state == Exited && AllIdle(b'.tree) && (b'.teardown.Some? ==> AllIdle(b'.teardown.value))
            && (b.state != Exited && op.TickRaises? ==> b'.result.value.reason == Errored)
            && (b.state != Exited && op.ShutdownOp? && b.teardown.Some? ==> b'.result.value.teardown == Aborted)
            && (op.ShutdownOp? ==> b'.result.value.reason == if b.exiting then b.pending.value.reason else Killed)
  {
    ApplyKeepsInv(b, op, o, h);
    if b.exiting { HaltIdleIsNoop(b.tree, h); }
  }

  // ---------------------------------------------------------------- ERRORED means a node raised

  /** Number of calls that answered with an exception. */
  function Raises(h: Trace): nat {
    if h == [] then 0 else Raises(h[..|h|-1]) + if h[|h|-1].Asked? && h[|h|-1].reply == Raise then 1 else 0
  }

  /** The flags of a tree have recorded exactly the exceptions between h and h'. */
  ghost predicate Records(raisedBefore: bool, raisedAfter: bool, h: Trace, h': Trace) {
    Raises(h) <= Raises(h') && (raisedAfter <==> raisedBefore || Raises(h) < Raises(h'))
  }

  lemma RaisesAppend(h: Trace, e: Event)
    ensures Raises(h + [e]) == Raises(h) + if e.Asked? && e.reply == Raise then 1 else 0
  {
    assert (h + [e])[..|h + [e]| - 1] == h;
  }

  lemma {:induction false} HaltRecords(t: Tree, h: Trace)
    ensures Raises(Halt(t, h).trace) == Raises(h) && AnyRaised(Halt(t, h).tree) == AnyRaised(t)
    decreases t
  {
    match t
    case Leaf(id, _, _) => RaisesAppend(h, Halted(id));
    case Control(_, _, _, cs) => HaltAllRecords(cs, h);
    case Decorator(_, _, _, _, _, c) => HaltRecords(c, h);
  }

  lemma {:induction false} HaltAllRecords(cs: seq<Tree>, h: Trace)
    ensures Raises(HaltAll(cs, h).trace) == Raises(h) && AnyRaisedIn(HaltAll(cs, h).trees) == AnyRaisedIn(cs)
    decreases cs
  {
    if cs != [] {
      HaltRecords(cs[0], h);
      HaltAllRecords(cs[1..], Halt(cs[0], h).trace);
      assert HaltAll(cs, h).trees[1..] == HaltAll(cs[1..], Halt(cs[0], h).trace).trees;
    }
  }

  lemma {:induction false} HaltRunningRecords(cs: seq<Tree>, h: Trace)
    ensures Raises(HaltRunning(cs, h).trace) == Raises(h) && AnyRaisedIn(HaltRunning(cs, h).trees) == AnyRaisedIn(cs)
    decreases cs
  {
    if cs != [] {
      HaltRecords(cs[0], h);
      var r := if cs[0].status == RUNNING then Halt(cs[0], h) else HaltStep(cs[0], h);
      HaltRunningRecords(cs[1..], r.trace);
      assert HaltRunning(cs, h).trees[1..] == HaltRunning(cs[1..], r.trace).trees;
    }
  }

  lemma {:induction false} TickRecords(t: Tree, now: real, o: Oracle, h: Trace)
    requires Sound(t)
    ensures var s := Tick(t, now, o, h); Records(AnyRaised(t), AnyRaised(s.tree), h, s.trace)
    decreases t, 0
  {
    match t
    case Leaf(id, st, _) =>
      var q := if st == IDLE then Start(id) else Continue(id);
      RaisesAppend(h, Asked(q, o(h, q)));
    case Control(k, st, idx, cs) =>
      assert forall x | 0 <= x < |cs| :: Sound(cs[x]);
      RunControlRecords(k, if st == IDLE then 0 else idx, cs, now, o, h);
    case Decorator(k, st, n, start, _, c) =>
      match k
      case ForEach(key, items) => ForEachRecords(key, items, st, n, start, c, now, o, h);
      case RepeatUntil(cond) => UntilRecords(cond, st, n, start, c, now, o, h);
      case Timeout(seconds) => TimeoutRecords(seconds, st, n, start, c, now, o, h);
      case Inverter => PlainRecords(k, st, n, start, c, now, o, h);
      case ForceSuccess => PlainRecords(k, st, n, start, c, now, o, h);
      case _ => CountedRecords(k, st, n, start, c, now, o, h);
  }

  lemma {:induction false} RunControlRecords(k: ControlKind, i: nat, cs: seq<Tree>, now: real, o: Oracle, h: Trace)
    requires forall x | 0 <= x < |cs| :: Sound(cs[x])
    ensures var r := RunControl(k, i, cs, now, o, h); Records(AnyRaisedIn(cs), AnyRaisedIn(r.trees), h, r.trace)
    decreases cs, 3
  {
    match k
    case Sequence(_) => WalkFromRecords(i, cs, SUCCESS, now, o, h);
    case Fallback(_) => WalkFromRecords(i, cs, FAILURE, now, o, h);
    case Premise => WalkListRecords(cs, SUCCESS, now, o, h);
    case Parallel(_) =>
      PollAllRecords(cs, now, o, h);
      var p := PollAll(cs, now, o, h);
      HaltRunningRecords(p.trees, p.trace);
  }

  lemma {:induction false} AnyRaisedConcat(a: seq<Tree>, b: seq<Tree>)
    ensures AnyRaisedIn(a + b) <==> AnyRaisedIn(a) || AnyRaisedIn(b)
    decreases a
  {
    if a == [] {
      assert a + b == b;
    } else {
      assert (a + b)[1..] == a[1..] + b;
      AnyRaisedConcat(a[1..], b);
    }
  }

  lemma {:induction false} WalkFromRecords(i: nat, cs: seq<Tree>, go: Status, now: real, o: Oracle, h: Trace)
    requires (go == SUCCESS || go == FAILURE) && forall x | 0 <= x < |cs| :: Sound(cs[x])
    ensures var w := WalkFrom(i, cs, go, now, o, h); Records(AnyRaisedIn(cs), AnyRaisedIn(w.trees), h, w.trace)
    decreases cs, 1
  {
    hide WalkList;
    if i < |cs| {
      WalkListRecords(cs[i..], go, now, o, h);
      AnyRaisedConcat(cs[..i], cs[i..]);
      AnyRaisedConcat(cs[..i], WalkList(cs[i..], go, now, o, h).trees);
      assert cs == cs[..i] + cs[i..];
    }
  }

  lemma {:induction false} WalkListRecords(cs: seq<Tree>, go: Status, now: real, o: Oracle, h: Trace)
    requires (go == SUCCESS || go == FAILURE) && forall x | 0 <= x < |cs| :: Sound(cs[x])
    ensures var w := WalkList(cs, go, now, o, h); Records(AnyRaisedIn(cs), AnyRaisedIn(w.trees), h, w.trace)
    decreases cs, 0
  {
    if cs != [] {
      TickRecords(cs[0], now, o, h);
      var s := Tick(cs[0], now, o, h);
      var w := WalkList(cs, go, now, o, h);
      if s.status == RUNNING {
        assert w.trees[1..] == cs[1..];
      } else if s.status == Opposite(go) {
        HaltAllRecords(cs[1..], s.trace);
        assert w.trees[1..] == HaltAll(cs[1..], s.trace).trees;
      } else {
        WalkListRecords(cs[1..], go, now, o, s.trace);
        assert w.trees[1..] == WalkList(cs[1..], go, now, o, s.trace).trees;
      }
    }
  }

  lemma {:induction false} PollAllRecords(cs: seq<Tree>, now: real, o: Oracle, h: Trace)
    requires forall x | 0 <= x < |cs| :: Sound(cs[x])
    ensures var p := PollAll(cs, now, o, h); Records(AnyRaisedIn(cs), AnyRaisedIn(p.trees), h, p.trace)
    decreases cs, 0
  {
    if cs != [] {
      TickRecords(cs[0], now, o, h);
      var s := Tick(cs[0], now, o, h);
      PollAllRecords(cs[1..], now, o, s.trace);
      assert PollAll(cs, now, o, h).trees[1..] == PollAll(cs[1..], now, o, s.trace).trees;
    }
  }

  lemma {:induction false} PlainRecords(k: DecoratorKind, st: Status, n: nat, start: Option<real>, c: Tree, now: real,
          o: Oracle, h: Trace)
    requires (k.Inverter? || k.ForceSuccess?) && Sound(c)
    ensures var p := RunDecorator(k, st == IDLE, n, start, c, now, o, h);
            Records(AnyRaised(c), p.raised || AnyRaised(p.child), h, p.trace)
    decreases c, 2
  {
    TickRecords(c, now, o, h);
  }

  lemma {:induction false} CountedRecords(k: DecoratorKind, st: Status, n: nat, start: Option<real>, c: Tree,
          now: real, o: Oracle, h: Trace)
    requires (k.Repeat? || k.Retry?) && Sound(c)
    ensures var p := RunDecorator(k, st == IDLE, n, start, c, now, o, h);
            Records(AnyRaised(c), p.raised || AnyRaised(p.child), h, p.trace)
    decreases c, 2
  {
    var from := if st == IDLE then 0 else n;
    if k.Repeat? {
      CountPassRecords(SUCCESS, k.times, from, start, c, now, o, h);
    } else {
      CountPassRecords(FAILURE, k.attempts, from, start, c, now, o, h);
    }
  }

  lemma {:induction false} UntilRecords(cond: nat, st: Status, n: nat, start: Option<real>, c: Tree, now: real,
          o: Oracle, h: Trace)
    requires Sound(c)
    ensures var p := RunDecorator(RepeatUntil(cond), st == IDLE, n, start, c, now, o, h);
            Records(AnyRaised(c), p.raised || AnyRaised(p.child), h, p.trace)
    decreases c, 1
  {
    TickRecords(c, now, o, h);
    var r := Tick(c, now, o, h);
    RaisesAppend(r.trace, Asked(TestExit(cond), o(r.trace, TestExit(cond))));
  }

  lemma {:induction false} TimeoutRecords(seconds: real, st: Status, n: nat, start: Option<real>, c: Tree, now: real,
          o: Oracle, h: Trace)
    requires IsResting(st) && Sound(c) && (st == RUNNING ==> start.Some?)
    ensures var p := RunDecorator(Timeout(seconds), st == IDLE, n, start, c, now, o, h);
            Records(AnyRaised(c), p.raised || AnyRaised(p.child), h, p.trace)
    decreases c, 1
  {
    hide BehaviorTree.Tick;
    TickRecords(c, now, o, h);
    HaltRecords(c, h);
  }

  lemma {:induction false} CountPassRecords(counted: Status, limit: int, n: nat, start: Option<real>, c: Tree,
                                            now: real, o: Oracle, h: Trace)
    requires Sound(c)
    ensures var p := CountPass(counted, limit, n, start, c, now, o, h);
            Records(AnyRaised(c), p.raised || AnyRaised(p.child), h, p.trace)
    decreases c, 1
  {
    TickRecords(c, now, o, h);
    var r := Tick(c, now, o, h);
    HaltRecords(r.tree, r.trace);
    CountPassIs(counted, limit, n, start, c, now, o, h);
  }

  lemma {:induction false} ForEachRecords(key: string, items: seq<int>, st: Status, n: nat, start: Option<real>,
          c: Tree, now: real, o: Oracle, h: Trace)
    requires IsResting(st) && Sound(c)
    ensures var p := RunDecorator(ForEach(key, items), st == IDLE, n, start, c, now, o, h);
            Records(AnyRaised(c), p.raised || AnyRaised(p.child), h, p.trace)
    decreases c, 1, 1
  {
    if st == RUNNING {
      ItemPassRecords(key, items, n, start, c, now, o, h);
    } else if items != [] {
      var e := Asked(WriteItem(key, items[0]), o(h, WriteItem(key, items[0])));
      RaisesAppend(h, e);
      ItemPassRecords(key, items, 0, start, c, now, o, h + [e]);
    }
  }

  lemma {:induction false} ItemPassRecords(key: string, items: seq<int>, n: nat, start: Option<real>, c: Tree,
                                           now: real, o: Oracle, h: Trace)
    requires Sound(c)
    ensures var p := ItemPass(key, items, n, start, c, now, o, h);
            Records(AnyRaised(c), p.raised || AnyRaised(p.child), h, p.trace)
    decreases c, 1, 0
  {
    TickRecords(c, now, o, h);
    var r := Tick(c, now, o, h);
    if n + 1 < |items| {
      var w := WriteItem(key, items[n + 1]);
      RaisesAppend(r.trace, Asked(w, o(r.trace, w)));
    }
  }

  /**
    A tree's exceptions are sticky: over any run from construction its nodes carry a recorded
    exception exactly when some call raised, even one that a Fallback or Retry recovered from.
  */
  lemma {:induction false} ExceptionsAreSticky(t: Tree, ops: seq<Op>, o: Oracle, h: Trace)
    requires Sound(t)
    ensures var r := RunOps(t, ops, o, h); Records(AnyRaised(t), AnyRaised(r.tree), h, r.trace)
    decreases |ops|
  {
    if ops != [] {
      match ops[0]
      case DoTick(now) =>
        TickRecords(t, now, o, h);
        TickKeepsSound(t, now, o, h);
        var s := Tick(t, now, o, h);
        ExceptionsAreSticky(s.tree, ops[1..], o, s.trace);
      case DoHalt =>
        HaltRecords(t, h);
        HaltKeepsSound(t, h);
        var s := Halt(t, h);
        ExceptionsAreSticky(s.tree, ops[1..], o, s.trace);
    }
  }

  // ---------------------------------------------------------------- a Batch from start to verdict

  lemma {:induction false} BuiltNeverRaised(t: Tree)
    ensures !AnyRaised(Built(t))
    decreases t
  {
    match t
    case Leaf(_, _, _) =>
    case Control(_, _, _, cs) => BuiltAllNeverRaised(cs);
    case Decorator(_, _, _, _, _, c) => BuiltNeverRaised(c);
  }

  lemma {:induction false} BuiltAllNeverRaised(cs: seq<Tree>)
    ensures !AnyRaisedIn(BuiltAll(cs))
    decreases cs
  {
    if cs != [] {
      BuiltNeverRaised(cs[0]);
      BuiltAllNeverRaised(cs[1..]);
      assert BuiltAll(cs)[1..] == BuiltAll(cs[1..]);
    }
  }

  /** Ticks of a fresh Batch while its main tree keeps RUNNING are ticks of that tree. */
  lemma {:induction false} RunningBatchTicksMain(b: Batch, times: seq<real>, o: Oracle, h: Trace)
    requires BatchInv(b)
    ensures var r := RunBatch(b, Ticks(times), o, h);
            !r.batch.exiting ==>
              && r.batch.tree == RunOps(b.tree, TicksAt(times), o, h).tree
              && r.trace == RunOps(b.tree, TicksAt(times), o, h).trace
    decreases |times|
  {
    hide BehaviorTree.Tick;
    if times != [] {
      var s := TickBatch(b, times[0], o, h);
      TickKeepsInv(b, times[0], o, h);
      assert Ticks(times)[1..] == Ticks(times[1..]) && TicksAt(times)[1..] == TicksAt(times[1..]);
      RunningBatchTicksMain(s.batch, times[1..], o, s.trace);
      if s.batch.exiting {
        TicksStayOut(s.batch, times[1..], o, s.trace);
      }
    }
  }

  lemma {:induction false} TicksStayOut(b: Batch, times: seq<real>, o: Oracle, h: Trace)
    requires BatchInv(b) && b.exiting
    ensures RunBatch(b, Ticks(times), o, h).batch.exiting
  {
    ReasonSurvives(b, Ticks(times), o, h);
  }

  function Ticks(times: seq<real>): (r: seq<BatchOp>)
    ensures |r| == |times| && forall i | 0 <= i < |r| :: r[i] == TickOp(times[i])
  {
    seq(|times|, i requires 0 <= i < |times| => TickOp(times[i]))
  }

  /**
    A Batch whose tree fails is ERRORED exactly when some call made by the tree, at that tick or
    any earlier one, raised; otherwise it is FAILED.
  */
  lemma ErroredIffRaised(t: Tree, teardown: Option<Tree>, times: seq<real>, now: real, o: Oracle)
    requires teardown.Some? ==> AllIdle(teardown.value)
    requires var r := RunBatch(NewBatch(Built(t), teardown), Ticks(times), o, []); !r.batch.exiting
    ensures var r := RunBatch(NewBatch(Built(t), teardown), Ticks(times), o, []);
            var s := TickBatch(r.batch, now, o, r.trace);
            s.status == FAILURE ==>
              s.batch.pending.Some? && s.batch.pending.value.reason == if Raises(s.trace) > 0 then Errored else Failed
  {
    BuiltIsIdle(t);
    var b := NewBatch(Built(t), teardown);
    NewBatchInv(Built(t), teardown);
    RunKeepsInv(b, Ticks(times), o, []);
    RunningBatchTicksMain(b, times, o, []);
    IdleIsSound(Built(t));
    BuiltNeverRaised(t);
    ExceptionsAreSticky(Built(t), TicksAt(times), o, []);
    var r := RunBatch(b, Ticks(times), o, []);
    TickRecords(r.batch.tree, now, o, r.trace);
    OutcomeOfTick(r.batch, now, o, r.trace);
  }
}
