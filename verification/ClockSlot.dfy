/** The clock's exclusive Batch slot, over whole runs of everything done to it. */
module ClockSlot {
  import opened BehaviorTree
  import opened TreeInvariants
  import opened Batches

  /** Attached batches, and those that were attached once and have been detached, in that order. */
  datatype Clock = Clock(attached: seq<Batch>, detached: seq<Batch>)

  datatype ClockStep = ClockStep(clock: Clock, trace: Trace)

  datatype ClockOp =
    | Submit(batch: Batch, workersReady: bool)   // workersReady: every on_batch_start returned
    | Kill
    | TickOnce(now: real)
    | TickOnceRaises(left: Tree)
    | Shutdown

  /** A Batch is accepted only if it is READY and the slot is free. */
  predicate Accepts(c: Clock, b: Batch, workersReady: bool) {
    b.state == Ready && c.attached == [] && workersReady
  }

  /** Apply an operation to every attached Batch, detaching those that have EXITED. */
  function ForEachAttached(bs: seq<Batch>, op: BatchOp, o: Oracle, h: Trace): ClockStep
    decreases |bs|
  {
    if bs == [] then ClockStep(Clock([], []), h)
    else
      var s := Apply(bs[0], op, o, h);
      var rest := ForEachAttached(bs[1..], op, o, s.trace);
      ClockStep(if s.batch.state == Exited then Clock(rest.clock.attached, [s.batch] + rest.clock.detached)
                else Clock([s.batch] + rest.clock.attached, rest.clock.detached),
                rest.trace)
  }

  function ApplyClock(c: Clock, op: ClockOp, o: Oracle, h: Trace): ClockStep {
    match op
    case Submit(b, ready) =>
      ClockStep(if Accepts(c, b, ready) then c.(attached := c.attached + [b]) else c, h)
    case _ =>
      var r := ForEachAttached(c.attached, BatchOpOf(op), o, h);
      ClockStep(Clock(r.clock.attached, c.detached + r.clock.detached), r.trace)
  }

  function BatchOpOf(op: ClockOp): BatchOp
    requires !op.Submit?
  {
    match op
    case Kill => KillOp
    case TickOnce(now) => TickOp(now)
    case TickOnceRaises(left) => TickRaises(left)
    case Shutdown => ShutdownOp
  }

  function RunClock(c: Clock, ops: seq<ClockOp>, o: Oracle, h: Trace): ClockStep
    decreases |ops|
  {
    if ops == [] then ClockStep(c, h)
    else
      var s := ApplyClock(c, ops[0], o, h);
      RunClock(s.clock, ops[1..], o, s.trace)
  }

  /** Batches are submitted as constructed; a raising tick leaves resting statuses. */
  ghost predicate GoodClockOp(op: ClockOp) {
    && (op.Submit? ==> BatchInv(op.batch))
    && (op.TickOnceRaises? ==> AllResting(op.left))
  }

  ghost predicate ClockInv(c: Clock) {
    && |c.attached| <= 1
    && (forall i | 0 <= i < |c.attached| :: BatchInv(c.attached[i]) && c.attached[i].state != Exited)
    && (forall i | 0 <= i < |c.detached| :: BatchInv(c.detached[i]) && c.detached[i].state == Exited)
  }

  /** How many submits were accepted along a run. */
  function Accepted(c: Clock, ops: seq<ClockOp>, o: Oracle, h: Trace): nat
    decreases |ops|
  {
    if ops == [] then 0
    else
      var s := ApplyClock(c, ops[0], o, h);
      (if ops[0].Submit? && Accepts(c, ops[0].batch, ops[0].workersReady) then 1 else 0)
      + Accepted(s.clock, ops[1..], o, s.trace)
  }

  lemma ApplyClockKeepsInv(c: Clock, op: ClockOp, o: Oracle, h: Trace)
    requires ClockInv(c) && GoodClockOp(op)
    ensures var c' := ApplyClock(c, op, o, h).clock;
            && ClockInv(c') && c.detached <= c'.detached
            && |c'.attached| + |c'.detached| == |c.attached| + |c.detached|
                 + (if op.Submit? && Accepts(c, op.batch, op.workersReady) then 1 else 0)
            && (op.Shutdown? || op.TickOnceRaises? ==> c'.attached == [])
  {
    if !op.Submit? && c.attached != [] {
      var b, bop := c.attached[0], BatchOpOf(op);
      assert c.attached[1..] == [];
      ApplyKeepsInv(b, bop, o, h);
      if op.Shutdown? || op.TickOnceRaises? { ForcedExit(b, bop, o, h); }
      var s := Apply(b, bop, o, h);
      assert ForEachAttached([], bop, o, s.trace) == ClockStep(Clock([], []), s.trace);
    }
  }

  /**
    In every run at most one Batch is attached, a detached Batch has EXITED with its result set,
    and every accepted Batch is either still attached or detached: none is lost or stranded.
  */
  lemma {:induction false} SlotIsExclusive(c: Clock, ops: seq<ClockOp>, o: Oracle, h: Trace)
    requires ClockInv(c) && forall i | 0 <= i < |ops| :: GoodClockOp(ops[i])
    ensures var c' := RunClock(c, ops, o, h).clock;
            && ClockInv(c') && c.detached <= c'.detached
            && |c'.attached| + |c'.detached| == |c.attached| + |c.detached| + Accepted(c, ops, o, h)
    decreases |ops|
  {
    if ops != [] {
      ApplyClockKeepsInv(c, ops[0], o, h);
      var s := ApplyClock(c, ops[0], o, h);
      SlotIsExclusive(s.clock, ops[1..], o, s.trace);
    }
  }

  /** Shutdown leaves the slot empty and every Batch ever accepted EXITED. */
  lemma ShutdownEmptiesSlot(c: Clock, ops: seq<ClockOp>, o: Oracle, h: Trace)
    requires ClockInv(c) && forall i | 0 <= i < |ops| :: GoodClockOp(ops[i])
    ensures var s := RunClock(c, ops, o, h);
            var c' := ApplyClock(s.clock, Shutdown, o, s.trace).clock;
            && c'.attached == []
            && |c'.detached| == |c.attached| + |c.detached| + Accepted(c, ops, o, h)
            && forall i | 0 <= i < |c'.detached| :: c'.detached[i].state == Exited && c'.detached[i].result.Some?
  {
    SlotIsExclusive(c, ops, o, h);
    var s := RunClock(c, ops, o, h);
    ApplyClockKeepsInv(s.clock, Shutdown, o, s.trace);
  }

  /** Submitting to an occupied slot changes nothing; once the Batch has EXITED the slot is free again. */
  lemma SlotFreedOnExit(c: Clock, op: ClockOp, next: Batch, o: Oracle, h: Trace)
    requires ClockInv(c) && GoodClockOp(op) && c.attached != []
    ensures ApplyClock(c, Submit(next, true), o, h) == ClockStep(c, h)
    ensures !op.Submit? && next.state == Ready ==>
              var s := ApplyClock(c, op, o, h);
              Accepts(s.clock, next, true) <==> Apply(c.attached[0], BatchOpOf(op), o, h).batch.state == Exited
  {
    if !op.Submit? {
      assert c.attached[1..] == [];
      var s := Apply(c.attached[0], BatchOpOf(op), o, h);
      assert ForEachAttached([], BatchOpOf(op), o, s.trace) == ClockStep(Clock([], []), s.trace);
    }
  }
}
