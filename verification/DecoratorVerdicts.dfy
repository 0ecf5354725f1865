/** What leaves and decorators answer, tick by tick and over whole runs. */
module DecoratorVerdicts {
  import opened Wrappers
  import opened BehaviorTree
  import opened TreeInvariants
  import opened DecoratorRuns

  // ---------------------------------------------------------------- leaves

  /** A leaf is started when it rests and continued when it runs, and an exception is a recorded failure. */
  lemma LeafTick(id: nat, st: Status, raised: bool, now: real, o: Oracle, h: Trace)
    requires st == IDLE || st == RUNNING
    ensures var call := if st == IDLE then Start(id) else Continue(id);
            var s := Tick(Leaf(id, st, raised), now, o, h);
            && s.trace == h + [Asked(call, o(h, call))]
            && (s.status == SUCCESS <==> o(h, call) == Succeed)
            && (s.status == RUNNING <==> o(h, call) == Stay)
            && (s.status == FAILURE <==> o(h, call) == Fail || o(h, call) == Raise)
            && s.tree == Leaf(id, if o(h, call) == Stay then RUNNING else IDLE, raised || o(h, call) == Raise)
  {
  }

  /** A decorator that raises has failed, whatever it was doing. */
  lemma RaiseFails(k: DecoratorKind, starting: bool, n: nat, start: Option<real>, c: Tree, now: real, o: Oracle,
                   h: Trace)
    requires RunDecorator(k, starting, n, start, c, now, o, h).raised
    ensures RunDecorator(k, starting, n, start, c, now, o, h).status == FAILURE
  {
    hide BehaviorTree.Tick, BehaviorTree.Halt;
  }

  // ---------------------------------------------------------------- Inverter and ForceSuccess

  /** Inverter makes its child's calls and swaps success and failure. */
  lemma InverterTick(st: Status, n: nat, start: Option<real>, raised: bool, c: Tree, now: real, o: Oracle, h: Trace)
    requires IsResting(st) && Sound(c)
    ensures var child := Tick(c, now, o, h);
            var s := Tick(Decorator(Inverter, st, n, start, raised, c), now, o, h);
            && s.trace == child.trace && s.tree.Decorator? && s.tree.child == child.tree
            && (s.status == SUCCESS <==> child.status == FAILURE)
            && (s.status == FAILURE <==> child.status == SUCCESS)
            && (s.status == RUNNING <==> child.status == RUNNING)
  {
    TickKeepsSound(c, now, o, h);
  }

  /** ForceSuccess makes its child's calls and never fails. */
  lemma ForceSuccessTick(st: Status, n: nat, start: Option<real>, raised: bool, c: Tree, now: real, o: Oracle, h: Trace)
    requires IsResting(st) && Sound(c)
    ensures var child := Tick(c, now, o, h);
            var s := Tick(Decorator(ForceSuccess, st, n, start, raised, c), now, o, h);
            && s.trace == child.trace && s.tree.Decorator? && s.tree.child == child.tree
            && (s.status == RUNNING <==> child.status == RUNNING)
            && (s.status == SUCCESS <==> child.status == SUCCESS || child.status == FAILURE)
  {
    TickKeepsSound(c, now, o, h);
  }

  // ---------------------------------------------------------------- RepeatUntil

  /** One tick of the do-while: what the child said, and what the exit predicate said if it was asked. */
  datatype Round = Round(child: Tree, verdict: Status, answer: Option<Reply>)

  /** From trace h to h', the child ticks once, and the predicate is asked exactly after a success. */
  ghost predicate RoundIs(cond: nat, c: Tree, now: real, o: Oracle, h: Trace, r: Round, h': Trace) {
    var pass := Tick(c, now, o, h);
    && r.child == pass.tree && r.verdict == pass.status
    && (if pass.status == SUCCESS then
          r.answer == Some(o(pass.trace, TestExit(cond)))
          && h' == pass.trace + [Asked(TestExit(cond), o(pass.trace, TestExit(cond)))]
        else r.answer == None && h' == pass.trace)
  }

  /** The loop succeeds when the predicate holds, fails with the child or when the predicate raises. */
  ghost predicate Ends(r: Round, s: Status) {
    && (s == SUCCESS <==> r.answer == Some(Succeed))
    && (s == FAILURE <==> r.verdict == FAILURE || r.answer == Some(Raise))
    && (s == RUNNING <==> r.verdict == RUNNING || r.answer == Some(Fail) || r.answer == Some(Stay))
  }

  lemma RepeatUntilTick(cond: nat, st: Status, n: nat, start: Option<real>, raised: bool, c: Tree,
                        now: real, o: Oracle, h: Trace) returns (r: Round)
    requires IsResting(st) && Sound(c)
    ensures var s := Tick(Decorator(RepeatUntil(cond), st, n, start, raised, c), now, o, h);
            && RoundIs(cond, c, now, o, h, r, s.trace) && Ends(r, s.status) && Sound(r.child)
            && (s.status == RUNNING ==> s.tree == Decorator(RepeatUntil(cond), RUNNING, n, start, raised, r.child))
  {
    hide Sound;
    TickKeepsSound(c, now, o, h);
    var pass := Tick(c, now, o, h);
    r := Round(pass.tree, pass.status,
               if pass.status == SUCCESS then Some(o(pass.trace, TestExit(cond))) else None);
    UntilTickIs(cond, st, n, start, raised, c, now, o, h);
  }

  lemma UntilTickIs(cond: nat, st: Status, n: nat, start: Option<real>, raised: bool, c: Tree,
                    now: real, o: Oracle, h: Trace)
    requires IsResting(st) && GoodStep(Tick(c, now, o, h))
    ensures var pass := Tick(c, now, o, h);
            var reply := o(pass.trace, TestExit(cond));
            var s := Tick(Decorator(RepeatUntil(cond), st, n, start, raised, c), now, o, h);
            && s.trace == (if pass.status == SUCCESS then pass.trace + [Asked(TestExit(cond), reply)] else pass.trace)
            && s.status == (if pass.status != SUCCESS then pass.status
                            else if reply == Raise then FAILURE else if reply == Succeed then SUCCESS else RUNNING)
            && (s.status == RUNNING ==> s.tree == Decorator(RepeatUntil(cond), RUNNING, n, start, raised, pass.tree))
  {
  }

  /** The rounds of a run, joined by the traces hs and the child trees. */
  ghost predicate Rounds(cond: nat, c: Tree, times: seq<real>, o: Oracle, rs: seq<Round>, hs: seq<Trace>) {
    && |rs| == |times| && |hs| == |times| + 1
    && forall i | 0 <= i < |rs| ::
         RoundIs(cond, if i == 0 then c else rs[i - 1].child, times[i], o, hs[i], rs[i], hs[i + 1])
  }

  lemma RoundsCons(cond: nat, c: Tree, times: seq<real>, o: Oracle, r: Round, h: Trace, rs: seq<Round>, hs: seq<Trace>)
    requires times != [] && Rounds(cond, r.child, times[1..], o, rs, hs)
    requires RoundIs(cond, c, times[0], o, h, r, hs[0])
    ensures Rounds(cond, c, times, o, [r] + rs, [h] + hs)
  {
    hide RoundIs;
    var rs', hs' := [r] + rs, [h] + hs;
    forall i | 0 <= i < |rs'|
      ensures RoundIs(cond, if i == 0 then c else rs'[i - 1].child, times[i], o, hs'[i], rs'[i], hs'[i + 1])
    {
      if i > 0 {
        assert RoundIs(cond, if i == 1 then r.child else rs[i - 2].child, times[1..][i - 1], o, hs[i - 1], rs[i - 1],
                       hs[i]);
      }
    }
  }

  /**
    An un-halted RepeatUntil run: every tick is one round, the predicate is asked exactly once after
    each success of the child and never otherwise, and the run ends at the first round that ends it:
    with SUCCESS exactly when the predicate was answered true there, with FAILURE exactly when the
    child failed or the predicate raised.
  */
  lemma {:induction false} RepeatUntilRun(cond: nat, st: Status, n: nat, start: Option<real>, raised: bool, c: Tree,
                                          times: seq<real>, o: Oracle, h: Trace)
      returns (rs: seq<Round>, hs: seq<Trace>)
    requires IsResting(st) && Sound(c) && times != []
    requires OpenUntilLast(RunOps(Decorator(RepeatUntil(cond), st, n, start, raised, c), TicksAt(times), o, h).statuses)
    ensures var r := RunOps(Decorator(RepeatUntil(cond), st, n, start, raised, c), TicksAt(times), o, h);
            && |r.statuses| == |times|
            && Rounds(cond, c, times, o, rs, hs) && hs[0] == h && r.trace == hs[|times|]
            && Ends(rs[|times| - 1], r.statuses[|times| - 1])
            && forall i | 0 <= i < |times| - 1 :: Ends(rs[i], RUNNING)
    decreases |times|
  {
    hide BehaviorTree.Tick, Sound, RoundIs, Ends, Rounds;
    var t := Decorator(RepeatUntil(cond), st, n, start, raised, c);
    var s := Tick(t, times[0], o, h);
    var more := RunOps(s.tree, TicksAt(times[1..]), o, s.trace);
    RunOpsCons(t, times, o, h);
    var r := RepeatUntilTick(cond, st, n, start, raised, c, times[0], o, h);
    if |times| == 1 {
      NothingMore(s.tree, o, s.trace);
      OneRound(cond, c, times, o, r, h, s.trace);
      rs, hs := [r] + [], [h] + [s.trace];
    } else {
      OpenTail(s.status, more.statuses);
      var rs', hs' := RepeatUntilRun(cond, RUNNING, n, start, raised, r.child, times[1..], o, s.trace);
      RoundsLengths(cond, r.child, times[1..], o, rs', hs');
      RoundsCons(cond, c, times, o, r, h, rs', hs');
      rs, hs := [r] + rs', [h] + hs';
      assert rs[|times| - 1] == rs'[|times| - 2];
      forall i | 0 <= i < |times| - 1 ensures Ends(rs[i], RUNNING) {
        if i > 0 { assert rs[i] == rs'[i - 1]; }
      }
    }
  }

  lemma RoundsLengths(cond: nat, c: Tree, times: seq<real>, o: Oracle, rs: seq<Round>, hs: seq<Trace>)
    requires Rounds(cond, c, times, o, rs, hs)
    ensures |rs| == |times| && |hs| == |times| + 1
  {
  }

  lemma OneRound(cond: nat, c: Tree, times: seq<real>, o: Oracle, r: Round, h: Trace, h': Trace)
    requires |times| == 1 && RoundIs(cond, c, times[0], o, h, r, h')
    ensures Rounds(cond, c, times, o, [r] + [], [h] + [h'])
  {
    hide RoundIs;
  }

  lemma NothingMore(t: Tree, o: Oracle, h: Trace)
    ensures RunOps(t, TicksAt([]), o, h) == Run([], t, h)
  {
  }

  // ---------------------------------------------------------------- Timeout

  lemma TimeoutTick(seconds: real, st: Status, n: nat, start: Option<real>, raised: bool, c: Tree, now: real, o: Oracle,
                    h: Trace)
    requires IsResting(st) && Sound(c) && (st == RUNNING ==> start.Some?)
    ensures var first := if st == IDLE then now else start.value;
            var child := Tick(c, now, o, h);
            var s := Tick(Decorator(Timeout(seconds), st, n, start, raised, c), now, o, h);
            if now - first > seconds then s.status == FAILURE && s.trace == Halt(c, h).trace
            else
              && s.status == child.status && s.trace == child.trace && Sound(child.tree)
              && (s.status == RUNNING ==>
                    s.tree == Decorator(Timeout(seconds), RUNNING, n, Some(first), raised, child.tree))
  {
    hide Sound;
    TickKeepsSound(c, now, o, h);
  }

  /** No tick so far has come after the deadline that the first tick set. */
  ghost predicate InTime(first: real, seconds: real, times: seq<real>) {
    forall i | 0 <= i < |times| :: times[i] - first <= seconds
  }

  /** The child ticked alone, up to the tick that finds the time over, if there is one. */
  ghost predicate RunsInTime(first: real, seconds: real, c: Tree, times: seq<real>, o: Oracle, h: Trace, r: Run)
    requires times != []
  {
    var last := |times| - 1;
    InTime(first, seconds, times[..last]) &&
    if times[last] - first > seconds then
      var alone := RunOps(c, TicksAt(times[..last]), o, h);
      r.statuses == alone.statuses + [FAILURE] && r.trace == Halt(alone.tree, alone.trace).trace
    else
      var alone := RunOps(c, TicksAt(times), o, h);
      r.statuses == alone.statuses && r.trace == alone.trace
  }

  lemma RunsInTimeCons(first: real, seconds: real, c: Tree, times: seq<real>, o: Oracle, h: Trace, r: Run, more: Run)
    requires |times| > 1 && times[0] - first <= seconds
    requires var s := Tick(c, times[0], o, h);
             && r.statuses == [s.status] + more.statuses && r.trace == more.trace
             && RunsInTime(first, seconds, s.tree, times[1..], o, s.trace, more)
    ensures RunsInTime(first, seconds, c, times, o, h, r)
  {
    hide BehaviorTree.Tick, BehaviorTree.Halt;
    var last := |times| - 1;
    var front := times[..last];
    assert front[1..] == times[1..][..last - 1];
    forall i | 0 <= i < |front| ensures front[i] - first <= seconds {
      if i > 0 { assert front[i] == times[1..][..last - 1][i - 1]; }
    }
    RunOpsIs(c, front, o, h);
    RunOpsIs(c, times, o, h);
  }

  lemma RunOpsIs(t: Tree, times: seq<real>, o: Oracle, h: Trace)
    requires times != []
    ensures var s := Tick(t, times[0], o, h);
            var more := RunOps(s.tree, TicksAt(times[1..]), o, s.trace);
            RunOps(t, TicksAt(times), o, h) == more.(statuses := [s.status] + more.statuses)
  {
    assert TicksAt(times)[1..] == TicksAt(times[1..]);
  }

  /**
    An un-halted Timeout run, from its first tick: its child is driven exactly as if ticked alone,
    until a tick comes more than `seconds` after the first one. That tick does not tick the child,
    halts it, and fails.
  */
  lemma TimeoutRun(seconds: real, n: nat, start: Option<real>, raised: bool, c: Tree, times: seq<real>, o: Oracle,
                   h: Trace)
    requires Sound(c) && times != []
    requires OpenUntilLast(RunOps(Decorator(Timeout(seconds), IDLE, n, start, raised, c), TicksAt(times), o, h)
                           .statuses)
    ensures RunsInTime(times[0], seconds, c, times, o, h,
                       RunOps(Decorator(Timeout(seconds), IDLE, n, start, raised, c), TicksAt(times), o, h))
  {
    TimeoutRunFrom(seconds, IDLE, n, start, raised, c, times, o, h);
  }

  lemma {:induction false} TimeoutRunFrom(seconds: real, st: Status, n: nat, start: Option<real>, raised: bool, c: Tree,
                                          times: seq<real>, o: Oracle, h: Trace)
    requires IsResting(st) && Sound(c) && (st == RUNNING ==> start.Some?) && times != []
    requires OpenUntilLast(RunOps(Decorator(Timeout(seconds), st, n, start, raised, c), TicksAt(times), o, h)
                           .statuses)
    ensures RunsInTime(if st == IDLE then times[0] else start.value, seconds, c, times, o, h,
                       RunOps(Decorator(Timeout(seconds), st, n, start, raised, c), TicksAt(times), o, h))
    decreases |times|
  {
    hide BehaviorTree.Tick, BehaviorTree.Halt, Sound;
    var t := Decorator(Timeout(seconds), st, n, start, raised, c);
    var first := if st == IDLE then times[0] else start.value;
    var s := Tick(t, times[0], o, h);
    var more := RunOps(s.tree, TicksAt(times[1..]), o, s.trace);
    TimeoutTick(seconds, st, n, start, raised, c, times[0], o, h);
    RunOpsIs(t, times, o, h);
    if |times| == 1 {
      NothingMore(s.tree, o, s.trace);
      OnlyTick(first, seconds, c, times, o, h, s);
    } else {
      RunOpsCons(t, times, o, h);
      OpenTail(s.status, more.statuses);
      TimeoutRunFrom(seconds, RUNNING, n, Some(first), raised, s.tree.child, times[1..], o, s.trace);
      RunsInTimeCons(first, seconds, c, times, o, h, RunOps(t, TicksAt(times), o, h), more);
    }
  }

  lemma OnlyTick(first: real, seconds: real, c: Tree, times: seq<real>, o: Oracle, h: Trace, s: Step)
    requires |times| == 1
    requires if times[0] - first > seconds then s.status == FAILURE && s.trace == Halt(c, h).trace
             else s.status == Tick(c, times[0], o, h).status && s.trace == Tick(c, times[0], o, h).trace
    ensures RunsInTime(first, seconds, c, times, o, h, Run([s.status] + [], s.tree, s.trace))
  {
    hide BehaviorTree.Tick, BehaviorTree.Halt;
    assert times[..0] == [] && times[1..] == [];
    NothingMore(c, o, h);
    RunOpsIs(c, times, o, h);
    var child := Tick(c, times[0], o, h);
    NothingMore(child.tree, o, child.trace);
  }
}
