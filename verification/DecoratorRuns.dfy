/** Whole un-halted runs of Repeat, Retry and ForEach, counted. */
module DecoratorRuns {
  import opened Wrappers
  import opened BehaviorTree
  import opened TreeInvariants

  function Count(ss: seq<Status>, s: Status): nat {
    if ss == [] then 0 else (if ss[0] == s then 1 else 0) + Count(ss[1..], s)
  }

  lemma {:induction false} OneStatusPerTick(t: Tree, times: seq<real>, o: Oracle, h: Trace)
    ensures |RunOps(t, TicksAt(times), o, h).statuses| == |times|
    decreases |times|
  {
    if times != [] {
      var s := Tick(t, times[0], o, h);
      assert TicksAt(times)[1..] == TicksAt(times[1..]);
      OneStatusPerTick(s.tree, times[1..], o, s.trace);
    }
  }

  /** What Repeat counts and Retry counts, and how many of them end the run. */
  function Counted(k: DecoratorKind): Status
    requires k.Repeat? || k.Retry?
  {
    if k.Repeat? then SUCCESS else FAILURE
  }

  function Limit(k: DecoratorKind): nat
    requires k.Repeat? || k.Retry?
    ensures Limit(k) >= 1
  {
    var n := if k.Repeat? then k.times else k.attempts;
    if n < 1 then 1 else n
  }

  /** The run is still open: every tick but the last returned RUNNING. */
  ghost predicate OpenUntilLast(ss: seq<Status>) {
    forall i | 0 <= i < |ss| - 1 :: ss[i] == RUNNING
  }

  /** Verdict of an open run whose child, ticked alone, returned `cs`, after n earlier counted passes. */
  ghost predicate CountedVerdict(k: DecoratorKind, n: nat, verdict: Status, cs: seq<Status>)
    requires k.Repeat? || k.Retry?
    requires cs != []
  {
    var last, m := cs[|cs| - 1], n + Count(cs, Counted(k));
    && m <= Limit(k)
    && (forall i | 0 <= i < |cs| - 1 :: cs[i] != Opposite(Counted(k)))
    && (verdict == Counted(k) <==> last == Counted(k) && m == Limit(k))
    && (verdict == Opposite(Counted(k)) <==> last == Opposite(Counted(k)))
    && (verdict == RUNNING <==> last != Opposite(Counted(k)) && m < Limit(k))
  }

  lemma CountedPass(k: DecoratorKind, st: Status, n: nat, start: Option<real>, c: Tree, now: real, o: Oracle, h: Trace)
    requires (k.Repeat? || k.Retry?) && (st == IDLE ==> n == 0)
    ensures RunDecorator(k, st == IDLE, n, start, c, now, o, h) ==
            CountPass(Counted(k), if k.Repeat? then k.times else k.attempts, n, start, c, now, o, h)
  {
    hide CountPass, BehaviorTree.Tick;
  }

  /** One tick of Repeat or Retry next to one tick of its child alone. */
  lemma CountedTick(k: DecoratorKind, st: Status, n: nat, start: Option<real>, raised: bool, c: Tree,
                    now: real, o: Oracle, h: Trace)
    requires k.Repeat? || k.Retry?
    requires Sound(c) && IsResting(st) && (st == IDLE ==> n == 0)
    ensures var child := Tick(c, now, o, h);
            var s := Tick(Decorator(k, st, n, start, raised, c), now, o, h);
            var m := n + if child.status == Counted(k) then 1 else 0;
            && GoodStep(child) && s.trace == child.trace
            && s.status == (if child.status == Counted(k) && m < Limit(k) && n < Limit(k) then RUNNING
                            else child.status)
            && (s.status == RUNNING ==> s.tree == Decorator(k, RUNNING, m, start, raised, child.tree))
  {
    hide Sound, AllIdle, RunDecorator, CountPass, IsResting, BehaviorTree.Halt;
    var limit := if k.Repeat? then k.times else k.attempts;
    CountPassIs(Counted(k), limit, n, start, c, now, o, h);
    CountedPass(k, st, n, start, c, now, o, h);
    ChildAfterTick(c, now, o, h);
    var child := Tick(c, now, o, h);
    if child.status != RUNNING { HaltIdleIsNoop(child.tree, child.trace); }
  }

  /** Running on after a first tick. */
  lemma RunOpsCons(t: Tree, times: seq<real>, o: Oracle, h: Trace)
    requires times != []
    ensures var s := Tick(t, times[0], o, h);
            var more := RunOps(s.tree, TicksAt(times[1..]), o, s.trace);
            var r := RunOps(t, TicksAt(times), o, h);
            r.statuses == [s.status] + more.statuses && r.trace == more.trace && |more.statuses| == |times| - 1
  {
    assert TicksAt(times)[1..] == TicksAt(times[1..]);
    var s := Tick(t, times[0], o, h);
    OneStatusPerTick(s.tree, times[1..], o, s.trace);
  }

  /** The run and its child's run alone: same calls, and the verdict follows from counting. */
  ghost predicate RunsAsCounted(k: DecoratorKind, n: nat, r: Run, alone: Run)
    requires k.Repeat? || k.Retry?
  {
    && |r.statuses| == |alone.statuses| > 0 && r.trace == alone.trace
    && CountedVerdict(k, n, r.statuses[|r.statuses| - 1], alone.statuses)
  }

  lemma RunsAsCountedCons(k: DecoratorKind, n: nat, s: Status, child: Status, r: Run, alone: Run, more: Run,
          moreAlone: Run)
    requires k.Repeat? || k.Retry?
    requires r.statuses == [s] + more.statuses && r.trace == more.trace
    requires alone.statuses == [child] + moreAlone.statuses && alone.trace == moreAlone.trace
    requires child != Opposite(Counted(k))
    requires RunsAsCounted(k, n + if child == Counted(k) then 1 else 0, more, moreAlone)
    ensures RunsAsCounted(k, n, r, alone)
  {
    assert alone.statuses[1..] == moreAlone.statuses;
  }

  lemma RunsAsCountedOne(k: DecoratorKind, n: nat, s: Status, child: Status, r: Run, alone: Run)
    requires k.Repeat? || k.Retry?
    requires r.statuses == [s] && alone.statuses == [child] && r.trace == alone.trace
    requires n < Limit(k) && child != IDLE
    requires s == (if child == Counted(k) && n + 1 < Limit(k) then RUNNING else child)
    ensures RunsAsCounted(k, n, r, alone)
  {
    assert alone.statuses[1..] == [];
  }

  lemma OpenTail(first: Status, ss: seq<Status>)
    requires OpenUntilLast([first] + ss) && ss != []
    ensures first == RUNNING && OpenUntilLast(ss)
  {
    assert ([first] + ss)[0] == first;
    forall i | 0 <= i < |ss| - 1 ensures ss[i] == RUNNING { assert ([first] + ss)[i + 1] == ss[i]; }
  }

  lemma {:induction false} CountedRun(k: DecoratorKind, st: Status, n: nat, start: Option<real>, raised: bool, c: Tree,
                                      times: seq<real>, o: Oracle, h: Trace)
    requires k.Repeat? || k.Retry?
    requires Sound(c) && IsResting(st) && times != []
    requires n < Limit(k) && (st == IDLE ==> n == 0)
    requires OpenUntilLast(RunOps(Decorator(k, st, n, start, raised, c), TicksAt(times), o, h).statuses)
    ensures var r := RunOps(Decorator(k, st, n, start, raised, c), TicksAt(times), o, h);
            var alone := RunOps(c, TicksAt(times), o, h);
            RunsAsCounted(k, n, r, alone) && |r.statuses| == |times|
    decreases |times|
  {
    hide Tick;
    if |times| == 1 {
      CountedRunOne(k, st, n, start, raised, c, times, o, h);
    } else {
      var child := Tick(c, times[0], o, h);
      CountedHead(k, st, n, start, raised, c, times, o, h);
      CountedRun(k, RUNNING, n + if child.status == Counted(k) then 1 else 0, start, raised, child.tree, times[1..], o,
                 child.trace);
      CountedRunStep(k, st, n, start, raised, c, times, o, h);
    }
  }

  /** The first of several ticks leaves the decorator RUNNING with the count brought up to date. */
  lemma CountedHead(k: DecoratorKind, st: Status, n: nat, start: Option<real>, raised: bool, c: Tree,
                    times: seq<real>, o: Oracle, h: Trace)
    requires k.Repeat? || k.Retry?
    requires Sound(c) && IsResting(st) && |times| > 1 && n < Limit(k) && (st == IDLE ==> n == 0)
    requires OpenUntilLast(RunOps(Decorator(k, st, n, start, raised, c), TicksAt(times), o, h).statuses)
    ensures var child := Tick(c, times[0], o, h);
            var m := n + if child.status == Counted(k) then 1 else 0;
            && m < Limit(k) && child.status != Opposite(Counted(k)) && Sound(child.tree)
            && Tick(Decorator(k, st, n, start, raised, c), times[0], o, h) ==
               Step(Decorator(k, RUNNING, m, start, raised, child.tree), RUNNING, child.trace)
            && OpenUntilLast(RunOps(Decorator(k, RUNNING, m, start, raised, child.tree), TicksAt(times[1..]), o,
                                    child.trace).statuses)
  {
    var t := Decorator(k, st, n, start, raised, c);
    CountedTick(k, st, n, start, raised, c, times[0], o, h);
    RunOpsCons(t, times, o, h);
    var s := Tick(t, times[0], o, h);
    OpenTail(s.status, RunOps(s.tree, TicksAt(times[1..]), o, s.trace).statuses);
  }

  lemma CountedRunStep(k: DecoratorKind, st: Status, n: nat, start: Option<real>, raised: bool, c: Tree,
                       times: seq<real>, o: Oracle, h: Trace)
    requires (k.Repeat? || k.Retry?) && |times| > 1
    requires var child := Tick(c, times[0], o, h);
             var m := n + if child.status == Counted(k) then 1 else 0;
             var after := Decorator(k, RUNNING, m, start, raised, child.tree);
             && child.status != Opposite(Counted(k))
             && Tick(Decorator(k, st, n, start, raised, c), times[0], o, h) == Step(after, RUNNING, child.trace)
             && RunsAsCounted(k, m, RunOps(after, TicksAt(times[1..]), o, child.trace),
                              RunOps(child.tree, TicksAt(times[1..]), o, child.trace))
    ensures var r := RunOps(Decorator(k, st, n, start, raised, c), TicksAt(times), o, h);
            RunsAsCounted(k, n, r, RunOps(c, TicksAt(times), o, h)) && |r.statuses| == |times|
  {
    var t, rest := Decorator(k, st, n, start, raised, c), times[1..];
    var child, s := Tick(c, times[0], o, h), Tick(t, times[0], o, h);
    RunOpsCons(t, times, o, h);
    RunOpsCons(c, times, o, h);
    RunsAsCountedCons(k, n, s.status, child.status, RunOps(t, TicksAt(times), o, h), RunOps(c, TicksAt(times), o, h),
                      RunOps(s.tree, TicksAt(rest), o, s.trace), RunOps(child.tree, TicksAt(rest), o, child.trace));
  }

  lemma CountedRunOne(k: DecoratorKind, st: Status, n: nat, start: Option<real>, raised: bool, c: Tree,
                      times: seq<real>, o: Oracle, h: Trace)
    requires k.Repeat? || k.Retry?
    requires Sound(c) && IsResting(st) && |times| == 1 && n < Limit(k) && (st == IDLE ==> n == 0)
    ensures var r := RunOps(Decorator(k, st, n, start, raised, c), TicksAt(times), o, h);
            RunsAsCounted(k, n, r, RunOps(c, TicksAt(times), o, h)) && |r.statuses| == 1
  {
    var t := Decorator(k, st, n, start, raised, c);
    CountedTick(k, st, n, start, raised, c, times[0], o, h);
    RunOpsCons(t, times, o, h);
    RunOpsCons(c, times, o, h);
    var child, s := Tick(c, times[0], o, h), Tick(t, times[0], o, h);
    assert times[1..] == [];
    NoMoreTicks(s.tree, o, s.trace);
    NoMoreTicks(child.tree, o, child.trace);
    RunsAsCountedOne(k, n, s.status, child.status, RunOps(t, TicksAt(times), o, h), RunOps(c, TicksAt(times), o, h));
  }

  lemma NoMoreTicks(t: Tree, o: Oracle, h: Trace)
    ensures RunOps(t, TicksAt([]), o, h) == Run([], t, h)
  {
  }

  /**
    Repeat succeeds after exactly max(1, count) successes of its child, and Retry fails after
    exactly max(1, max_attempts) failures: over an un-halted run the child is driven exactly as if
    it were ticked alone, and the verdict follows from counting what it returned.
  */
  lemma RepeatAndRetryCount(k: DecoratorKind, c: Tree, times: seq<real>, o: Oracle, h: Trace)
    requires k.Repeat? || k.Retry?
    requires AllIdle(c) && times != []
    requires OpenUntilLast(RunOps(Decorator(k, IDLE, 0, None, false, c), TicksAt(times), o, h).statuses)
    ensures var r := RunOps(Decorator(k, IDLE, 0, None, false, c), TicksAt(times), o, h);
            var alone := RunOps(c, TicksAt(times), o, h);
            && |r.statuses| == |alone.statuses| == |times| && r.trace == alone.trace
            && (r.statuses[|times| - 1] == Counted(k) <==>
                  alone.statuses[|times| - 1] == Counted(k) && Count(alone.statuses, Counted(k)) == Limit(k))
            && (r.statuses[|times| - 1] == Opposite(Counted(k)) <==>
                  alone.statuses[|times| - 1] == Opposite(Counted(k)))
            && Count(alone.statuses, Counted(k)) <= Limit(k)
  {
    IdleIsSound(c);
    CountedRun(k, IDLE, 0, None, false, c, times, o, h);
  }

  // ---------------------------------------------------------------- ForEach

  /** The child's own verdict in each tick of a ForEach run, until a write raises. */
  function Passes(key: string, items: seq<int>, st: Status, n: nat, c: Tree, times: seq<real>, o: Oracle,
          h: Trace): seq<Status>
    decreases |times|
  {
    if times == [] || !IsResting(st) || (st == IDLE && items == []) then []
    else
      var h1 := if st == IDLE then h + [Asked(WriteItem(key, items[0]), o(h, WriteItem(key, items[0])))] else h;
      if st == IDLE && o(h, WriteItem(key, items[0])) == Raise then []
      else
        var s := Tick(Decorator(ForEach(key, items), st, n, None, false, c), times[0], o, h);
        [Tick(c, times[0], o, h1).status]
        + if s.status == RUNNING then
            Passes(key, items, RUNNING, s.tree.count, s.tree.child, times[1..], o, s.trace)
          else []
  }

  /** Only a successful pass moves on, to the next item, which is then the last thing written. */
  lemma ForEachTick(key: string, items: seq<int>, st: Status, n: nat, c: Tree, now: real, o: Oracle, h: Trace)
    requires Sound(c) && IsResting(st) && items != [] && (st == RUNNING ==> n < |items|)
    requires st == IDLE ==> o(h, WriteItem(key, items[0])) != Raise
    ensures var h1 := if st == IDLE then h + [Asked(WriteItem(key, items[0]), o(h, WriteItem(key, items[0])))] else h;
            var m := if st == IDLE then 0 else n;
            var pass := Tick(c, now, o, h1);
            var s := Tick(Decorator(ForEach(key, items), st, n, None, false, c), now, o, h);
            && (pass.status != SUCCESS ==> s.status == pass.status && s.trace == pass.trace)
            && (pass.status == SUCCESS && m + 1 == |items| ==> s.status == SUCCESS && s.trace == pass.trace)
            && (pass.status == SUCCESS && m + 1 < |items| ==>
                  && s.trace == pass.trace + [Asked(WriteItem(key, items[m + 1]),
                                                    o(pass.trace, WriteItem(key, items[m + 1])))]
                  && s.status == if o(pass.trace, WriteItem(key, items[m + 1])) == Raise then FAILURE else RUNNING)
            && (s.status == RUNNING ==>
                  s.tree == Decorator(ForEach(key, items), RUNNING, if pass.status == SUCCESS then m + 1 else m, None,
                                      false, pass.tree))
  {
    hide Sound;
    var h1 := if st == IDLE then h + [Asked(WriteItem(key, items[0]), o(h, WriteItem(key, items[0])))] else h;
    ChildAfterTick(c, now, o, h1);
    var m := if st == IDLE then 0 else n;
    assert RunDecorator(ForEach(key, items), st == IDLE, n, None, c, now, o, h) ==
        ItemPass(key, items, m, None, c, now, o, h1);
  }

  /** The passes of a run are those of its first tick and of the rest of it. */
  lemma PassesCons(key: string, items: seq<int>, st: Status, n: nat, c: Tree, times: seq<real>, o: Oracle, h: Trace)
    requires times != [] && IsResting(st) && items != []
    ensures var w := WriteItem(key, items[0]);
            var h1 := if st == IDLE then h + [Asked(w, o(h, w))] else h;
            var s := Tick(Decorator(ForEach(key, items), st, n, None, false, c), times[0], o, h);
            Passes(key, items, st, n, c, times, o, h) ==
            if st == IDLE && o(h, w) == Raise then []
            else if s.status == RUNNING then
              [Tick(c, times[0], o, h1).status]
              + Passes(key, items, RUNNING, s.tree.count, s.tree.child, times[1..], o, s.trace)
            else [Tick(c, times[0], o, h1).status]
  {
  }

  lemma FirstWriteFails(key: string, items: seq<int>, n: nat, c: Tree, now: real, o: Oracle, h: Trace)
    requires items != [] && o(h, WriteItem(key, items[0])) == Raise
    ensures Tick(Decorator(ForEach(key, items), IDLE, n, None, false, c), now, o, h).status == FAILURE
  {
  }

  /** What the last of the statuses says about the passes made, n of which had succeeded before. */
  ghost predicate AllItemsDone(items: seq<int>, n: nat, statuses: seq<Status>, ps: seq<Status>) {
    && statuses != [] && n + Count(ps, SUCCESS) <= |items|
    && (statuses[|statuses| - 1] == SUCCESS <==> n + Count(ps, SUCCESS) == |items|)
    && (statuses[|statuses| - 1] == SUCCESS ==> Count(ps, FAILURE) == 0 && |ps| == |statuses|)
  }

  lemma ItemsDoneAtOnce(items: seq<int>, n: nat, s: Status, ps: seq<Status>)
    requires n < |items|
    requires |ps| <= 1 && (ps == [] ==> s == FAILURE)
    requires ps != [] && ps[0] != SUCCESS ==> s == ps[0]
    requires ps != [] && ps[0] == SUCCESS ==> (s == SUCCESS <==> n + 1 == |items|)
    ensures AllItemsDone(items, n, [s], ps)
  {
    if ps != [] { assert ps[1..] == []; }
  }

  lemma ItemsDoneCons(items: seq<int>, n: nat, statuses: seq<Status>, first: Status, ps: seq<Status>)
    requires first == SUCCESS || first == RUNNING
    requires AllItemsDone(items, n + if first == SUCCESS then 1 else 0, statuses, ps)
    ensures AllItemsDone(items, n, [RUNNING] + statuses, [first] + ps)
  {
    assert ([first] + ps)[1..] == ps;
    assert ([RUNNING] + statuses)[|statuses|] == statuses[|statuses| - 1];
  }

  /** A successful ForEach run saw exactly one successful pass per item and no failed one. */
  lemma {:induction false} ForEachRun(key: string, items: seq<int>, st: Status, n: nat, c: Tree, times: seq<real>,
                                      o: Oracle, h: Trace)
    requires Sound(c) && IsResting(st) && items != [] && times != []
    requires if st == IDLE then n == 0 else n < |items|
    requires OpenUntilLast(RunOps(Decorator(ForEach(key, items), st, n, None, false, c), TicksAt(times), o, h).statuses)
    ensures var r := RunOps(Decorator(ForEach(key, items), st, n, None, false, c), TicksAt(times), o, h);
            && |r.statuses| == |times|
            && AllItemsDone(items, n, r.statuses, Passes(key, items, st, n, c, times, o, h))
    decreases |times|
  {
    hide BehaviorTree.Tick, Passes, AllItemsDone, Sound;
    var t := Decorator(ForEach(key, items), st, n, None, false, c);
    var s := Tick(t, times[0], o, h);
    var ps := Passes(key, items, st, n, c, times, o, h);
    var more := RunOps(s.tree, TicksAt(times[1..]), o, s.trace).statuses;
    var w := WriteItem(key, items[0]);
    var h1 := if st == IDLE then h + [Asked(w, o(h, w))] else h;
    RunOpsCons(t, times, o, h);
    PassesCons(key, items, st, n, c, times, o, h);
    ChildAfterTick(c, times[0], o, h1);
    if st == IDLE && o(h, w) == Raise {
      FirstWriteFails(key, items, n, c, times[0], o, h);
      NoMore(s.status, more);
      assert [s.status] + more == [s.status];
      ItemsDoneAtOnce(items, n, s.status, ps);
    } else {
      ForEachTick(key, items, st, n, c, times[0], o, h);
      if more == [] {
        assert times[1..] == [] && [s.status] + more == [s.status];
        if s.status == RUNNING { NoPasses(key, items, s.tree.count, s.tree.child, o, s.trace); }
        ItemsDoneAtOnce(items, n, s.status, ps);
      } else {
        OpenTail(s.status, more);
        ForEachRun(key, items, RUNNING, s.tree.count, s.tree.child, times[1..], o, s.trace);
        ItemsDoneCons(items, n, more, Tick(c, times[0], o, h1).status,
                      Passes(key, items, RUNNING, s.tree.count, s.tree.child, times[1..], o, s.trace));
      }
    }
  }

  lemma NoMore(first: Status, more: seq<Status>)
    requires OpenUntilLast([first] + more) && first != RUNNING
    ensures more == []
  {
    assert ([first] + more)[0] == first;
  }

  lemma NoPasses(key: string, items: seq<int>, n: nat, c: Tree, o: Oracle, h: Trace)
    ensures Passes(key, items, RUNNING, n, c, [], o, h) == []
  {
  }

  /** ForEach over no items succeeds at once without ticking its child. */
  lemma ForEachOfNothing(key: string, c: Tree, now: real, o: Oracle, h: Trace)
    ensures Tick(Decorator(ForEach(key, []), IDLE, 0, None, false, c), now, o, h) ==
            Step(Decorator(ForEach(key, []), IDLE, 0, None, false, c), SUCCESS, h)
  {
  }
}
