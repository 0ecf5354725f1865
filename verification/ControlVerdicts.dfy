/**
  What one tick of a control node does to its children, said child by child.

  Which children are ticked, in what order, which are halted and which are left alone, and what
  follows for the verdict of the node.
*/
module ControlVerdicts {
  import opened BehaviorTree
  import opened TreeInvariants
  import opened DecoratorRuns

  /** The traces before each of the first children is ticked, and after the last of them. */
  ghost predicate Ticked(cs: seq<Tree>, after: seq<Tree>, hs: seq<Trace>, ss: seq<Status>, now: real, o: Oracle) {
    && |hs| == |ss| + 1 && |ss| <= |cs| == |after|
    && forall i | 0 <= i < |ss| :: TickedAt(cs[i], after[i], hs[i], hs[i + 1], ss[i], now, o)
  }

  ghost predicate TickedAt(c: Tree, after: Tree, h: Trace, h': Trace, s: Status, now: real, o: Oracle) {
    Tick(c, now, o, h) == Step(after, s, h')
  }

  /**
    A walk ticks a prefix of the children in order, all but the last of which return `go`. If none
    stops it, every child was ticked and the verdict is `go`. Otherwise the last one ticked gives
    the verdict: when it is RUNNING the children after it are left exactly as they were, RUNNING
    ones included; when it is the opposite of `go` they are halted in order.
  */
  ghost predicate WalksThrough(cs: seq<Tree>, go: Status, r: Walk, hs: seq<Trace>, ss: seq<Status>, now: real,
                               o: Oracle, h: Trace)
  {
    && Ticked(cs, r.trees, hs, ss, now, o) && hs[0] == h
    && (forall i | 0 <= i < |ss| - 1 :: ss[i] == go)
    && (if |ss| == |cs| && (ss == [] || ss[|ss| - 1] == go) then r.status == go && r.trace == hs[|cs|]
        else
          ss != [] && ss[|ss| - 1] == r.status != go
          && (r.status == RUNNING ==>
                r.done == |ss| - 1 && r.trees[|ss|..] == cs[|ss|..] && r.trace == hs[|ss|])
          && (r.status != RUNNING ==>
                HaltAll(cs[|ss|..], hs[|ss|]) == HaltWalk(r.trees[|ss|..], r.trace)))
  }

  lemma {:induction false} WalkVerdict(cs: seq<Tree>, go: Status, now: real, o: Oracle, h: Trace)
      returns (hs: seq<Trace>, ss: seq<Status>)
    requires (go == SUCCESS || go == FAILURE) && forall i | 0 <= i < |cs| :: Sound(cs[i])
    ensures WalksThrough(cs, go, WalkList(cs, go, now, o, h), hs, ss, now, o, h)
    decreases |cs|
  {
    hide Tick;
    if cs == [] {
      hs, ss := [h], [];
    } else {
      var s := Tick(cs[0], now, o, h);
      TickKeepsSound(cs[0], now, o, h);
      var r := WalkList(cs, go, now, o, h);
      if s.status == go {
        var hs', ss' := WalkVerdict(cs[1..], go, now, o, s.trace);
        hs, ss := [h] + hs', [s.status] + ss';
        WalksOnThrough(cs, go, s, WalkList(cs[1..], go, now, o, s.trace), hs', ss', now, o, h);
      } else {
        hs, ss := [h, s.trace], [s.status];
        assert r.trees[0] == s.tree;
        assert r.trees[1..] == (if s.status == RUNNING then cs[1..] else HaltAll(cs[1..], s.trace).trees);
      }
    }
  }

  lemma WalksOnThrough(cs: seq<Tree>, go: Status, s: Step, rest: Walk, hs: seq<Trace>, ss: seq<Status>, now: real,
          o: Oracle, h: Trace)
    requires cs != [] && s == Tick(cs[0], now, o, h) && s.status == go
    requires WalksThrough(cs[1..], go, rest, hs, ss, now, o, s.trace)
    ensures WalksThrough(cs, go, Walk([s.tree] + rest.trees, rest.done + 1, rest.status, rest.trace),
                         [h] + hs, [s.status] + ss, now, o, h)
  {
    var hs', ss', trees := [h] + hs, [s.status] + ss, [s.tree] + rest.trees;
    forall i | 0 <= i < |ss'| ensures TickedAt(cs[i], trees[i], hs'[i], hs'[i + 1], ss'[i], now, o) {
      if i > 0 { assert TickedAt(cs[1..][i - 1], rest.trees[i - 1], hs[i - 1], hs[i], ss[i - 1], now, o); }
    }
    assert trees[|ss'|..] == rest.trees[|ss|..] && cs[|ss'|..] == cs[1..][|ss|..];
  }

  /** The status that lets a Sequence or Fallback go on to its next child. */
  function GoOn(k: ControlKind): Status
    requires HasMemory(k)
  {
    if k.Sequence? then SUCCESS else FAILURE
  }

  /**
    A Sequence or Fallback, started or resumed at its remembered child: the children before it are
    left as they were, and the rest are walked through.
  */
  lemma {:induction false} ResumedVerdict(k: ControlKind, idx: nat, cs: seq<Tree>, now: real, o: Oracle, h: Trace)
      returns (hs: seq<Trace>, ss: seq<Status>)
    requires HasMemory(k) && idx < |cs| && forall i | 0 <= i < |cs| :: Sound(cs[i])
    ensures var r := RunControl(k, idx, cs, now, o, h);
            && r.trees[..idx] == cs[..idx] && idx <= r.done
            && WalksThrough(cs[idx..], GoOn(k), Walk(r.trees[idx..], r.done - idx, r.status, r.trace), hs, ss, now, o,
                            h)
  {
    hs, ss := WalkVerdict(cs[idx..], GoOn(k), now, o, h);
    var w := WalkList(cs[idx..], GoOn(k), now, o, h);
    var r := RunControl(k, idx, cs, now, o, h);
    assert r == WalkFrom(idx, cs, GoOn(k), now, o, h) by {
      match k
      case Sequence(_) =>
      case Fallback(_) =>
    }
    assert r == Walk(cs[..idx] + w.trees, idx + w.done, w.status, w.trace);
    assert r.trees[idx..] == w.trees;
  }

  /**
    Premise starts over at the first child every time, and when a child goes RUNNING it leaves every
    later one exactly as it was, RUNNING ones included.
  */
  lemma {:induction false} PremiseVerdict(idx: nat, cs: seq<Tree>, now: real, o: Oracle, h: Trace)
      returns (hs: seq<Trace>, ss: seq<Status>)
    requires forall i | 0 <= i < |cs| :: Sound(cs[i])
    ensures var r := RunControl(Premise, idx, cs, now, o, h);
            && Ticked(cs, r.trees, hs, ss, now, o) && hs[0] == h
            && (r.status == SUCCESS <==> |ss| == |cs| && forall i | 0 <= i < |cs| :: ss[i] == SUCCESS)
            && (r.status == RUNNING ==>
                  ss != [] && ss[|ss| - 1] == RUNNING && r.trees[|ss|..] == cs[|ss|..] && r.trace == hs[|ss|])
  {
    hs, ss := WalkVerdict(cs, SUCCESS, now, o, h);
    var w := WalkList(cs, SUCCESS, now, o, h);
    var r := RunControl(Premise, idx, cs, now, o, h);
    assert r == w.(done := idx);
    if |ss| == |cs| && (ss == [] || ss[|ss| - 1] == SUCCESS) {
      assert forall i | 0 <= i < |cs| :: ss[i] == SUCCESS;
    } else if |ss| == |cs| {
      assert ss[|ss| - 1] != SUCCESS;
    }
  }

  /** Parallel ticks every child, whatever the others return. */
  lemma {:induction false} PollVerdicts(cs: seq<Tree>, now: real, o: Oracle, h: Trace)
      returns (hs: seq<Trace>, ss: seq<Status>)
    requires forall i | 0 <= i < |cs| :: Sound(cs[i])
    ensures var p := PollAll(cs, now, o, h);
            && Ticked(cs, p.trees, hs, ss, now, o) && |ss| == |cs| && hs[0] == h && p.trace == hs[|cs|]
            && p.successes == Count(ss, SUCCESS) && p.failures == Count(ss, FAILURE)
            && forall i | 0 <= i < |cs| :: GoodStep(Step(p.trees[i], ss[i], hs[i + 1]))
    decreases |cs|
  {
    if cs == [] {
      hs, ss := [h], [];
    } else {
      var s := Tick(cs[0], now, o, h);
      TickKeepsSound(cs[0], now, o, h);
      var rest := PollAll(cs[1..], now, o, s.trace);
      var hs', ss' := PollVerdicts(cs[1..], now, o, s.trace);
      hs, ss := [h] + hs', [s.status] + ss';
      forall i | 0 <= i < |cs|
        ensures TickedAt(cs[i], PollAll(cs, now, o, h).trees[i], hs[i], hs[i + 1], ss[i], now, o)
        ensures GoodStep(Step(PollAll(cs, now, o, h).trees[i], ss[i], hs[i + 1]))
      {
        if i > 0 { assert TickedAt(cs[1..][i - 1], rest.trees[i - 1], hs'[i - 1], hs'[i], ss'[i - 1], now, o); }
      }
      assert ss[1..] == ss';
    }
  }

  lemma {:induction false} CountsAddUp(ss: seq<Status>)
    requires forall i | 0 <= i < |ss| :: ss[i] != IDLE
    ensures Count(ss, SUCCESS) + Count(ss, FAILURE) + Count(ss, RUNNING) == |ss|
    ensures Count(ss, RUNNING) == 0 <==> forall i | 0 <= i < |ss| :: ss[i] != RUNNING
  {
    if ss != [] {
      CountsAddUp(ss[1..]);
      assert forall i | 1 <= i < |ss| :: ss[i] == ss[1..][i - 1];
      if ss[0] != RUNNING && forall i | 0 <= i < |ss[1..]| :: ss[1..][i] != RUNNING {
        forall i | 0 <= i < |ss| ensures ss[i] != RUNNING { if i > 0 { assert ss[1..][i - 1] != RUNNING; } }
      }
    }
  }

  /**
    The verdict of a Parallel, for any threshold: SUCCESS as soon as that many children succeeded in
    this tick, FAILURE as soon as too many failed for that; then no child is left RUNNING. While it
    is undecided, some child is RUNNING, and exactly the RUNNING ones keep their state: a child that
    has finished starts afresh at the next tick.
  */
  lemma ParallelVerdict(threshold: int, idx: nat, cs: seq<Tree>, now: real, o: Oracle, h: Trace)
      returns (hs: seq<Trace>, ss: seq<Status>)
    requires forall i | 0 <= i < |cs| :: Sound(cs[i])
    ensures var p, r := PollAll(cs, now, o, h), RunControl(Parallel(threshold), idx, cs, now, o, h);
            && Ticked(cs, p.trees, hs, ss, now, o) && |ss| == |cs| && hs[0] == h
            && (r.status == SUCCESS <==> Count(ss, SUCCESS) >= threshold)
            && (r.status == FAILURE <==> Count(ss, SUCCESS) < threshold && Count(ss, FAILURE) > |cs| - threshold)
            && (r.status != RUNNING ==> forall i | 0 <= i < |cs| :: AllIdle(r.trees[i]))
            && (r.status == RUNNING ==>
                  && (exists i | 0 <= i < |cs| :: ss[i] == RUNNING)
                  && r.trees == p.trees && r.trace == hs[|cs|]
                  && forall i | 0 <= i < |cs| :: (r.trees[i].status == RUNNING <==> ss[i] == RUNNING))
  {
    hs, ss := PollVerdicts(cs, now, o, h);
    var p := PollAll(cs, now, o, h);
    forall i | 0 <= i < |cs|
      ensures ss[i] != IDLE && Sound(p.trees[i]) && (p.trees[i].status == RUNNING <==> ss[i] == RUNNING)
    {
      assert GoodStep(Step(p.trees[i], ss[i], hs[i + 1]));
    }
    CountsAddUp(ss);
    HaltRunningIdles(p.trees, p.trace);
  }

  // ---------------------------------------------------------------- two RUNNING children under one Premise

  function Steady(): Oracle {
    (h, q) => if q == Continue(0) || q == Start(1) then Stay else if h == [] then Succeed else Stay
  }

  /**
    Premise really leaves a later child RUNNING when an earlier one goes RUNNING again: from a newly
    built Premise of two leaves two ticks lead to both leaves RUNNING, and only one was ticked last.
  */
  lemma PremiseLeavesLaterRunning()
    ensures var t := Control(Premise, IDLE, 0, [Leaf(0, IDLE, false), Leaf(1, IDLE, false)]);
            var first := Tick(t, 0.0, Steady(), []);
            var second := Tick(first.tree, 1.0, Steady(), first.trace);
            && first.tree.children == [Leaf(0, IDLE, false), Leaf(1, RUNNING, false)]
            && second.tree.children == [Leaf(0, RUNNING, false), Leaf(1, RUNNING, false)]
            && second.trace == first.trace + [Asked(Start(0), Stay)]
  {
    var o := Steady();
    var a, b := Leaf(0, IDLE, false), Leaf(1, IDLE, false);
    var h1 := [Asked(Start(0), Succeed)];
    assert [a, b][1..] == [b] && [b][1..] == [];
    assert Tick(a, 0.0, o, []) == Step(a, SUCCESS, h1);
    assert Tick(b, 0.0, o, h1) == Step(Leaf(1, RUNNING, false), RUNNING, h1 + [Asked(Start(1), Stay)]);
    assert WalkList([b], SUCCESS, 0.0, o, h1).trees == [Leaf(1, RUNNING, false)];
    assert WalkList([a, b], SUCCESS, 0.0, o, []).trees == [a, Leaf(1, RUNNING, false)];
    var b' := Leaf(1, RUNNING, false);
    var h2 := h1 + [Asked(Start(1), Stay)];
    assert [a, b'][1..] == [b'];
    assert Tick(a, 1.0, o, h2) == Step(Leaf(0, RUNNING, false), RUNNING, h2 + [Asked(Start(0), Stay)]);
    assert WalkList([a, b'], SUCCESS, 1.0, o, h2).trees == [Leaf(0, RUNNING, false), b'];
  }
}
