/** What each leaf sees: its calls follow a protocol, and its runs add up. */
module LeafProtocol {
  import opened Wrappers
  import opened BehaviorTree
  import opened TreeInvariants

  // ---------------------------------------------------------------- shape

  lemma {:induction false} TickKeepsShape(t: Tree, now: real, o: Oracle, h: Trace)
    ensures Built(Tick(t, now, o, h).tree) == Built(t)
    decreases t, 0
  {
    hide WalkFrom, WalkList;
    match t
    case Leaf(_, _, _) =>
    case Control(k, st, idx, cs) =>
      match k {
        case Sequence(_) => WalkFromKeepsShape(if st == IDLE then 0 else idx, cs, SUCCESS, now, o, h);
        case Fallback(_) => WalkFromKeepsShape(if st == IDLE then 0 else idx, cs, FAILURE, now, o, h);
        case Premise => WalkListKeepsShape(cs, SUCCESS, now, o, h);
        case Parallel(_) =>
          PollAllKeepsShape(cs, now, o, h);
          var p := PollAll(cs, now, o, h);
          HaltRunningKeepsShape(p.trees, p.trace);
      }
    case Decorator(k, st, n, start, _, c) =>
      if IsResting(st) { RunDecoratorKeepsShape(k, st == IDLE, n, start, c, now, o, h); }
  }

  lemma {:induction false} RunDecoratorKeepsShape(k: DecoratorKind, starting: bool, n: nat, start: Option<real>,
          c: Tree, now: real, o: Oracle, h: Trace)
    ensures Built(RunDecorator(k, starting, n, start, c, now, o, h).child) == Built(c)
    decreases c, 2
  {
    TickKeepsShape(c, now, o, h);
    match k
    case Inverter =>
    case ForceSuccess =>
    case Repeat(_) => CountPassKeepsShape(SUCCESS, k.times, if starting then 0 else n, start, c, now, o, h);
    case Retry(_) => CountPassKeepsShape(FAILURE, k.attempts, if starting then 0 else n, start, c, now, o, h);
    case ForEach(key, items) =>
      if starting && items != [] {
        var w := WriteItem(key, items[0]);
        TickKeepsShape(c, now, o, h + [Asked(w, o(h, w))]);
      }
    case RepeatUntil(_) =>
    case Timeout(_) => HaltKeepsShape(c, h);
  }

  lemma {:induction false} CountPassKeepsShape(counted: Status, limit: int, n: nat, start: Option<real>, c: Tree,
                                               now: real, o: Oracle, h: Trace)
    ensures Built(CountPass(counted, limit, n, start, c, now, o, h).child) == Built(c)
    decreases c, 1
  {
    TickKeepsShape(c, now, o, h);
    var r := Tick(c, now, o, h);
    HaltKeepsShape(r.tree, r.trace);
  }

  lemma {:induction false} WalkFromKeepsShape(i: nat, cs: seq<Tree>, go: Status, now: real, o: Oracle, h: Trace)
    requires go == SUCCESS || go == FAILURE
    ensures BuiltAll(WalkFrom(i, cs, go, now, o, h).trees) == BuiltAll(cs)
    decreases cs, 1
  {
    if i < |cs| {
      WalkListKeepsShape(cs[i..], go, now, o, h);
      BuiltAllConcat(cs[..i], WalkList(cs[i..], go, now, o, h).trees);
      BuiltAllConcat(cs[..i], cs[i..]);
      assert cs == cs[..i] + cs[i..];
    }
  }

  lemma {:induction false} BuiltAllConcat(a: seq<Tree>, b: seq<Tree>)
    ensures BuiltAll(a + b) == BuiltAll(a) + BuiltAll(b)
    decreases a
  {
    if a == [] {
      assert a + b == b;
    } else {
      assert (a + b)[1..] == a[1..] + b;
      BuiltAllConcat(a[1..], b);
    }
  }

  lemma {:induction false} WalkListKeepsShape(cs: seq<Tree>, go: Status, now: real, o: Oracle, h: Trace)
    requires go == SUCCESS || go == FAILURE
    ensures BuiltAll(WalkList(cs, go, now, o, h).trees) == BuiltAll(cs)
    decreases cs, 0
  {
    if cs != [] {
      TickKeepsShape(cs[0], now, o, h);
      var r := Tick(cs[0], now, o, h);
      var w := WalkList(cs, go, now, o, h);
      assert w.trees[0] == r.tree;
      if r.status == RUNNING {
        assert w.trees[1..] == cs[1..];
      } else if r.status == Opposite(go) {
        HaltAllKeepsShape(cs[1..], r.trace);
        assert w.trees[1..] == HaltAll(cs[1..], r.trace).trees;
      } else {
        WalkListKeepsShape(cs[1..], go, now, o, r.trace);
        assert w.trees[1..] == WalkList(cs[1..], go, now, o, r.trace).trees;
      }
    }
  }

  lemma {:induction false} PollAllKeepsShape(cs: seq<Tree>, now: real, o: Oracle, h: Trace)
    ensures BuiltAll(PollAll(cs, now, o, h).trees) == BuiltAll(cs)
    decreases cs, 0
  {
    if cs != [] {
      TickKeepsShape(cs[0], now, o, h);
      var r := Tick(cs[0], now, o, h);
      PollAllKeepsShape(cs[1..], now, o, r.trace);
      assert PollAll(cs, now, o, h).trees[1..] == PollAll(cs[1..], now, o, r.trace).trees;
    }
  }

  lemma {:induction false} HaltKeepsShape(t: Tree, h: Trace)
    ensures Built(Halt(t, h).tree) == Built(t)
    decreases t
  {
    match t
    case Leaf(_, _, _) =>
    case Control(_, _, _, cs) => HaltAllKeepsShape(cs, h);
    case Decorator(_, _, _, _, _, c) => HaltKeepsShape(c, h);
  }

  lemma {:induction false} HaltAllKeepsShape(cs: seq<Tree>, h: Trace)
    ensures BuiltAll(HaltAll(cs, h).trees) == BuiltAll(cs)
    decreases cs
  {
    if cs != [] {
      HaltKeepsShape(cs[0], h);
      HaltAllKeepsShape(cs[1..], Halt(cs[0], h).trace);
      assert HaltAll(cs, h).trees[1..] == HaltAll(cs[1..], Halt(cs[0], h).trace).trees;
    }
  }

  lemma {:induction false} HaltRunningKeepsShape(cs: seq<Tree>, h: Trace)
    ensures BuiltAll(HaltRunning(cs, h).trees) == BuiltAll(cs)
    decreases cs
  {
    if cs != [] {
      HaltKeepsShape(cs[0], h);
      var r := if cs[0].status == RUNNING then Halt(cs[0], h) else HaltStep(cs[0], h);
      HaltRunningKeepsShape(cs[1..], r.trace);
      assert HaltRunning(cs, h).trees[1..] == HaltRunning(cs[1..], r.trace).trees;
    }
  }

  // ---------------------------------------------------------------- leaves

  ghost function Leaves(t: Tree): set<nat>
    decreases t
  {
    match t
    case Leaf(id, _, _) => {id}
    case Control(_, _, _, cs) => LeavesOf(cs)
    case Decorator(_, _, _, _, _, c) => Leaves(c)
  }

  ghost function LeavesOf(cs: seq<Tree>): set<nat>
    decreases cs
  {
    if cs == [] then {} else Leaves(cs[0]) + LeavesOf(cs[1..])
  }

  /** A real tree: no leaf occurs twice. */
  ghost predicate NoSharing(t: Tree)
    decreases t
  {
    match t
    case Leaf(_, _, _) => true
    case Control(_, _, _, cs) => NoSharingIn(cs)
    case Decorator(_, _, _, _, _, c) => NoSharing(c)
  }

  ghost predicate NoSharingIn(cs: seq<Tree>)
    decreases cs
  {
    cs != [] ==> NoSharing(cs[0]) && NoSharingIn(cs[1..]) && Leaves(cs[0]) !! LeavesOf(cs[1..])
  }

  /** Leaves and sharing depend on the shape only. */
  lemma {:induction false} LeavesOfShape(t: Tree)
    ensures Leaves(Built(t)) == Leaves(t) && (NoSharing(Built(t)) <==> NoSharing(t))
    decreases t
  {
    match t
    case Leaf(_, _, _) =>
    case Control(_, _, _, cs) => LeavesOfShapes(cs);
    case Decorator(_, _, _, _, _, c) => LeavesOfShape(c);
  }

  lemma {:induction false} LeavesOfShapes(cs: seq<Tree>)
    ensures LeavesOf(BuiltAll(cs)) == LeavesOf(cs) && (NoSharingIn(BuiltAll(cs)) <==> NoSharingIn(cs))
    decreases cs
  {
    if cs != [] {
      LeavesOfShape(cs[0]);
      LeavesOfShapes(cs[1..]);
      assert BuiltAll(cs)[1..] == BuiltAll(cs[1..]);
    }
  }

  // ---------------------------------------------------------------- the leaf's side of the trace

  datatype Phase = Resting | Active | Broken

  /** The next phase of a leaf; Broken is a call the leaf should never see. */
  function Advance(p: Phase, e: Event, leaf: nat): Phase {
    match e
    case Asked(Start(i), r) =>
      if i != leaf then p else if p != Resting then Broken else if r == Stay then Active else Resting
    case Asked(Continue(i), r) =>
      if i != leaf then p else if p != Active then Broken else if r == Stay then Active else Resting
    case Halted(i) =>
      if i != leaf then p else if p != Active then Broken else Resting
    case Asked(_, _) => p
  }

  function PhaseOf(h: Trace, leaf: nat): Phase {
    if h == [] then Resting else Advance(PhaseOf(h[..|h|-1], leaf), h[|h|-1], leaf)
  }

  predicate IsTickOf(e: Event, leaf: nat) {
    e.Asked? && (e.query == Start(leaf) || e.query == Continue(leaf))
  }

  /** How often the leaf was started or continued. */
  function TicksOf(h: Trace, leaf: nat): nat {
    if h == [] then 0 else TicksOf(h[..|h|-1], leaf) + if IsTickOf(h[|h|-1], leaf) then 1 else 0
  }

  /** The status of every leaf is the phase its trace ends in. */
  ghost predicate Agrees(t: Tree, h: Trace)
    decreases t
  {
    match t
    case Leaf(id, st, _) => PhaseOf(h, id) == if st == RUNNING then Active else Resting
    case Control(_, _, _, cs) => forall i | 0 <= i < |cs| :: Agrees(cs[i], h)
    case Decorator(_, _, _, _, _, c) => Agrees(c, h)
  }

  ghost predicate AllAgree(cs: seq<Tree>, h: Trace) {
    forall i | 0 <= i < |cs| :: Agrees(cs[i], h)
  }

  /** From h to h', only leaves in `touched` were called, each asked at most once. */
  ghost predicate Calls(h: Trace, h': Trace, touched: set<nat>) {
    && (forall id | id !in touched :: PhaseOf(h', id) == PhaseOf(h, id) && TicksOf(h', id) == TicksOf(h, id))
    && (forall id | id in touched :: TicksOf(h', id) <= TicksOf(h, id) + 1)
  }

  /** As Calls, but no leaf was asked: only halts. */
  ghost predicate OnlyHalts(h: Trace, h': Trace, touched: set<nat>) {
    && (forall id :: TicksOf(h', id) == TicksOf(h, id))
    && (forall id | id !in touched :: PhaseOf(h', id) == PhaseOf(h, id))
  }

  lemma Append(h: Trace, e: Event)
    ensures forall id :: PhaseOf(h + [e], id) == Advance(PhaseOf(h, id), e, id)
    ensures forall id :: TicksOf(h + [e], id) == TicksOf(h, id) + if IsTickOf(e, id) then 1 else 0
  {
    assert (h + [e])[..|h + [e]| - 1] == h;
  }

  lemma {:induction false} AgreesElsewhere(t: Tree, h: Trace, h': Trace)
    requires Agrees(t, h)
    requires forall id | id in Leaves(t) :: PhaseOf(h', id) == PhaseOf(h, id)
    ensures Agrees(t, h')
    decreases t
  {
    match t
    case Leaf(_, _, _) =>
    case Control(_, _, _, cs) => AllAgreeElsewhere(cs, h, h');
    case Decorator(_, _, _, _, _, c) => AgreesElsewhere(c, h, h');
  }

  lemma {:induction false} AllAgreeElsewhere(cs: seq<Tree>, h: Trace, h': Trace)
    requires AllAgree(cs, h)
    requires forall id | id in LeavesOf(cs) :: PhaseOf(h', id) == PhaseOf(h, id)
    ensures AllAgree(cs, h')
    decreases cs
  {
    if cs != [] {
      AgreesElsewhere(cs[0], h, h');
      AllAgreeElsewhere(cs[1..], h, h');
      assert forall i | 1 <= i < |cs| :: cs[i] == cs[1..][i - 1];
    }
  }

  // ---------------------------------------------------------------- halt

  lemma {:induction false} HaltProtocol(t: Tree, h: Trace)
    requires NoSharing(t) && Agrees(t, h) && AllResting(t)
    ensures var r := Halt(t, h); Agrees(r.tree, r.trace) && OnlyHalts(h, r.trace, Leaves(t))
    decreases t
  {
    match t
    case Leaf(id, st, _) => Append(h, Halted(id));
    case Control(_, _, _, cs) => HaltAllProtocol(cs, h);
    case Decorator(_, _, _, _, _, c) => HaltProtocol(c, h);
  }

  lemma {:induction false} HaltAllProtocol(cs: seq<Tree>, h: Trace)
    requires NoSharingIn(cs)
    requires AllAgree(cs, h) && forall i | 0 <= i < |cs| :: AllResting(cs[i])
    ensures var r := HaltAll(cs, h);
            AllAgree(r.trees, r.trace) && OnlyHalts(h, r.trace, LeavesOf(cs))
    decreases cs
  {
    if cs != [] {
      HaltProtocol(cs[0], h);
      var r := Halt(cs[0], h);
      AllAgreeElsewhere(cs[1..], h, r.trace);
      HaltAllProtocol(cs[1..], r.trace);
      HeadStaysAgreed(cs, r.tree, r.trace, HaltAll(cs[1..], r.trace).trace) by { HaltKeepsShape(cs[0], h); }
    }
  }

  /** After the tail has been walked, the head still agrees with the trace. */
  lemma HeadStaysAgreed(cs: seq<Tree>, head: Tree, h: Trace, h': Trace)
    requires cs != [] && NoSharingIn(cs)
    requires Built(head) == Built(cs[0]) && Agrees(head, h)
    requires forall id | id !in LeavesOf(cs[1..]) :: PhaseOf(h', id) == PhaseOf(h, id)
    ensures Agrees(head, h')
  {
    LeavesOfShape(head);
    LeavesOfShape(cs[0]);
    AgreesElsewhere(head, h, h');
  }

  lemma {:induction false} HaltRunningProtocol(cs: seq<Tree>, h: Trace)
    requires NoSharingIn(cs)
    requires AllAgree(cs, h) && forall i | 0 <= i < |cs| :: AllResting(cs[i])
    ensures var r := HaltRunning(cs, h);
            AllAgree(r.trees, r.trace) && OnlyHalts(h, r.trace, LeavesOf(cs))
    decreases cs
  {
    if cs != [] {
      HaltProtocol(cs[0], h);
      HaltKeepsShape(cs[0], h);
      var r := if cs[0].status == RUNNING then Halt(cs[0], h) else HaltStep(cs[0], h);
      AllAgreeElsewhere(cs[1..], h, r.trace);
      HaltRunningProtocol(cs[1..], r.trace);
      HeadStaysAgreed(cs, r.tree, r.trace, HaltRunning(cs[1..], r.trace).trace);
    }
  }

  // ---------------------------------------------------------------- tick

  lemma {:induction false} TickProtocol(t: Tree, now: real, o: Oracle, h: Trace)
    requires Sound(t) && NoSharing(t) && Agrees(t, h)
    ensures var r := Tick(t, now, o, h); Agrees(r.tree, r.trace) && Calls(h, r.trace, Leaves(t))
    decreases t, 0
  {
    match t
    case Leaf(id, st, _) =>
      var q := if st == IDLE then Start(id) else Continue(id);
      Append(h, Asked(q, o(h, q)));
    case Control(k, st, idx, cs) =>
      RunControlProtocol(k, if st == IDLE then 0 else idx, cs, now, o, h);
    case Decorator(k, st, n, start, _, c) =>
      RunDecoratorProtocol(k, st == IDLE, n, start, c, now, o, h);
  }

  lemma {:induction false} RunControlProtocol(k: ControlKind, i: nat, cs: seq<Tree>, now: real, o: Oracle, h: Trace)
    requires NoSharingIn(cs)
    requires AllAgree(cs, h) && forall j | 0 <= j < |cs| :: Sound(cs[j])
    ensures var r := RunControl(k, i, cs, now, o, h);
            AllAgree(r.trees, r.trace) && Calls(h, r.trace, LeavesOf(cs))
    decreases cs, 2
  {
    match k
    case Sequence(_) => WalkFromProtocol(i, cs, SUCCESS, now, o, h);
    case Fallback(_) => WalkFromProtocol(i, cs, FAILURE, now, o, h);
    case Premise => WalkListProtocol(cs, SUCCESS, now, o, h);
    case Parallel(_) =>
      PollAllProtocol(cs, now, o, h);
      PollAllKeepsShape(cs, now, o, h);
      PollAllKeepsSound(cs, now, o, h);
      var p := PollAll(cs, now, o, h);
      LeavesOfShapes(cs);
      LeavesOfShapes(p.trees);
      forall j | 0 <= j < |cs| ensures AllResting(p.trees[j]) { SoundIsResting(p.trees[j]); }
      HaltRunningProtocol(p.trees, p.trace);
  }

  lemma {:induction false} SplitLeaves(cs: seq<Tree>, i: nat)
    requires i <= |cs|
    ensures LeavesOf(cs) == LeavesOf(cs[..i]) + LeavesOf(cs[i..])
    ensures NoSharingIn(cs) ==> NoSharingIn(cs[i..]) && LeavesOf(cs[..i]) !! LeavesOf(cs[i..])
    decreases i
  {
    if i > 0 {
      SplitLeaves(cs[1..], i - 1);
      assert cs[1..][i - 1..] == cs[i..];
      assert cs[1..][..i - 1] == cs[..i][1..];
      assert cs[..i][0] == cs[0];
    } else {
      assert cs[0..] == cs;
    }
  }

  lemma {:induction false} WalkFromProtocol(i: nat, cs: seq<Tree>, go: Status, now: real, o: Oracle, h: Trace)
    requires go == SUCCESS || go == FAILURE
    requires NoSharingIn(cs)
    requires AllAgree(cs, h) && forall j | 0 <= j < |cs| :: Sound(cs[j])
    ensures var r := WalkFrom(i, cs, go, now, o, h);
            AllAgree(r.trees, r.trace) && Calls(h, r.trace, LeavesOf(cs))
    decreases cs, 1
  {
    hide WalkList, NoSharingIn;
    if i < |cs| {
      SplitLeaves(cs, i);
      WalkListProtocol(cs[i..], go, now, o, h);
      var r := WalkList(cs[i..], go, now, o, h);
      AllAgreeElsewhere(cs[..i], h, r.trace);
      var f := WalkFrom(i, cs, go, now, o, h);
      assert forall j | 0 <= j < i :: f.trees[j] == cs[..i][j];
      assert forall j | i <= j < |cs| :: f.trees[j] == r.trees[j - i];
    }
  }

  lemma {:induction false} WalkListProtocol(cs: seq<Tree>, go: Status, now: real, o: Oracle, h: Trace)
    requires go == SUCCESS || go == FAILURE
    requires NoSharingIn(cs)
    requires AllAgree(cs, h) && forall i | 0 <= i < |cs| :: Sound(cs[i])
    ensures var r := WalkList(cs, go, now, o, h);
            AllAgree(r.trees, r.trace) && Calls(h, r.trace, LeavesOf(cs))
    decreases cs, 0
  {
    if cs != [] {
      TickProtocol(cs[0], now, o, h);
      TickKeepsShape(cs[0], now, o, h);
      var r := Tick(cs[0], now, o, h);
      AllAgreeElsewhere(cs[1..], h, r.trace);
      if r.status == RUNNING {
        assert forall i | 1 <= i < |cs| :: cs[i] == cs[1..][i - 1];
      } else if r.status == Opposite(go) {
        forall i | 0 <= i < |cs[1..]| ensures AllResting(cs[1..][i]) { SoundIsResting(cs[1..][i]); }
        HaltAllProtocol(cs[1..], r.trace);
        HeadStaysAgreed(cs, r.tree, r.trace, HaltAll(cs[1..], r.trace).trace);
      } else {
        WalkListProtocol(cs[1..], go, now, o, r.trace);
        HeadStaysAgreed(cs, r.tree, r.trace, WalkList(cs[1..], go, now, o, r.trace).trace);
      }
    }
  }

  lemma {:induction false} PollAllProtocol(cs: seq<Tree>, now: real, o: Oracle, h: Trace)
    requires NoSharingIn(cs)
    requires AllAgree(cs, h) && forall i | 0 <= i < |cs| :: Sound(cs[i])
    ensures var r := PollAll(cs, now, o, h);
            AllAgree(r.trees, r.trace) && Calls(h, r.trace, LeavesOf(cs))
    decreases cs, 0
  {
    if cs != [] {
      TickProtocol(cs[0], now, o, h);
      TickKeepsShape(cs[0], now, o, h);
      var r := Tick(cs[0], now, o, h);
      AllAgreeElsewhere(cs[1..], h, r.trace);
      PollAllProtocol(cs[1..], now, o, r.trace);
      HeadStaysAgreed(cs, r.tree, r.trace, PollAll(cs[1..], now, o, r.trace).trace);
    }
  }

  lemma {:induction false} RunDecoratorProtocol(k: DecoratorKind, starting: bool, n: nat, start: Option<real>, c: Tree,
                                                now: real, o: Oracle, h: Trace)
    requires Sound(c) && NoSharing(c) && Agrees(c, h)
    ensures var r := RunDecorator(k, starting, n, start, c, now, o, h);
            Agrees(r.child, r.trace) && Calls(h, r.trace, Leaves(c))
    decreases c, 2
  {
    hide Tick, Sound, PhaseOf;
    TickProtocol(c, now, o, h);
    TickKeepsSound(c, now, o, h);
    TickKeepsShape(c, now, o, h);
    var r := Tick(c, now, o, h);
    match k
    case Inverter =>
    case ForceSuccess =>
    case Repeat(_) => CountPassProtocol(SUCCESS, k.times, if starting then 0 else n, start, c, now, o, h);
    case Retry(_) => CountPassProtocol(FAILURE, k.attempts, if starting then 0 else n, start, c, now, o, h);
    case ForEach(key, items) => ForEachProtocol(key, items, starting, n, start, c, now, o, h);
    case RepeatUntil(cond) =>
      QuietEvent(h, r.tree, r.trace, Asked(TestExit(cond), o(r.trace, TestExit(cond))), Leaves(c));
    case Timeout(_) =>
      SoundIsResting(c);
      HaltProtocol(c, h);
  }

  lemma {:induction false} ForEachProtocol(key: string, items: seq<int>, starting: bool, n: nat, start: Option<real>,
                                           c: Tree, now: real, o: Oracle, h: Trace)
    requires Sound(c) && NoSharing(c) && Agrees(c, h)
    ensures var r := RunDecorator(ForEach(key, items), starting, n, start, c, now, o, h);
            Agrees(r.child, r.trace) && Calls(h, r.trace, Leaves(c))
    decreases c, 1, 1
  {
    if starting {
      if items != [] {
        var w := WriteItem(key, items[0]);
        QuietEvent(h, c, h, Asked(w, o(h, w)), Leaves(c));
        ItemPassProtocol(key, items, 0, start, c, now, o, h + [Asked(w, o(h, w))]);
      }
    } else {
      ItemPassProtocol(key, items, n, start, c, now, o, h);
    }
  }

  /** An event that is not about a leaf may follow. */
  lemma QuietEvent(h: Trace, t: Tree, h': Trace, e: Event, touched: set<nat>)
    requires Agrees(t, h') && Calls(h, h', touched)
    requires e.Asked? && (e.query.WriteItem? || e.query.TestExit?)
    ensures Agrees(t, h' + [e]) && Calls(h, h' + [e], touched)
    ensures forall id :: TicksOf(h' + [e], id) == TicksOf(h', id)
    ensures forall id :: PhaseOf(h' + [e], id) == PhaseOf(h', id)
  {
    Append(h', e);
    AgreesElsewhere(t, h', h' + [e]);
  }

  lemma {:induction false} CountPassProtocol(counted: Status, limit: int, n: nat, start: Option<real>, c: Tree,
                                             now: real, o: Oracle, h: Trace)
    requires Sound(c) && NoSharing(c) && Agrees(c, h)
    ensures var r := CountPass(counted, limit, n, start, c, now, o, h);
            Agrees(r.child, r.trace) && Calls(h, r.trace, Leaves(c))
    decreases c, 1
  {
    TickProtocol(c, now, o, h);
    ChildAfterTick(c, now, o, h);
    CountPassIs(counted, limit, n, start, c, now, o, h);
    var r := Tick(c, now, o, h);
    if r.status != RUNNING { HaltIdleIsNoop(r.tree, r.trace); }
  }

  lemma {:induction false} ItemPassProtocol(key: string, items: seq<int>, n: nat, start: Option<real>, c: Tree,
                                            now: real, o: Oracle, h: Trace)
    requires Sound(c) && NoSharing(c) && Agrees(c, h)
    ensures var r := ItemPass(key, items, n, start, c, now, o, h);
            Agrees(r.child, r.trace) && Calls(h, r.trace, Leaves(c))
    decreases c, 1, 0
  {
    TickProtocol(c, now, o, h);
    var r := Tick(c, now, o, h);
    if n + 1 < |items| {
      var w := WriteItem(key, items[n + 1]);
      QuietEvent(h, r.tree, r.trace, Asked(w, o(r.trace, w)), Leaves(c));
    }
  }

  // ---------------------------------------------------------------- whole runs

  /** After any run from construction, every leaf's trace follows the protocol and ends in its status. */
  lemma {:induction false} RunProtocol(t: Tree, ops: seq<Op>, o: Oracle, h: Trace)
    requires Sound(t) && NoSharing(t) && Agrees(t, h)
    ensures var r := RunOps(t, ops, o, h); Agrees(r.tree, r.trace) && NoSharing(r.tree) && Leaves(r.tree) == Leaves(t)
    decreases |ops|
  {
    if ops != [] {
      LeavesOfShape(t);
      match ops[0]
      case DoTick(now) =>
        var r := Tick(t, now, o, h);
        TickProtocol(t, now, o, h);
        TickKeepsShape(t, now, o, h);
        TickKeepsSound(t, now, o, h);
        LeavesOfShape(r.tree);
        RunProtocol(r.tree, ops[1..], o, r.trace);
      case DoHalt =>
        var r := Halt(t, h);
        SoundIsResting(t);
        HaltProtocol(t, h);
        HaltKeepsShape(t, h);
        HaltKeepsSound(t, h);
        LeavesOfShape(r.tree);
        RunProtocol(r.tree, ops[1..], o, r.trace);
    }
  }

  lemma {:induction false} BuiltAgrees(t: Tree)
    ensures Agrees(Built(t), [])
    decreases t
  {
    match t
    case Leaf(_, _, _) =>
    case Control(_, _, _, cs) => AllBuiltAgree(cs);
    case Decorator(_, _, _, _, _, c) => BuiltAgrees(c);
  }

  lemma {:induction false} AllBuiltAgree(cs: seq<Tree>)
    ensures AllAgree(BuiltAll(cs), [])
    decreases cs
  {
    if cs != [] {
      BuiltAgrees(cs[0]);
      AllBuiltAgree(cs[1..]);
    }
  }

  /** Runs of a leaf that said RUNNING at least once. */
  function Episodes(h: Trace, leaf: nat): nat {
    if h == [] then 0
    else Episodes(h[..|h|-1], leaf) + if h[|h|-1] == Asked(Start(leaf), Stay) then 1 else 0
  }

  /** Runs that ended by themselves after having said RUNNING. */
  function Finishes(h: Trace, leaf: nat): nat {
    if h == [] then 0
    else Finishes(h[..|h|-1], leaf) +
         if h[|h|-1].Asked? && h[|h|-1].query == Continue(leaf) && h[|h|-1].reply != Stay then 1 else 0
  }

  function Halts(h: Trace, leaf: nat): nat {
    if h == [] then 0 else Halts(h[..|h|-1], leaf) + if h[|h|-1] == Halted(leaf) then 1 else 0
  }

  lemma {:induction false} PhaseBalances(h: Trace, leaf: nat)
    requires PhaseOf(h, leaf) != Broken
    ensures Episodes(h, leaf) == Finishes(h, leaf) + Halts(h, leaf) + if PhaseOf(h, leaf) == Active then 1 else 0
  {
    if h != [] { PhaseBalances(h[..|h|-1], leaf); }
  }

  lemma {:induction false} AgreesAt(t: Tree, h: Trace, leaf: nat)
    requires Agrees(t, h) && leaf in Leaves(t)
    ensures PhaseOf(h, leaf) != Broken
    decreases t
  {
    match t
    case Leaf(_, _, _) =>
    case Control(_, _, _, cs) => AgreeAt(cs, h, leaf);
    case Decorator(_, _, _, _, _, c) => AgreesAt(c, h, leaf);
  }

  lemma {:induction false} AgreeAt(cs: seq<Tree>, h: Trace, leaf: nat)
    requires AllAgree(cs, h) && leaf in LeavesOf(cs)
    ensures PhaseOf(h, leaf) != Broken
    decreases cs
  {
    if leaf in Leaves(cs[0]) { AgreesAt(cs[0], h, leaf); } else { AgreeAt(cs[1..], h, leaf); }
  }

  /**
    Conservation of runs: whatever was done to the tree, the runs of a leaf that went RUNNING
    are those that finished, those that were halted, and the one still open, if any; and no leaf
    was ever started while RUNNING, or continued or halted while it rested.
  */
  lemma {:induction false} LeafConservation(t: Tree, ops: seq<Op>, o: Oracle, leaf: nat)
    requires NoSharing(t) && leaf in Leaves(t)
    ensures var h := RunOps(Built(t), ops, o, []).trace;
            && PhaseOf(h, leaf) != Broken
            && Episodes(h, leaf) == Finishes(h, leaf) + Halts(h, leaf) + if PhaseOf(h, leaf) == Active then 1 else 0
  {
    BuiltIsIdle(t);
    IdleIsSound(Built(t));
    LeavesOfShape(t);
    BuiltAgrees(t);
    RunProtocol(Built(t), ops, o, []);
    var r := RunOps(Built(t), ops, o, []);
    AgreesAt(r.tree, r.trace, leaf);
    PhaseBalances(r.trace, leaf);
  }

  /** One root tick asks every leaf at most once, and only leaves of the tree, whatever the tree does. */
  lemma {:induction false} OneTickPerLeaf(t: Tree, ops: seq<Op>, now: real, o: Oracle, leaf: nat)
    requires NoSharing(t)
    ensures var r := RunOps(Built(t), ops, o, []);
            var n := TicksOf(Tick(r.tree, now, o, r.trace).trace, leaf) - TicksOf(r.trace, leaf);
            0 <= n <= if leaf in Leaves(t) then 1 else 0
  {
    BuiltIsIdle(t);
    IdleIsSound(Built(t));
    LeavesOfShape(t);
    BuiltAgrees(t);
    RunProtocol(Built(t), ops, o, []);
    NoOrphans(Built(t), ops, o, []);
    var r := RunOps(Built(t), ops, o, []);
    TickProtocol(r.tree, now, o, r.trace);
    TickOnlyAppends(r.tree, now, o, r.trace);
    TicksGrow(r.trace, Tick(r.tree, now, o, r.trace).trace, leaf);
  }

  lemma {:induction false} TicksGrow(h: Trace, h': Trace, leaf: nat)
    requires h <= h'
    ensures TicksOf(h, leaf) <= TicksOf(h', leaf)
    decreases |h'|
  {
    if |h| < |h'| {
      TicksGrow(h, h'[..|h'|-1], leaf);
    } else {
      assert h == h';
    }
  }

  // ---------------------------------------------------------------- the trace only grows

  lemma {:induction false} HaltOnlyAppends(t: Tree, h: Trace)
    ensures h <= Halt(t, h).trace
    decreases t
  {
    match t
    case Leaf(_, _, _) =>
    case Control(_, _, _, cs) => HaltAllOnlyAppends(cs, h);
    case Decorator(_, _, _, _, _, c) => HaltOnlyAppends(c, h);
  }

  lemma {:induction false} HaltAllOnlyAppends(cs: seq<Tree>, h: Trace)
    ensures h <= HaltAll(cs, h).trace
    ensures h <= HaltRunning(cs, h).trace
    decreases cs
  {
    if cs != [] {
      HaltOnlyAppends(cs[0], h);
      HaltAllOnlyAppends(cs[1..], h);
      HaltAllOnlyAppends(cs[1..], Halt(cs[0], h).trace);
    }
  }

  lemma {:induction false} TickOnlyAppends(t: Tree, now: real, o: Oracle, h: Trace)
    ensures h <= Tick(t, now, o, h).trace
    decreases t, 0
  {
    hide HaltAll;
    match t
    case Leaf(_, _, _) =>
    case Control(k, st, idx, cs) =>
      var i := if st == IDLE then 0 else idx;
      match k {
        case Sequence(_) => WalkFromOnlyAppends(i, cs, SUCCESS, now, o, h);
        case Fallback(_) => WalkFromOnlyAppends(i, cs, FAILURE, now, o, h);
        case Premise => WalkListOnlyAppends(cs, SUCCESS, now, o, h);
        case Parallel(_) =>
          PollAllOnlyAppends(cs, now, o, h);
          var p := PollAll(cs, now, o, h);
          HaltAllOnlyAppends(p.trees, p.trace);
      }
    case Decorator(k, st, n, start, _, c) =>
      if IsResting(st) { RunDecoratorOnlyAppends(k, st == IDLE, n, start, c, now, o, h); }
  }

  lemma {:induction false} RunDecoratorOnlyAppends(k: DecoratorKind, starting: bool, n: nat, start: Option<real>,
          c: Tree, now: real, o: Oracle, h: Trace)
    ensures h <= RunDecorator(k, starting, n, start, c, now, o, h).trace
    decreases c, 2
  {
    hide Tick, Halt;
    TickOnlyAppends(c, now, o, h);
    var r := Tick(c, now, o, h);
    HaltOnlyAppends(r.tree, r.trace);
    match k
    case ForEach(key, items) =>
      if starting && items != [] {
        var w := WriteItem(key, items[0]);
        TickOnlyAppends(c, now, o, h + [Asked(w, o(h, w))]);
      }
    case Timeout(_) => HaltOnlyAppends(c, h);
    case _ =>
  }

  lemma {:induction false} WalkFromOnlyAppends(i: nat, cs: seq<Tree>, go: Status, now: real, o: Oracle, h: Trace)
    requires go == SUCCESS || go == FAILURE
    ensures h <= WalkFrom(i, cs, go, now, o, h).trace
    decreases cs, 1
  {
    if i < |cs| { WalkListOnlyAppends(cs[i..], go, now, o, h); }
  }

  lemma {:induction false} WalkListOnlyAppends(cs: seq<Tree>, go: Status, now: real, o: Oracle, h: Trace)
    requires go == SUCCESS || go == FAILURE
    ensures h <= WalkList(cs, go, now, o, h).trace
    decreases cs, 0
  {
    if cs != [] {
      TickOnlyAppends(cs[0], now, o, h);
      var r := Tick(cs[0], now, o, h);
      HaltAllOnlyAppends(cs[1..], r.trace);
      WalkListOnlyAppends(cs[1..], go, now, o, r.trace);
    }
  }

  lemma {:induction false} PollAllOnlyAppends(cs: seq<Tree>, now: real, o: Oracle, h: Trace)
    ensures h <= PollAll(cs, now, o, h).trace
    decreases cs, 0
  {
    if cs != [] {
      TickOnlyAppends(cs[0], now, o, h);
      PollAllOnlyAppends(cs[1..], now, o, Tick(cs[0], now, o, h).trace);
    }
  }
}
