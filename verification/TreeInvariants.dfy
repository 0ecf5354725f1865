/** What every tick and halt keep: no orphaned RUNNING node. */
module TreeInvariants {
  import opened Wrappers
  import opened BehaviorTree

  // ---------------------------------------------------------------- resting statuses

  /** Every status in the tree is IDLE or RUNNING, with no relation between nodes. */
  ghost predicate AllResting(t: Tree)
    decreases t
  {
    && IsResting(t.status)
    && match t
       case Leaf(_, _, _) => true
       case Control(_, _, _, cs) => forall i | 0 <= i < |cs| :: AllResting(cs[i])
       case Decorator(_, _, _, _, _, c) => AllResting(c)
  }

  lemma {:induction false} SoundIsResting(t: Tree)
    requires Sound(t)
    ensures AllResting(t)
    decreases t
  {
    match t
    case Leaf(_, _, _) =>
    case Control(_, _, _, cs) => forall i | 0 <= i < |cs| ensures AllResting(cs[i]) { SoundIsResting(cs[i]); }
    case Decorator(_, _, _, _, _, c) => SoundIsResting(c);
  }

  lemma {:induction false} IdleIsSound(t: Tree)
    requires AllIdle(t)
    ensures Sound(t)
    decreases t
  {
    match t
    case Leaf(_, _, _) =>
    case Control(_, _, _, cs) => forall i | 0 <= i < |cs| ensures Sound(cs[i]) { IdleIsSound(cs[i]); }
    case Decorator(_, _, _, _, _, c) => IdleIsSound(c);
  }

  lemma {:induction false} IdleRootIsAllIdle(t: Tree)
    requires Sound(t) && t.status == IDLE
    ensures AllIdle(t)
  {
    match t
    case Leaf(_, _, _) =>
    case Control(_, _, _, _) =>
    case Decorator(_, _, _, _, _, _) =>
  }

  /** A newly built tree satisfies the invariant. */
  lemma {:induction false} BuiltIsIdle(t: Tree)
    ensures AllIdle(Built(t))
    decreases t
  {
    match t
    case Leaf(_, _, _) =>
    case Control(_, _, _, cs) => BuiltAllIsIdle(cs);
    case Decorator(_, _, _, _, _, c) => BuiltIsIdle(c);
  }

  lemma {:induction false} BuiltAllIsIdle(cs: seq<Tree>)
    ensures forall i | 0 <= i < |cs| :: AllIdle(BuiltAll(cs)[i])
    decreases cs
  {
    if cs != [] {
      BuiltIsIdle(cs[0]);
      BuiltAllIsIdle(cs[1..]);
    }
  }

  // ---------------------------------------------------------------- halt

  /** Halting reaches every node, whatever statuses it finds. */
  lemma {:induction false} HaltIdles(t: Tree, h: Trace)
    requires AllResting(t)
    ensures AllIdle(Halt(t, h).tree)
    decreases t
  {
    match t
    case Leaf(_, _, _) =>
    case Control(_, _, _, cs) => HaltAllIdles(cs, h);
    case Decorator(_, _, _, _, _, c) => HaltIdles(c, h);
  }

  lemma {:induction false} HaltAllIdles(cs: seq<Tree>, h: Trace)
    requires forall i | 0 <= i < |cs| :: AllResting(cs[i])
    ensures forall i | 0 <= i < |cs| :: AllIdle(HaltAll(cs, h).trees[i])
    decreases cs
  {
    if cs != [] {
      HaltIdles(cs[0], h);
      HaltAllIdles(cs[1..], Halt(cs[0], h).trace);
    }
  }

  /** Halting an idle tree changes nothing and calls nobody. */
  lemma {:induction false} HaltIdleIsNoop(t: Tree, h: Trace)
    requires AllIdle(t)
    ensures Halt(t, h) == HaltStep(t, h)
    decreases t
  {
    match t
    case Leaf(_, _, _) =>
    case Control(_, _, _, cs) => HaltAllIdleIsNoop(cs, h);
    case Decorator(_, _, _, _, _, c) => HaltIdleIsNoop(c, h);
  }

  lemma {:induction false} HaltAllIdleIsNoop(cs: seq<Tree>, h: Trace)
    requires forall i | 0 <= i < |cs| :: AllIdle(cs[i])
    ensures HaltAll(cs, h) == HaltWalk(cs, h)
    decreases cs
  {
    if cs != [] {
      HaltIdleIsNoop(cs[0], h);
      HaltAllIdleIsNoop(cs[1..], h);
    }
  }

  lemma {:induction false} HaltRunningIdles(cs: seq<Tree>, h: Trace)
    requires forall i | 0 <= i < |cs| :: Sound(cs[i])
    ensures forall i | 0 <= i < |cs| :: AllIdle(HaltRunning(cs, h).trees[i])
    decreases cs
  {
    if cs != [] {
      if cs[0].status == RUNNING {
        SoundIsResting(cs[0]);
        HaltIdles(cs[0], h);
        HaltRunningIdles(cs[1..], Halt(cs[0], h).trace);
      } else {
        IdleRootIsAllIdle(cs[0]);
        HaltRunningIdles(cs[1..], h);
      }
    }
  }

  // ---------------------------------------------------------------- tick keeps the invariant

  ghost predicate GoodStep(s: Step) {
    && s.status != IDLE
    && Sound(s.tree)
    && s.tree.status == Rest(s.status)
  }

  lemma {:induction false} TickKeepsSound(t: Tree, now: real, o: Oracle, h: Trace)
    requires Sound(t)
    ensures GoodStep(Tick(t, now, o, h))
    decreases t, 0
  {
    match t
    case Leaf(_, _, _) =>
    case Control(k, st, idx, cs) => RunControlKeepsSound(k, st, idx, cs, now, o, h);
    case Decorator(k, st, n, start, _, c) => RunDecoratorKeepsSound(k, st, n, start, c, now, o, h);
  }

  /** How a walk leaves its children. */
  ghost predicate GoodWalk(r: Walk) {
    && r.status != IDLE
    && (forall i | 0 <= i < |r.trees| :: Sound(r.trees[i]))
    && (r.status != RUNNING ==> forall i | 0 <= i < |r.trees| :: AllIdle(r.trees[i]))
  }

  /** A memory walk leaves exactly the remembered child RUNNING. */
  ghost predicate GoodMemoryWalk(r: Walk) {
    && GoodWalk(r)
    && (r.status == RUNNING ==>
          && r.done < |r.trees|
          && r.trees[r.done].status == RUNNING
          && forall i | 0 <= i < |r.trees| && i != r.done :: AllIdle(r.trees[i]))
  }

  lemma {:induction false} RunControlKeepsSound(k: ControlKind, st: Status, idx: nat, cs: seq<Tree>,
                                                now: real, o: Oracle, h: Trace)
    requires Sound(Control(k, st, idx, cs))
    ensures var r := RunControl(k, if st == IDLE then 0 else idx, cs, now, o, h);
            GoodWalk(r) && (HasMemory(k) ==> GoodMemoryWalk(r))
    decreases cs, 2
  {
    var i := if st == IDLE then 0 else idx;
    assert forall j | 0 <= j < |cs| :: Sound(Control(k, st, idx, cs).children[j]);
    match k
    case Sequence(_) => WalkFromKeepsSound(i, cs, SUCCESS, now, o, h);
    case Fallback(_) => WalkFromKeepsSound(i, cs, FAILURE, now, o, h);
    case Premise => WalkListKeepsSound(cs, SUCCESS, now, o, h);
    case Parallel(_) =>
      PollAllKeepsSound(cs, now, o, h);
      var p := PollAll(cs, now, o, h);
      HaltRunningIdles(p.trees, p.trace);
      IdleListIsSound(HaltRunning(p.trees, p.trace).trees);
  }

  lemma IdleListIsSound(cs: seq<Tree>)
    ensures forall i | 0 <= i < |cs| && AllIdle(cs[i]) :: Sound(cs[i])
  {
    forall i | 0 <= i < |cs| && AllIdle(cs[i]) ensures Sound(cs[i]) { IdleIsSound(cs[i]); }
  }

  lemma {:induction false} WalkFromKeepsSound(i: nat, cs: seq<Tree>, go: Status, now: real, o: Oracle, h: Trace)
    requires go == SUCCESS || go == FAILURE
    requires forall j | 0 <= j < |cs| :: Sound(cs[j])
    requires forall j | 0 <= j < |cs| && j != i :: AllIdle(cs[j])
    requires i == 0 || i < |cs|
    ensures GoodMemoryWalk(WalkFrom(i, cs, go, now, o, h))
    decreases cs, 1
  {
    hide WalkList;
    if i < |cs| {
      WalkListKeepsSound(cs[i..], go, now, o, h);
      var r := WalkList(cs[i..], go, now, o, h);
      var f := WalkFrom(i, cs, go, now, o, h);
      assert forall j | 0 <= j < i :: f.trees[j] == cs[j];
      assert forall j | i <= j < |cs| :: f.trees[j] == r.trees[j - i];
    }
  }

  lemma {:induction false} WalkListKeepsSound(cs: seq<Tree>, go: Status, now: real, o: Oracle, h: Trace)
    requires go == SUCCESS || go == FAILURE
    requires forall i | 0 <= i < |cs| :: Sound(cs[i])
    ensures GoodWalk(WalkList(cs, go, now, o, h))
    ensures (forall i | 1 <= i < |cs| :: AllIdle(cs[i])) ==> GoodMemoryWalk(WalkList(cs, go, now, o, h))
    decreases cs, 0
  {
    hide Tick, HaltAll;
    if cs != [] {
      TickKeepsSound(cs[0], now, o, h);
      var r := Tick(cs[0], now, o, h);
      if r.status == RUNNING {
      } else if r.status == Opposite(go) {
        IdleRootIsAllIdle(r.tree);
        forall i | 0 <= i < |cs[1..]| ensures AllResting(cs[1..][i]) { SoundIsResting(cs[1..][i]); }
        HaltAllIdles(cs[1..], r.trace);
        IdleListIsSound(HaltAll(cs[1..], r.trace).trees);
      } else {
        IdleRootIsAllIdle(r.tree);
        WalkListKeepsSound(cs[1..], go, now, o, r.trace);
      }
    }
  }

  lemma {:induction false} PollAllKeepsSound(cs: seq<Tree>, now: real, o: Oracle, h: Trace)
    requires forall i | 0 <= i < |cs| :: Sound(cs[i])
    ensures forall i | 0 <= i < |cs| :: Sound(PollAll(cs, now, o, h).trees[i])
    decreases cs, 0
  {
    if cs != [] {
      TickKeepsSound(cs[0], now, o, h);
      PollAllKeepsSound(cs[1..], now, o, Tick(cs[0], now, o, h).trace);
    }
  }

  ghost predicate GoodPass(k: DecoratorKind, p: Pass) {
    && p.status != IDLE
    && Sound(p.child)
    && (p.status != RUNNING ==> AllIdle(p.child))
    && (p.status == RUNNING && k.Timeout? ==> p.startTime.Some?)
    && (p.status == RUNNING && k.ForEach? ==> p.count < |k.items|)
  }

  lemma {:induction false} RunDecoratorKeepsSound(k: DecoratorKind, st: Status, n: nat, start: Option<real>, c: Tree,
                                                  now: real, o: Oracle, h: Trace)
    requires IsResting(st) && Sound(c)
    requires st == IDLE ==> AllIdle(c)
    requires st == RUNNING && k.Timeout? ==> start.Some?
    requires st == RUNNING && k.ForEach? ==> n < |k.items|
    ensures GoodPass(k, RunDecorator(k, st == IDLE, n, start, c, now, o, h))
    decreases c, 3
  {
    hide Tick;
    TickKeepsSound(c, now, o, h);
    ChildAfterTick(c, now, o, h);
    match k
    case Inverter =>
    case ForceSuccess =>
    case Repeat(_) => CountPassKeepsSound(k, SUCCESS, k.times, if st == IDLE then 0 else n, start, c, now, o, h);
    case Retry(_) => CountPassKeepsSound(k, FAILURE, k.attempts, if st == IDLE then 0 else n, start, c, now, o, h);
    case ForEach(key, items) =>
      if st == IDLE && items != [] {
        var w := WriteItem(key, items[0]);
        ItemPassKeepsSound(k, 0, start, c, now, o, h + [Asked(w, o(h, w))]);
      } else if st == RUNNING {
        ItemPassKeepsSound(k, n, start, c, now, o, h);
      }
    case RepeatUntil(_) =>
    case Timeout(_) =>
      SoundIsResting(c);
      HaltIdles(c, h);
      IdleIsSound(Halt(c, h).tree);
  }

  lemma {:induction false} ChildAfterTick(c: Tree, now: real, o: Oracle, h: Trace)
    requires Sound(c)
    ensures var r := Tick(c, now, o, h); GoodStep(r) && (r.status != RUNNING ==> AllIdle(r.tree))
    decreases c, 1
  {
    TickKeepsSound(c, now, o, h);
    var r := Tick(c, now, o, h);
    if r.status != RUNNING { IdleRootIsAllIdle(r.tree); }
  }

  lemma {:induction false} CountPassKeepsSound(k: DecoratorKind, counted: Status, limit: int, n: nat,
                                               start: Option<real>, c: Tree, now: real, o: Oracle, h: Trace)
    requires counted == SUCCESS || counted == FAILURE
    requires k.Repeat? || k.Retry?
    requires Sound(c)
    ensures GoodPass(k, CountPass(counted, limit, n, start, c, now, o, h))
    decreases c, 2
  {
    ChildAfterTick(c, now, o, h);
    var r := Tick(c, now, o, h);
    if r.status == counted {
      HaltIdleIsNoop(r.tree, r.trace);
    }
  }

  lemma {:induction false} ItemPassKeepsSound(k: DecoratorKind, n: nat, start: Option<real>, c: Tree,
                                              now: real, o: Oracle, h: Trace)
    requires k.ForEach? && n < |k.items|
    requires Sound(c)
    ensures GoodPass(k, ItemPass(k.key, k.items, n, start, c, now, o, h))
    decreases c, 2
  {
    ChildAfterTick(c, now, o, h);
  }

  /** Halting a tree between ticks leaves every node IDLE. */
  lemma {:induction false} HaltKeepsSound(t: Tree, h: Trace)
    requires Sound(t)
    ensures AllIdle(Halt(t, h).tree) && Sound(Halt(t, h).tree)
  {
    SoundIsResting(t);
    HaltIdles(t, h);
    IdleIsSound(Halt(t, h).tree);
  }

  /**
    No orphaned RUNNING node: from construction on, after any sequence of ticks and halts,
    every node rests in IDLE or RUNNING and an IDLE node has no RUNNING descendant.
  */
  lemma {:induction false} NoOrphans(t: Tree, ops: seq<Op>, o: Oracle, h: Trace)
    requires Sound(t)
    ensures Sound(RunOps(t, ops, o, h).tree)
    decreases |ops|
  {
    if ops != [] {
      match ops[0]
      case DoTick(now) =>
        TickKeepsSound(t, now, o, h);
        var r := Tick(t, now, o, h);
        NoOrphans(r.tree, ops[1..], o, r.trace);
      case DoHalt =>
        HaltKeepsSound(t, h);
        var r := Halt(t, h);
        NoOrphans(r.tree, ops[1..], o, r.trace);
    }
  }
}
