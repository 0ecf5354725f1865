/**
  What a ForEach node puts on the blackboard over a whole un-halted run, told apart from whatever
  its child does there: the child must not contain a ForEach over the same key.
*/
module ForEachWrites {
  import opened Wrappers
  import opened BehaviorTree
  import opened TreeInvariants
  import opened DecoratorRuns

  /** The items written under a key, oldest first; a write that raised wrote nothing. */
  function Written(h: Trace, key: string): seq<int> {
    if h == [] then []
    else
      var e := h[|h| - 1];
      Written(h[..|h| - 1], key)
      + (if e.Asked? && e.query.WriteItem? && e.query.key == key && e.reply != Raise then [e.query.item] else [])
  }

  lemma WrittenSnoc(h: Trace, e: Event, key: string)
    ensures Written(h + [e], key) ==
            Written(h, key)
            + (if e.Asked? && e.query.WriteItem? && e.query.key == key && e.reply != Raise then [e.query.item] else [])
  {
    assert (h + [e])[..|h|] == h;
  }

  /** No ForEach over the key anywhere in the tree. */
  ghost predicate Silent(t: Tree, key: string)
    decreases t
  {
    match t
    case Leaf(_, _, _) => true
    case Control(_, _, _, cs) => forall i | 0 <= i < |cs| :: Silent(cs[i], key)
    case Decorator(k, _, _, _, _, c) => !(k.ForEach? && k.key == key) && Silent(c, key)
  }

  ghost predicate AllSilent(cs: seq<Tree>, key: string) {
    forall i | 0 <= i < |cs| :: Silent(cs[i], key)
  }

  ghost predicate SameWritten(h: Trace, h': Trace, key: string) {
    Written(h', key) == Written(h, key)
  }

  lemma {:induction false} HaltSilent(t: Tree, h: Trace, key: string)
    requires Silent(t, key)
    ensures var r := Halt(t, h); Silent(r.tree, key) && SameWritten(h, r.trace, key)
    decreases t
  {
    match t
    case Leaf(id, _, _) => WrittenSnoc(h, Halted(id), key);
    case Control(_, _, _, cs) => HaltAllSilent(cs, h, key);
    case Decorator(_, _, _, _, _, c) => HaltSilent(c, h, key);
  }

  lemma {:induction false} HaltAllSilent(cs: seq<Tree>, h: Trace, key: string)
    requires AllSilent(cs, key)
    ensures var r := HaltAll(cs, h); AllSilent(r.trees, key) && SameWritten(h, r.trace, key)
    decreases cs
  {
    if cs != [] {
      HaltSilent(cs[0], h, key);
      HaltAllSilent(cs[1..], Halt(cs[0], h).trace, key);
    }
  }

  lemma {:induction false} HaltRunningSilent(cs: seq<Tree>, h: Trace, key: string)
    requires AllSilent(cs, key)
    ensures var r := HaltRunning(cs, h); AllSilent(r.trees, key) && SameWritten(h, r.trace, key)
    decreases cs
  {
    if cs != [] {
      HaltSilent(cs[0], h, key);
      HaltRunningSilent(cs[1..], if cs[0].status == RUNNING then Halt(cs[0], h).trace else h, key);
    }
  }

  /** A tree without a ForEach over the key writes nothing under it. */
  lemma {:induction false} TickSilent(t: Tree, now: real, o: Oracle, h: Trace, key: string)
    requires Silent(t, key)
    ensures var s := Tick(t, now, o, h); Silent(s.tree, key) && SameWritten(h, s.trace, key)
    decreases t, 0
  {
    match t
    case Leaf(id, st, _) =>
      var q := if st == IDLE then Start(id) else Continue(id);
      WrittenSnoc(h, Asked(q, o(h, q)), key);
    case Control(k, st, idx, cs) =>
      assert AllSilent(cs, key);
      RunControlSilent(k, if st == IDLE then 0 else idx, cs, now, o, h, key);
    case Decorator(k, st, n, start, _, c) =>
      RunDecoratorSilent(k, st == IDLE, n, start, c, now, o, h, key);
  }

  lemma {:induction false} RunControlSilent(k: ControlKind, i: nat, cs: seq<Tree>, now: real, o: Oracle, h: Trace,
          key: string)
    requires AllSilent(cs, key)
    ensures var r := RunControl(k, i, cs, now, o, h); AllSilent(r.trees, key) && SameWritten(h, r.trace, key)
    decreases cs, 3
  {
    match k
    case Sequence(_) => WalkFromSilent(i, cs, SUCCESS, now, o, h, key);
    case Fallback(_) => WalkFromSilent(i, cs, FAILURE, now, o, h, key);
    case Premise => WalkListSilent(cs, SUCCESS, now, o, h, key);
    case Parallel(_) =>
      PollAllSilent(cs, now, o, h, key);
      var p := PollAll(cs, now, o, h);
      HaltRunningSilent(p.trees, p.trace, key);
  }

  lemma {:induction false} WalkFromSilent(i: nat, cs: seq<Tree>, go: Status, now: real, o: Oracle, h: Trace,
          key: string)
    requires (go == SUCCESS || go == FAILURE) && AllSilent(cs, key)
    ensures var r := WalkFrom(i, cs, go, now, o, h); AllSilent(r.trees, key) && SameWritten(h, r.trace, key)
    decreases cs, 1
  {
    if i < |cs| { WalkListSilent(cs[i..], go, now, o, h, key); }
  }

  lemma {:induction false} WalkListSilent(cs: seq<Tree>, go: Status, now: real, o: Oracle, h: Trace, key: string)
    requires (go == SUCCESS || go == FAILURE) && AllSilent(cs, key)
    ensures var r := WalkList(cs, go, now, o, h); AllSilent(r.trees, key) && SameWritten(h, r.trace, key)
    decreases cs, 0
  {
    if cs != [] {
      TickSilent(cs[0], now, o, h, key);
      var s := Tick(cs[0], now, o, h);
      if s.status == Opposite(go) {
        HaltAllSilent(cs[1..], s.trace, key);
      } else if s.status != RUNNING {
        WalkListSilent(cs[1..], go, now, o, s.trace, key);
      }
    }
  }

  lemma {:induction false} PollAllSilent(cs: seq<Tree>, now: real, o: Oracle, h: Trace, key: string)
    requires AllSilent(cs, key)
    ensures var p := PollAll(cs, now, o, h); AllSilent(p.trees, key) && SameWritten(h, p.trace, key)
    decreases cs, 0
  {
    if cs != [] {
      TickSilent(cs[0], now, o, h, key);
      PollAllSilent(cs[1..], now, o, Tick(cs[0], now, o, h).trace, key);
    }
  }

  lemma {:induction false} RunDecoratorSilent(k: DecoratorKind, starting: bool, n: nat, start: Option<real>, c: Tree,
                                              now: real, o: Oracle, h: Trace, key: string)
    requires !(k.ForEach? && k.key == key) && Silent(c, key)
    ensures var p := RunDecorator(k, starting, n, start, c, now, o, h);
            Silent(p.child, key) && SameWritten(h, p.trace, key)
    decreases c, 3
  {
    match k
    case Repeat(times) => CountPassSilent(SUCCESS, times, if starting then 0 else n, start, c, now, o, h, key);
    case Retry(attempts) => CountPassSilent(FAILURE, attempts, if starting then 0 else n, start, c, now, o, h, key);
    case ForEach(other, items) => OtherForEachSilent(other, items, starting, n, start, c, now, o, h, key);
    case RepeatUntil(cond) => UntilSilent(cond, starting, n, start, c, now, o, h, key);
    case Timeout(_) =>
      TickSilent(c, now, o, h, key);
      HaltSilent(c, h, key);
    case _ => TickSilent(c, now, o, h, key);
  }

  lemma {:induction false} UntilSilent(cond: nat, starting: bool, n: nat, start: Option<real>, c: Tree,
                                       now: real, o: Oracle, h: Trace, key: string)
    requires Silent(c, key)
    ensures var p := RunDecorator(RepeatUntil(cond), starting, n, start, c, now, o, h);
            Silent(p.child, key) && SameWritten(h, p.trace, key)
    decreases c, 2
  {
    TickSilent(c, now, o, h, key);
    var s := Tick(c, now, o, h);
    WrittenSnoc(s.trace, Asked(TestExit(cond), o(s.trace, TestExit(cond))), key);
  }

  lemma {:induction false} CountPassSilent(counted: Status, limit: int, n: nat, start: Option<real>, c: Tree,
                                           now: real, o: Oracle, h: Trace, key: string)
    requires Silent(c, key)
    ensures var p := CountPass(counted, limit, n, start, c, now, o, h);
            Silent(p.child, key) && SameWritten(h, p.trace, key)
    decreases c, 1
  {
    TickSilent(c, now, o, h, key);
    var s := Tick(c, now, o, h);
    HaltSilent(s.tree, s.trace, key);
    CountPassIs(counted, limit, n, start, c, now, o, h);
  }

  lemma {:induction false} OtherForEachSilent(other: string, items: seq<int>, starting: bool, n: nat,
          start: Option<real>, c: Tree, now: real, o: Oracle, h: Trace, key: string)
    requires other != key && Silent(c, key)
    ensures var p := RunDecorator(ForEach(other, items), starting, n, start, c, now, o, h);
            Silent(p.child, key) && SameWritten(h, p.trace, key)
    decreases c, 2
  {
    if !starting {
      OtherItemSilent(other, items, n, start, c, now, o, h, key);
    } else if items != [] {
      var e := Asked(WriteItem(other, items[0]), o(h, WriteItem(other, items[0])));
      WrittenSnoc(h, e, key);
      OtherItemSilent(other, items, 0, start, c, now, o, h + [e], key);
    }
  }

  lemma {:induction false} OtherItemSilent(other: string, items: seq<int>, n: nat, start: Option<real>, c: Tree,
                                           now: real, o: Oracle, h: Trace, key: string)
    requires other != key && Silent(c, key)
    ensures var p := ItemPass(other, items, n, start, c, now, o, h);
            Silent(p.child, key) && SameWritten(h, p.trace, key)
    decreases c, 1
  {
    TickSilent(c, now, o, h, key);
    var s := Tick(c, now, o, h);
    if s.status != FAILURE && s.status != RUNNING && n + 1 < |items| {
      var e := Asked(WriteItem(other, items[n + 1]), o(s.trace, WriteItem(other, items[n + 1])));
      WrittenSnoc(s.trace, e, key);
      assert ItemPass(other, items, n, start, c, now, o, h).trace == s.trace + [e];
    }
  }

  // ---------------------------------------------------------------- the node's own writes

  /** From h to h' exactly the items [first, end) were written, in order. */
  ghost predicate Wrote(key: string, items: seq<int>, first: nat, end: nat, h: Trace, h': Trace) {
    first <= end <= |items| && Written(h', key) == Written(h, key) + items[first..end]
  }

  /** A starting ForEach writes from item 0 on; one that is at item n has written that already. */
  function First(st: Status, n: nat): nat {
    if st == IDLE then 0 else n + 1
  }

  lemma WroteMore(key: string, items: seq<int>, first: nat, end: nat, h: Trace, h': Trace, o: Oracle)
    requires Wrote(key, items, first, end, h, h') && end < |items|
    ensures var w := WriteItem(key, items[end]);
            Wrote(key, items, first, if o(h', w) == Raise then end else end + 1, h, h' + [Asked(w, o(h', w))])
  {
    var w := WriteItem(key, items[end]);
    WrittenSnoc(h', Asked(w, o(h', w)), key);
    assert items[first..end + 1] == items[first..end] + [items[end]];
  }

  lemma WroteOn(key: string, items: seq<int>, first: nat, mid: nat, end: nat, h: Trace, h': Trace, h'': Trace)
    requires Wrote(key, items, first, mid, h, h') && Wrote(key, items, mid, end, h', h'')
    ensures Wrote(key, items, first, end, h, h'')
  {
    assert items[first..mid] + items[mid..end] == items[first..end];
  }

  /** The pass of the child in one tick, with the item written before it if the node is starting. */
  lemma WrittenByPass(key: string, items: seq<int>, st: Status, n: nat, c: Tree, now: real, o: Oracle, h: Trace)
    requires Silent(c, key) && n < |items| && (st == IDLE ==> n == 0 && o(h, WriteItem(key, items[0])) != Raise)
    ensures var h1 := if st == IDLE then h + [Asked(WriteItem(key, items[0]), o(h, WriteItem(key, items[0])))] else h;
            && Wrote(key, items, First(st, n), n + 1, h, Tick(c, now, o, h1).trace)
            && Silent(Tick(c, now, o, h1).tree, key)
  {
    var w := WriteItem(key, items[0]);
    var h1 := if st == IDLE then h + [Asked(w, o(h, w))] else h;
    TickSilent(c, now, o, h1, key);
    if st == IDLE {
      assert Written(h, key) + items[0..0] == Written(h, key);
      WroteMore(key, items, 0, 0, h, h, o);
    } else {
      assert Written(h, key) + items[n + 1..n + 1] == Written(h, key);
    }
  }

  lemma FirstWriteRaises(key: string, items: seq<int>, c: Tree, now: real, o: Oracle, h: Trace)
    requires items != [] && o(h, WriteItem(key, items[0])) == Raise
    ensures var s := Tick(Decorator(ForEach(key, items), IDLE, 0, None, false, c), now, o, h);
            s.status == FAILURE && Wrote(key, items, 0, 0, h, s.trace)
  {
    var w := WriteItem(key, items[0]);
    assert RunDecorator(ForEach(key, items), true, 0, None, c, now, o, h) ==
        Pass(c, 0, None, FAILURE, true, h + [Asked(w, Raise)]);
    assert Written(h, key) + items[0..0] == Written(h, key);
    WroteMore(key, items, 0, 0, h, h, o);
  }

  /** How far the writing has come after a tick whose child pass left the given state. */
  function EndAfter(key: string, items: seq<int>, n: nat, pass: Step, o: Oracle): nat {
    if pass.status == SUCCESS && n + 1 < |items| && o(pass.trace, WriteItem(key, items[n + 1])) != Raise then n + 2
    else n + 1
  }

  lemma WrittenAfterPass(key: string, items: seq<int>, first: nat, n: nat, h: Trace, pass: Step, o: Oracle)
    requires n < |items| && Wrote(key, items, first, n + 1, h, pass.trace)
    ensures n + 1 < |items| && pass.status == SUCCESS ==>
              var w := WriteItem(key, items[n + 1]);
              Wrote(key, items, first, EndAfter(key, items, n, pass, o), h, pass.trace + [Asked(w, o(pass.trace, w))])
    ensures n + 1 == |items| || pass.status != SUCCESS ==> EndAfter(key, items, n, pass, o) == n + 1
  {
    if n + 1 < |items| { WroteMore(key, items, first, n + 1, h, pass.trace, o); }
  }

  /** One tick: the write at the start, the child's silence, and the write that moves on. */
  lemma WritesOfOneTick(key: string, items: seq<int>, st: Status, n: nat, c: Tree, now: real, o: Oracle, h: Trace)
      returns (end: nat, child: Tree)
    requires Sound(c) && Silent(c, key) && IsResting(st) && n < |items| && (st == IDLE ==> n == 0)
    ensures var s := Tick(Decorator(ForEach(key, items), st, n, None, false, c), now, o, h);
            && Wrote(key, items, First(st, n), end, h, s.trace)
            && (s.status == SUCCESS ==> end == |items|)
            && (s.status == RUNNING ==>
                  0 < end && s.tree == Decorator(ForEach(key, items), RUNNING, end - 1, None, false, child)
                  && Sound(child) && Silent(child, key))
  {
    if st == IDLE && o(h, WriteItem(key, items[0])) == Raise {
      FirstWriteRaises(key, items, c, now, o, h);
      end, child := 0, c;
    } else {
      end, child := WritesOfPass(key, items, st, n, c, now, o, h);
    }
  }

  lemma WritesOfPass(key: string, items: seq<int>, st: Status, n: nat, c: Tree, now: real, o: Oracle, h: Trace)
      returns (end: nat, child: Tree)
    requires Sound(c) && Silent(c, key) && IsResting(st) && n < |items| && (st == IDLE ==> n == 0)
    requires st == IDLE ==> o(h, WriteItem(key, items[0])) != Raise
    ensures var s := Tick(Decorator(ForEach(key, items), st, n, None, false, c), now, o, h);
            && Wrote(key, items, First(st, n), end, h, s.trace)
            && (s.status == SUCCESS ==> end == |items|)
            && (s.status == RUNNING ==>
                  0 < end && s.tree == Decorator(ForEach(key, items), RUNNING, end - 1, None, false, child)
                  && Sound(child) && Silent(child, key))
  {
    hide Tick;
    var w := WriteItem(key, items[0]);
    var h1 := if st == IDLE then h + [Asked(w, o(h, w))] else h;
    var pass := Tick(c, now, o, h1);
    child := pass.tree;
    ForEachTick(key, items, st, n, c, now, o, h);
    WrittenByPass(key, items, st, n, c, now, o, h);
    ChildAfterTick(c, now, o, h1);
    if pass.status == SUCCESS && n + 1 < |items| {
      WrittenAfterPass(key, items, First(st, n), n, h, pass, o);
      end := EndAfter(key, items, n, pass, o);
    } else {
      end := n + 1;
    }
  }

  /**
    Over an un-halted run a ForEach writes its items in order, one after the other from the first,
    and by the time it succeeds it has written them all, each once.
  */
  lemma {:induction false} ForEachWritesInOrder(key: string, items: seq<int>, st: Status, n: nat, c: Tree,
                                                times: seq<real>, o: Oracle, h: Trace)
      returns (end: nat)
    requires Sound(c) && Silent(c, key) && IsResting(st) && n < |items| && (st == IDLE ==> n == 0) && times != []
    requires OpenUntilLast(RunOps(Decorator(ForEach(key, items), st, n, None, false, c), TicksAt(times), o, h).statuses)
    ensures var r := RunOps(Decorator(ForEach(key, items), st, n, None, false, c), TicksAt(times), o, h);
            && Wrote(key, items, First(st, n), end, h, r.trace) && |r.statuses| == |times|
            && (r.statuses[|times| - 1] == SUCCESS ==> end == |items|)
    decreases |times|
  {
    hide Tick;
    var t := Decorator(ForEach(key, items), st, n, None, false, c);
    var s := Tick(t, times[0], o, h);
    RunOpsCons(t, times, o, h);
    var child;
    end, child := WritesOfOneTick(key, items, st, n, c, times[0], o, h);
    if |times| == 1 {
      NoMoreTicks(s.tree, o, s.trace);
      assert times[1..] == [];
    } else {
      var mid, more := end, RunOps(s.tree, TicksAt(times[1..]), o, s.trace);
      OpenTail(s.status, more.statuses);
      end := ForEachWritesInOrder(key, items, RUNNING, mid - 1, child, times[1..], o, s.trace);
      WroteOn(key, items, First(st, n), mid, end, h, s.trace, more.trace);
    }
  }
}
