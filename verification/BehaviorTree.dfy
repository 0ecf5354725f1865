/** The tick semantics of a behaviour tree, as functions on tree values. */
module BehaviorTree {
  import opened Wrappers

  // A leaf is an oracle: what it answers may depend on everything that happened before, so the
  // oracle is a function of the whole trace. The tree value carries exactly the mutable state of
  // the running program: each node's status, the memory index of Sequence and Fallback, the
  // counter of Repeat, Retry and ForEach, the start time of Timeout, and whether the node has
  // ever raised.

  datatype Status = SUCCESS | FAILURE | RUNNING | IDLE

  /** What the kernel asks of the code outside it. */
  datatype Query =
    | Start(leaf: nat)                      // on_start of a leaf
    | Continue(leaf: nat)                   // on_running of a leaf
    | WriteItem(key: string, item: int)     // ForEach writes an item to the blackboard
    | TestExit(cond: nat)                   // RepeatUntil evaluates its predicate

  /** For TestExit, Succeed is true and Fail and Stay are false; for WriteItem only Raise matters. */
  datatype Reply = Succeed | Fail | Stay | Raise

  datatype Event = Asked(query: Query, reply: Reply) | Halted(leaf: nat)

  type Trace = seq<Event>

  type Oracle = (Trace, Query) -> Reply

  datatype ControlKind =
    | Sequence(explicit: bool)
    | Fallback(explicit: bool)
    | Parallel(threshold: int)
    | Premise

  datatype DecoratorKind =
    | Inverter
    | ForceSuccess
    | Repeat(times: int)
    | Retry(attempts: int)
    | ForEach(key: string, items: seq<int>)
    | RepeatUntil(cond: nat)
    | Timeout(seconds: real)

  datatype Tree =
    | Leaf(id: nat, status: Status, raised: bool)
    | Control(control: ControlKind, status: Status, index: nat, children: seq<Tree>)
    | Decorator(decorator: DecoratorKind, status: Status, count: nat, startTime: Option<real>,
                raised: bool, child: Tree)

  datatype Step = Step(tree: Tree, status: Status, trace: Trace)

  /** Result of walking a list of children; `done` counts the children that let the walk go on. */
  datatype Walk = Walk(trees: seq<Tree>, done: nat, status: Status, trace: Trace)

  /** Result of ticking every child of a Parallel. */
  datatype Poll = Poll(trees: seq<Tree>, successes: nat, failures: nat, trace: Trace)

  /** Result of one pass of a decorator over its child. */
  datatype Pass = Pass(child: Tree, count: nat, startTime: Option<real>, status: Status, raised: bool,
                       trace: Trace)

  datatype HaltStep = HaltStep(tree: Tree, trace: Trace)
  datatype HaltWalk = HaltWalk(trees: seq<Tree>, trace: Trace)

  predicate IsResting(s: Status) {
    s == IDLE || s == RUNNING
  }

  /** The status a node keeps after a tick: every terminal status is reset to IDLE. */
  function Rest(s: Status): Status {
    if s == RUNNING then RUNNING else IDLE
  }

  function ReplyStatus(r: Reply): Status {
    match r
    case Succeed => SUCCESS
    case Fail => FAILURE
    case Stay => RUNNING
    case Raise => FAILURE
  }

  function Opposite(s: Status): Status {
    if s == SUCCESS then FAILURE else if s == FAILURE then SUCCESS else s
  }

  // ---------------------------------------------------------------- halt

  function Halt(t: Tree, h: Trace): HaltStep
    decreases t
  {
    match t
    case Leaf(id, st, raised) =>
      if st == RUNNING then HaltStep(Leaf(id, IDLE, raised), h + [Halted(id)]) else HaltStep(t, h)
    case Control(k, st, idx, cs) =>
      var r := HaltAll(cs, h);
      HaltStep(Control(k, if st == RUNNING then IDLE else st, idx, r.trees), r.trace)
    case Decorator(k, st, n, start, raised, c) =>
      var r := Halt(c, h);
      HaltStep(Decorator(k, if st == RUNNING then IDLE else st, n, start, raised, r.tree), r.trace)
  }

  function HaltAll(cs: seq<Tree>, h: Trace): (r: HaltWalk)
    ensures |r.trees| == |cs|
    decreases cs
  {
    if cs == [] then HaltWalk([], h)
    else
      var r := Halt(cs[0], h);
      var rest := HaltAll(cs[1..], r.trace);
      HaltWalk([r.tree] + rest.trees, rest.trace)
  }

  lemma HaltOne(c: Tree, h: Trace)
    ensures HaltAll([c], h) == HaltWalk([Halt(c, h).tree], Halt(c, h).trace)
  {
    assert [c][1..] == [];
    assert HaltAll([], Halt(c, h).trace) == HaltWalk([], Halt(c, h).trace);
  }

  /** Parallel halts only the children whose status is RUNNING. */
  function HaltRunning(cs: seq<Tree>, h: Trace): (r: HaltWalk)
    ensures |r.trees| == |cs|
    decreases cs
  {
    if cs == [] then HaltWalk([], h)
    else
      var r := if cs[0].status == RUNNING then Halt(cs[0], h) else HaltStep(cs[0], h);
      var rest := HaltRunning(cs[1..], r.trace);
      HaltWalk([r.tree] + rest.trees, rest.trace)
  }

  // ---------------------------------------------------------------- tick

  function Tick(t: Tree, now: real, o: Oracle, h: Trace): Step
    decreases t, 0
  {
    match t
    case Leaf(id, st, raised) =>
      if !IsResting(st) then Step(Leaf(id, IDLE, raised), st, h)
      else
        var q := if st == IDLE then Start(id) else Continue(id);
        var reply := o(h, q);
        var s := ReplyStatus(reply);
        Step(Leaf(id, Rest(s), raised || reply == Raise), s, h + [Asked(q, reply)])
    case Control(k, st, idx, cs) =>
      if !IsResting(st) then Step(Control(k, IDLE, 0, cs), st, h)
      else
        var r := RunControl(k, if st == IDLE then 0 else idx, cs, now, o, h);
        Step(Control(k, Rest(r.status), if r.status == RUNNING then r.done else 0, r.trees), r.status, r.trace)
    case Decorator(k, st, n, start, raised, c) =>
      if !IsResting(st) then Step(Decorator(k, IDLE, 0, None, raised, c), st, h)
      else
        var r := RunDecorator(k, st == IDLE, n, start, c, now, o, h);
        Step(Decorator(k, Rest(r.status), if r.status == RUNNING then r.count else 0,
                       if r.status == RUNNING then r.startTime else None, raised || r.raised, r.child),
             r.status, r.trace)
  }

  /**
    One pass over the children; `done` in the result is the new memory index, which Premise and Parallel
    leave alone.
  */
  function RunControl(k: ControlKind, idx: nat, cs: seq<Tree>, now: real, o: Oracle, h: Trace): (r: Walk)
    ensures |r.trees| == |cs|
    decreases cs, 2
  {
    match k
    case Sequence(_) => WalkFrom(idx, cs, SUCCESS, now, o, h)
    case Fallback(_) => WalkFrom(idx, cs, FAILURE, now, o, h)
    case Premise => WalkList(cs, SUCCESS, now, o, h).(done := idx)
    case Parallel(threshold) =>
      var p := PollAll(cs, now, o, h);
      if p.successes >= threshold then
        var r := HaltRunning(p.trees, p.trace);
        Walk(r.trees, idx, SUCCESS, r.trace)
      else if p.failures > |cs| - threshold then
        var r := HaltRunning(p.trees, p.trace);
        Walk(r.trees, idx, FAILURE, r.trace)
      else
        Walk(p.trees, idx, RUNNING, p.trace)
  }

  /** A memory walk resumes at the remembered index. */
  function WalkFrom(idx: nat, cs: seq<Tree>, go: Status, now: real, o: Oracle, h: Trace): (r: Walk)
    requires go == SUCCESS || go == FAILURE
    ensures |r.trees| == |cs|
    decreases cs, 1
  {
    if idx >= |cs| then Walk(cs, 0, go, h)
    else
      var r := WalkList(cs[idx..], go, now, o, h);
      Walk(cs[..idx] + r.trees, idx + r.done, r.status, r.trace)
  }

  /**
    Tick children in order while they return `go`. A RUNNING child stops the walk and leaves the
    children after it alone; a child returning the opposite of `go` stops it and halts them.
  */
  function WalkList(cs: seq<Tree>, go: Status, now: real, o: Oracle, h: Trace): (r: Walk)
    requires go == SUCCESS || go == FAILURE
    ensures |r.trees| == |cs|
    ensures r.status == RUNNING ==> r.done < |cs|
    decreases cs, 0
  {
    if cs == [] then Walk([], 0, go, h)
    else
      var r := Tick(cs[0], now, o, h);
      if r.status == RUNNING then
        Walk([r.tree] + cs[1..], 0, RUNNING, r.trace)
      else if r.status == Opposite(go) then
        var rest := HaltAll(cs[1..], r.trace);
        Walk([r.tree] + rest.trees, 0, r.status, rest.trace)
      else
        var rest := WalkList(cs[1..], go, now, o, r.trace);
        Walk([r.tree] + rest.trees, rest.done + 1, rest.status, rest.trace)
  }

  lemma WalkFromStart(cs: seq<Tree>, go: Status, now: real, o: Oracle, h: Trace)
    requires go == SUCCESS || go == FAILURE
    ensures WalkFrom(0, cs, go, now, o, h) == WalkList(cs, go, now, o, h)
  {
    assert cs[0..] == cs && cs[..0] == [];
  }

  function PollAll(cs: seq<Tree>, now: real, o: Oracle, h: Trace): (r: Poll)
    ensures |r.trees| == |cs|
    decreases cs, 0
  {
    if cs == [] then Poll([], 0, 0, h)
    else
      var r := Tick(cs[0], now, o, h);
      var rest := PollAll(cs[1..], now, o, r.trace);
      Poll([r.tree] + rest.trees,
           rest.successes + (if r.status == SUCCESS then 1 else 0),
           rest.failures + (if r.status == FAILURE then 1 else 0),
           rest.trace)
  }

  function RunDecorator(k: DecoratorKind, starting: bool, n: nat, start: Option<real>, c: Tree,
                        now: real, o: Oracle, h: Trace): Pass
    decreases c, 2
  {
    match k
    case Inverter =>
      var r := Tick(c, now, o, h);
      Pass(r.tree, n, start, Opposite(r.status), false, r.trace)
    case ForceSuccess =>
      var r := Tick(c, now, o, h);
      Pass(r.tree, n, start, if r.status == RUNNING then RUNNING else SUCCESS, false, r.trace)
    case Repeat(times) =>
      CountPass(SUCCESS, times, if starting then 0 else n, start, c, now, o, h)
    case Retry(attempts) =>
      CountPass(FAILURE, attempts, if starting then 0 else n, start, c, now, o, h)
    case ForEach(key, items) =>
      if starting then
        if items == [] then Pass(c, 0, start, SUCCESS, false, h)
        else
          var w := WriteItem(key, items[0]);
          if o(h, w) == Raise then Pass(c, 0, start, FAILURE, true, h + [Asked(w, Raise)])
          else ItemPass(key, items, 0, start, c, now, o, h + [Asked(w, o(h, w))])
      else ItemPass(key, items, n, start, c, now, o, h)
    case RepeatUntil(cond) =>
      var r := Tick(c, now, o, h);
      if r.status == FAILURE || r.status == RUNNING then Pass(r.tree, n, start, r.status, false, r.trace)
      else
        var reply := o(r.trace, TestExit(cond));
        Pass(r.tree, n, start,
             if reply == Raise then FAILURE else if reply == Succeed then SUCCESS else RUNNING,
             reply == Raise, r.trace + [Asked(TestExit(cond), reply)])
    case Timeout(seconds) =>
      var start' := if starting then Some(now) else start;
      if start'.None? then Pass(c, n, start', FAILURE, true, h)
      else if now - start'.value > seconds then
        var r := Halt(c, h);
        Pass(r.tree, n, None, FAILURE, false, r.trace)
      else
        var r := Tick(c, now, o, h);
        Pass(r.tree, n, if r.status == RUNNING then start' else None, r.status, false, r.trace)
  }

  /** Repeat counts child successes, Retry counts child failures. */
  function CountPass(counted: Status, limit: int, n: nat, start: Option<real>, c: Tree,
                     now: real, o: Oracle, h: Trace): Pass
    decreases c, 1
  {
    var r := Tick(c, now, o, h);
    if r.status == Opposite(counted) then Pass(r.tree, 0, start, r.status, false, r.trace)
    else if r.status == RUNNING then Pass(r.tree, n, start, RUNNING, false, r.trace)
    else if n + 1 >= limit then Pass(r.tree, 0, start, counted, false, r.trace)
    else
      var stopped := Halt(r.tree, r.trace);
      Pass(stopped.tree, n + 1, start, RUNNING, false, stopped.trace)
  }

  lemma CountPassIs(counted: Status, limit: int, n: nat, s: Option<real>, c: Tree, now: real, o: Oracle, h: Trace)
    ensures var r := Tick(c, now, o, h);
            CountPass(counted, limit, n, s, c, now, o, h) ==
            if r.status == Opposite(counted) then Pass(r.tree, 0, s, r.status, false, r.trace)
            else if r.status == RUNNING then Pass(r.tree, n, s, RUNNING, false, r.trace)
            else if n + 1 >= limit then Pass(r.tree, 0, s, counted, false, r.trace)
            else Pass(Halt(r.tree, r.trace).tree, n + 1, s, RUNNING, false, Halt(r.tree, r.trace).trace)
  {
  }

  /** ForEach with the current item already on the blackboard. */
  function ItemPass(key: string, items: seq<int>, n: nat, start: Option<real>, c: Tree,
                    now: real, o: Oracle, h: Trace): Pass
    decreases c, 1
  {
    var r := Tick(c, now, o, h);
    if r.status == FAILURE || r.status == RUNNING then Pass(r.tree, n, start, r.status, false, r.trace)
    else if n + 1 >= |items| then Pass(r.tree, n + 1, start, SUCCESS, false, r.trace)
    else
      var w := WriteItem(key, items[n + 1]);
      var reply := o(r.trace, w);
      Pass(r.tree, n + 1, start, if reply == Raise then FAILURE else RUNNING, reply == Raise,
           r.trace + [Asked(w, reply)])
  }

  // ---------------------------------------------------------------- states

  /** Every node of the tree is IDLE. */
  ghost predicate AllIdle(t: Tree)
    decreases t
  {
    && t.status == IDLE
    && match t
       case Leaf(_, _, _) => true
       case Control(_, _, _, cs) => forall i | 0 <= i < |cs| :: AllIdle(cs[i])
       case Decorator(_, _, _, _, _, c) => AllIdle(c)
  }

  predicate HasMemory(k: ControlKind) {
    k.Sequence? || k.Fallback?
  }

  predicate HasCounter(k: DecoratorKind) {
    k.Repeat? || k.Retry? || k.ForEach?
  }

  /**
    The invariant of a tree between ticks: every node rests in IDLE or RUNNING, an IDLE node has
    no RUNNING descendant, and a RUNNING Sequence or Fallback has exactly its remembered child
    RUNNING.
  */
  ghost predicate Sound(t: Tree)
    decreases t
  {
    && IsResting(t.status)
    && match t
       case Leaf(_, _, _) => true
       case Control(k, st, idx, cs) =>
         && (forall i | 0 <= i < |cs| :: Sound(cs[i]))
         && (st == IDLE ==> forall i | 0 <= i < |cs| :: AllIdle(cs[i]))
         && (st == RUNNING && HasMemory(k) ==>
               && idx < |cs|
               && cs[idx].status == RUNNING
               && forall i | 0 <= i < |cs| && i != idx :: AllIdle(cs[i]))
       case Decorator(k, st, n, start, _, c) =>
         && Sound(c)
         && (st == IDLE ==> AllIdle(c))
         && (st == RUNNING && k.Timeout? ==> start.Some?)
         && (st == RUNNING && k.ForEach? ==> n < |k.items|)
  }

  /** The tree as its constructors leave it. */
  function Built(t: Tree): Tree
    decreases t
  {
    match t
    case Leaf(id, _, _) => Leaf(id, IDLE, false)
    case Control(k, _, _, cs) => Control(k, IDLE, 0, BuiltAll(cs))
    case Decorator(k, _, _, _, _, c) => Decorator(k, IDLE, 0, None, false, Built(c))
  }

  function BuiltAll(cs: seq<Tree>): (r: seq<Tree>)
    ensures |r| == |cs|
    decreases cs
  {
    if cs == [] then [] else [Built(cs[0])] + BuiltAll(cs[1..])
  }

  // ---------------------------------------------------------------- runs

  /** The only two things done to a tree from outside. */
  datatype Op = DoTick(now: real) | DoHalt

  /** A run of ticks only. */
  function TicksAt(times: seq<real>): (r: seq<Op>)
    ensures |r| == |times| && forall i | 0 <= i < |r| :: r[i] == DoTick(times[i])
  {
    seq(|times|, i requires 0 <= i < |times| => DoTick(times[i]))
  }

  /** The statuses returned by the ticks, in order, and the state reached. */
  datatype Run = Run(statuses: seq<Status>, tree: Tree, trace: Trace)

  function RunOps(t: Tree, ops: seq<Op>, o: Oracle, h: Trace): Run
    decreases |ops|
  {
    if ops == [] then Run([], t, h)
    else
      match ops[0]
      case DoTick(now) =>
        var r := Tick(t, now, o, h);
        var rest := RunOps(r.tree, ops[1..], o, r.trace);
        rest.(statuses := [r.status] + rest.statuses)
      case DoHalt =>
        var r := Halt(t, h);
        RunOps(r.tree, ops[1..], o, r.trace)
  }
}
