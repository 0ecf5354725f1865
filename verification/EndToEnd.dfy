/** From tree to hardware and back: a Sequence of NotifyAndWait leaves commanding one MotionWorker. */
module EndToEnd {
  import opened Wrappers
  import opened BehaviorTree
  import opened Motion

  // One clock tick delivers the queued notes, ticks the tree on the board as it then stands, and finally
  // lets the worker read its hardware, whatever that reports.

  // ---------------------------------------------------------------- the leaf

  /** The k-th id the process-wide counter hands to these leaves; other senders may draw in between. */
  type Ids = nat -> nat

  ghost predicate IdsGrow(ids: Ids) {
    forall i, j | 0 <= i < j :: ids(i) < ids(j)
  }

  /** How many ids the leaves have drawn: one per on_start. */
  function Starts(h: Trace): nat {
    if h == [] then 0 else Starts(h[..|h|-1]) + if h[|h|-1].Asked? && h[|h|-1].query.Start? then 1 else 0
  }

  /** Which draw the leaf's current request id came from. */
  function DrawOf(h: Trace, leaf: nat): nat {
    if h == [] then 0
    else if h[|h|-1].Asked? && h[|h|-1].query == Start(leaf) then Starts(h[..|h|-1])
    else DrawOf(h[..|h|-1], leaf)
  }

  /** NotifyAndWait against a snapshot: RUNNING until last_completed_id has reached its own id. */
  function LeafReply(ids: Ids, lastCompleted: nat, h: Trace, q: Query): Reply {
    match q
    case Start(_) => if HasReached(lastCompleted, ids(Starts(h))) then Succeed else Stay
    case Continue(leaf) => if HasReached(lastCompleted, ids(DrawOf(h, leaf))) then Succeed else Stay
    case _ => Stay
  }

  function LeafOracle(ids: Ids, lastCompleted: nat): Oracle {
    (h, q) => LeafReply(ids, lastCompleted, h, q)
  }

  lemma HistoryAppend(h: Trace, e: Event, leaf: nat)
    ensures Starts(h + [e]) == Starts(h) + if e.Asked? && e.query.Start? then 1 else 0
    ensures DrawOf(h + [e], leaf) == if e.Asked? && e.query == Start(leaf) then Starts(h) else DrawOf(h, leaf)
  {
    assert (h + [e])[..|h + [e]| - 1] == h;
  }

  /** The ids drawn while the number of starts grew. */
  function Drawn(ids: Ids, from: nat, to: nat): (r: seq<nat>)
    ensures from <= to ==> |r| == to - from && forall i | 0 <= i < |r| :: r[i] == ids(from + i)
  {
    if from >= to then [] else seq(to - from, i requires 0 <= i < to - from => ids(from + i))
  }

  /**
    The leaf as an object: its request id (0 between runs), its note, its completion test. Each
    call answers what LeafReply says and leaves the id the trace says it has, so a tree of these
    objects is the tree over LeafOracle.
  */
  class NotifyAndWait {
    const leaf: nat
    var rid: nat

    constructor (leaf: nat)
      ensures this.leaf == leaf && rid == 0
    {
      this.leaf := leaf;
      rid := 0;
    }

    /** The id is the one drawn at the leaf's latest start. */
    ghost predicate Holds(ids: Ids, h: Trace)
      reads this
    {
      rid == ids(DrawOf(h, leaf))
    }

    /** Calls of other leaves, halts included, do not change whose id it is. */
    lemma HoldsOn(ids: Ids, h: Trace, e: Event)
      requires Holds(ids, h) && !(e.Asked? && e.query == Start(leaf))
      ensures Holds(ids, h + [e])
    {
      HistoryAppend(h, e, leaf);
    }

    /** `id` is freshly drawn; the note goes to the end of the board's queue. */
    method OnStart(id: nat, queue: seq<nat>, lastCompleted: Option<nat>, ghost ids: Ids, ghost h: Trace)
        returns (s: Status, queue': seq<nat>)
      requires id == ids(Starts(h))
      modifies this
      ensures var reply := LeafReply(ids, Shown(lastCompleted), h, Start(leaf));
              var h' := h + [Asked(Start(leaf), reply)];
              s == ReplyStatus(reply) && Holds(ids, h') && queue' == queue + Drawn(ids, Starts(h), Starts(h'))
      ensures rid == id && queue' == queue + [id]
      ensures s == (if (if lastCompleted.Some? then lastCompleted.value else 0) >= id then SUCCESS else RUNNING)
    {
      rid := id;
      queue' := queue + [rid];
      s := Evaluate(lastCompleted);
      HistoryAppend(h, Asked(Start(leaf), LeafReply(ids, Shown(lastCompleted), h, Start(leaf))), leaf);
    }

    method OnRunning(lastCompleted: Option<nat>, ghost ids: Ids, ghost h: Trace) returns (s: Status)
      requires Holds(ids, h)
      ensures var reply := LeafReply(ids, Shown(lastCompleted), h, Continue(leaf));
              s == ReplyStatus(reply) && Holds(ids, h + [Asked(Continue(leaf), reply)])
      ensures s == (if (if lastCompleted.Some? then lastCompleted.value else 0) >= rid then SUCCESS else RUNNING)
    {
      s := Evaluate(lastCompleted);
      HoldsOn(ids, h, Asked(Continue(leaf), LeafReply(ids, Shown(lastCompleted), h, Continue(leaf))));
    }

    /** A missing board value reads as 0. */
    method Evaluate(lastCompleted: Option<nat>) returns (s: Status)
      ensures s == SUCCESS <==> (if lastCompleted.Some? then lastCompleted.value else 0) >= rid
      ensures s == SUCCESS || s == RUNNING
    {
      var completed := if lastCompleted.Some? then lastCompleted.value else 0;
      if completed >= rid { return SUCCESS; }
      s := RUNNING;
    }

    method Reset()
      modifies this
      ensures rid == 0
    {
      rid := 0;
    }
  }

  /**
    A waiting leaf whose request was retired by a later one succeeds too: a halt, or a motion taking
    the worker over, has the larger id, and the board then shows one at least as large as the leaf's.
  */
  lemma OvertakenLeafSucceeds(ids: Ids, h: Trace, leaf: nat, w: Worker, later: nat, raises: bool)
    requires WorkerInv(w) && w.pending == Some(ids(DrawOf(h, leaf))) && later > w.lastRequest
    ensures var halted := ReceiveHalt(w, Some(later));
            && halted.lastCompleted == later > ids(DrawOf(h, leaf))
            && LeafReply(ids, halted.lastCompleted, h, Continue(leaf)) == Succeed
    ensures var moved := ReceiveMotion(w, Some(later), raises);
            && moved.lastCompleted == (if raises then later else ids(DrawOf(h, leaf)))
            && LeafReply(ids, moved.lastCompleted, h, Continue(leaf)) == Succeed
  {
    BoardDichotomy(w);
  }

  // ---------------------------------------------------------------- the cell

  /** Everything between two clock ticks; the queue holds the ids of the notes passed and not delivered. */
  datatype Cell = Cell(tree: Tree, h: Trace, queue: seq<nat>, worker: Worker)

  /** What the world supplies for a tick: the time, which dispatches raise, what the arm reports. */
  datatype Input = Input(now: real, raises: nat -> bool, hardware: Hardware)

  datatype CellStep = CellStep(cell: Cell, status: Status)

  function DeliverAll(w: Worker, queue: seq<nat>, raises: nat -> bool): Worker
    decreases |queue|
  {
    if queue == [] then w
    else DeliverAll(ReceiveMotion(w, Some(queue[0]), raises(queue[0])), queue[1..], raises)
  }

  function CellTick(ids: Ids, c: Cell, i: Input): CellStep {
    var w := DeliverAll(c.worker, c.queue, i.raises);
    var s := Tick(c.tree, i.now, LeafOracle(ids, w.lastCompleted), c.h);
    CellStep(Cell(s.tree, s.trace, Drawn(ids, Starts(c.h), Starts(s.trace)), HardwareTick(w, i.hardware)), s.status)
  }

  // ---------------------------------------------------------------- one tick of the Sequence

  function LeafNodes(leaves: seq<nat>, active: int): (r: seq<Tree>)
    ensures |r| == |leaves|
    ensures forall i | 0 <= i < |r| :: r[i] == Leaf(leaves[i], if i == active then RUNNING else IDLE, false)
  {
    seq(|leaves|, i requires 0 <= i < |leaves| => Leaf(leaves[i], if i == active then RUNNING else IDLE, false))
  }

  /** The Sequence with leaf k active, or idle when k is negative. */
  function MotionSequence(leaves: seq<nat>, k: int): Tree {
    Control(Sequence(true), if k >= 0 then RUNNING else IDLE, if k >= 0 then k else 0, LeafNodes(leaves, k))
  }

  lemma WalkOneIdle(leaves: seq<nat>, k: nat, now: real, o: Oracle, h: Trace)
    requires k < |leaves| && o(h, Start(leaves[k])) == Stay
    ensures var w := WalkList(LeafNodes(leaves, -1)[k..], SUCCESS, now, o, h);
            && w.status == RUNNING && w.done == 0 && w.trace == h + [Asked(Start(leaves[k]), Stay)]
            && w.trees == LeafNodes(leaves, k)[k..]
  {
    var cs := LeafNodes(leaves, -1)[k..];
    var s := Tick(cs[0], now, o, h);
    assert s == Step(Leaf(leaves[k], RUNNING, false), RUNNING, h + [Asked(Start(leaves[k]), Stay)]);
    assert [s.tree] + cs[1..] == LeafNodes(leaves, k)[k..];
  }

  lemma StartSequence(leaves: seq<nat>, now: real, o: Oracle, h: Trace)
    requires leaves != [] && o(h, Start(leaves[0])) == Stay
    ensures Tick(MotionSequence(leaves, -1), now, o, h) ==
            Step(MotionSequence(leaves, 0), RUNNING, h + [Asked(Start(leaves[0]), Stay)])
  {
    WalkOneIdle(leaves, 0, now, o, h);
    WalkFromStart(LeafNodes(leaves, -1), SUCCESS, now, o, h);
    assert LeafNodes(leaves, -1)[0..] == LeafNodes(leaves, -1) && LeafNodes(leaves, 0)[0..] == LeafNodes(leaves, 0);
    var r := RunControl(Sequence(true), 0, LeafNodes(leaves, -1), now, o, h);
    assert r.trees == LeafNodes(leaves, 0);
  }

  lemma KeepWaiting(leaves: seq<nat>, k: nat, now: real, o: Oracle, h: Trace)
    requires k < |leaves| && o(h, Continue(leaves[k])) == Stay
    ensures Tick(MotionSequence(leaves, k), now, o, h) ==
            Step(MotionSequence(leaves, k), RUNNING, h + [Asked(Continue(leaves[k]), Stay)])
  {
    var cs := LeafNodes(leaves, k);
    var s := Tick(cs[k], now, o, h);
    assert s == Step(cs[k], RUNNING, h + [Asked(Continue(leaves[k]), Stay)]);
    var w := WalkList(cs[k..], SUCCESS, now, o, h);
    assert w == Walk([s.tree] + cs[k..][1..], 0, RUNNING, s.trace);
    assert cs[..k] + w.trees == cs;
    assert RunControl(Sequence(true), k, cs, now, o, h) == Walk(cs, k, RUNNING, s.trace);
  }

  /** The pass of an active Sequence whose leaf k succeeds goes on with what is left. */
  lemma PassOn(leaves: seq<nat>, k: nat, now: real, o: Oracle, h: Trace)
    requires k < |leaves| && o(h, Continue(leaves[k])) == Succeed
    ensures var h1 := h + [Asked(Continue(leaves[k]), Succeed)];
            var rest := WalkList(LeafNodes(leaves, -1)[k + 1..], SUCCESS, now, o, h1);
            RunControl(Sequence(true), k, LeafNodes(leaves, k), now, o, h) ==
            Walk(LeafNodes(leaves, -1)[..k + 1] + rest.trees, k + 1 + rest.done, rest.status, rest.trace)
  {
    var cs, idle := LeafNodes(leaves, k), LeafNodes(leaves, -1);
    var h1 := h + [Asked(Continue(leaves[k]), Succeed)];
    var s := Tick(cs[k], now, o, h);
    assert s == Step(idle[k], SUCCESS, h1);
    assert cs[k..][0] == cs[k] && cs[k..][1..] == idle[k + 1..];
    var rest := WalkList(idle[k + 1..], SUCCESS, now, o, h1);
    assert WalkList(cs[k..], SUCCESS, now, o, h) == Walk([s.tree] + rest.trees, rest.done + 1, rest.status, rest.trace);
    assert cs[..k] + ([s.tree] + rest.trees) == idle[..k + 1] + rest.trees;
  }

  /** A tick of the active Sequence is a pass over its leaves from leaf k on. */
  lemma TickIsPass(leaves: seq<nat>, k: nat, now: real, o: Oracle, h: Trace)
    requires k < |leaves|
    ensures var r := RunControl(Sequence(true), k, LeafNodes(leaves, k), now, o, h);
            Tick(MotionSequence(leaves, k), now, o, h) ==
            Step(Control(Sequence(true), Rest(r.status), if r.status == RUNNING then r.done else 0, r.trees),
                 r.status, r.trace)
  {
    hide RunControl;
  }

  lemma NothingLeft(now: real, o: Oracle, h: Trace)
    ensures WalkList([], SUCCESS, now, o, h) == Walk([], 0, SUCCESS, h)
  {
  }

  /** Leaf k is done: the next one starts in the same tick, or the Sequence succeeds. */
  lemma MoveOn(leaves: seq<nat>, k: nat, now: real, o: Oracle, h: Trace)
    requires k < |leaves| && o(h, Continue(leaves[k])) == Succeed
    requires var h1 := h + [Asked(Continue(leaves[k]), Succeed)];
             k + 1 < |leaves| ==> o(h1, Start(leaves[k + 1])) == Stay
    ensures var h1 := h + [Asked(Continue(leaves[k]), Succeed)];
            Tick(MotionSequence(leaves, k), now, o, h) ==
            if k + 1 < |leaves| then
              Step(MotionSequence(leaves, k + 1), RUNNING, h1 + [Asked(Start(leaves[k + 1]), Stay)])
            else Step(MotionSequence(leaves, -1), SUCCESS, h1)
  {
    hide BehaviorTree.Tick, RunControl, WalkList;
    var idle := LeafNodes(leaves, -1);
    var h1 := h + [Asked(Continue(leaves[k]), Succeed)];
    var rest := WalkList(idle[k + 1..], SUCCESS, now, o, h1);
    TickIsPass(leaves, k, now, o, h);
    PassOn(leaves, k, now, o, h);
    if k + 1 < |leaves| {
      WalkOneIdle(leaves, k + 1, now, o, h1);
      assert idle[..k + 1] + rest.trees == LeafNodes(leaves, k + 1);
    } else {
      assert idle[k + 1..] == [];
      NothingLeft(now, o, h1);
      assert idle[..k + 1] + rest.trees == idle;
    }
  }

  // ---------------------------------------------------------------- the invariant

  /**
    k leaves have been started, the last of them is waiting. Its note is still queued while the
    worker has nothing pending, or it has been delivered; everything earlier has been retired.
  */
  ghost predicate Waiting(ids: Ids, c: Cell, leaves: seq<nat>, s0: nat, earlier: seq<nat>, k: nat) {
    && 1 <= k <= |leaves|
    && c.tree == MotionSequence(leaves, k - 1)
    && Starts(c.h) == s0 + k && DrawOf(c.h, leaves[k - 1]) == s0 + k - 1
    && WorkerInv(c.worker)
    && (if c.queue == [] then c.worker.requests == earlier + Drawn(ids, s0, s0 + k)
        else c.queue == [ids(s0 + k - 1)] && c.worker.pending.None?
             && c.worker.requests == earlier + Drawn(ids, s0, s0 + k - 1))
  }

  /** Before the first tick: nothing queued, nothing pending, every id so far below the ones to come. */
  ghost predicate AtRest(ids: Ids, c: Cell, leaves: seq<nat>, s0: nat, earlier: seq<nat>) {
    && c.tree == MotionSequence(leaves, -1)
    && Starts(c.h) == s0
    && c.queue == [] && WorkerInv(c.worker) && c.worker.pending.None?
    && c.worker.requests == earlier && LastOr0(earlier) < ids(s0)
  }

  ghost predicate Setting(ids: Ids, leaves: seq<nat>, s0: nat, earlier: seq<nat>) {
    && IdsGrow(ids) && leaves != [] && LastOr0(earlier) < ids(s0)
  }

  lemma LastDrawn(ids: Ids, s0: nat, earlier: seq<nat>, k: nat)
    requires IdsGrow(ids) && LastOr0(earlier) < ids(s0)
    ensures LastOr0(earlier + Drawn(ids, s0, s0 + k)) == (if k == 0 then LastOr0(earlier) else ids(s0 + k - 1))
    ensures LastOr0(earlier + Drawn(ids, s0, s0 + k)) < ids(s0 + k)
  {
    var d := Drawn(ids, s0, s0 + k);
    if k == 0 {
      assert earlier + d == earlier;
    } else {
      assert (earlier + d)[|earlier + d| - 1] == d[k - 1] == ids(s0 + k - 1);
    }
  }

  lemma DrawnSnoc(ids: Ids, from: nat, k: nat)
    ensures Drawn(ids, from, from + k + 1) == Drawn(ids, from, from + k) + [ids(from + k)]
  {
  }

  lemma DeliverOne(w: Worker, id: nat, raises: nat -> bool)
    requires WorkerInv(w) && w.lastRequest < id
    ensures var w' := DeliverAll(w, [id], raises);
            WorkerInv(w') && w'.requests == w.requests + [id]
  {
    var w' := ReceiveMotion(w, Some(id), raises(id));
    assert DeliverAll(w', [], raises) == w';
    assert [id][1..] == [];
    ReceiveMotionKeepsInv(w, Some(id), raises(id));
  }

  lemma LastOf(w: Worker)
    requires WorkerInv(w)
    ensures w.lastRequest == LastOr0(w.requests)
  {
  }

  lemma OneMoreDrawn(ids: Ids, w: Worker, s0: nat, earlier: seq<nat>, k: nat, raises: nat -> bool)
    requires IdsGrow(ids) && LastOr0(earlier) < ids(s0)
    requires WorkerInv(w) && w.requests == earlier + Drawn(ids, s0, s0 + k)
    ensures var w' := DeliverAll(w, [ids(s0 + k)], raises);
            WorkerInv(w') && w'.requests == earlier + Drawn(ids, s0, s0 + k + 1)
  {
    hide DeliverAll, WorkerInv;
    assert w.lastRequest < ids(s0 + k) by { LastOf(w); LastDrawn(ids, s0, earlier, k); }
    DeliverOne(w, ids(s0 + k), raises);
    DrawnSnoc(ids, s0, k);
    var before := Drawn(ids, s0, s0 + k);
    assert earlier + before + [ids(s0 + k)] == earlier + (before + [ids(s0 + k)]);
  }

  lemma DeliveredWorker(ids: Ids, c: Cell, leaves: seq<nat>, s0: nat, earlier: seq<nat>, k: nat, raises: nat -> bool)
    requires Setting(ids, leaves, s0, earlier) && Waiting(ids, c, leaves, s0, earlier, k)
    ensures var w := DeliverAll(c.worker, c.queue, raises);
            WorkerInv(w) && w.requests == earlier + Drawn(ids, s0, s0 + k)
  {
    if c.queue == [] {
      assert DeliverAll(c.worker, c.queue, raises) == c.worker;
    } else {
      var last: nat := k - 1;
      assert c.queue == [ids(s0 + last)];
      OneMoreDrawn(ids, c.worker, s0, earlier, last, raises);
    }
  }

  /** Delivery finds nothing pending, so the overlap branch is not taken, and announces the waiting id. */
  lemma DeliverWaiting(ids: Ids, c: Cell, leaves: seq<nat>, s0: nat, earlier: seq<nat>, k: nat, raises: nat -> bool)
    requires Setting(ids, leaves, s0, earlier) && Waiting(ids, c, leaves, s0, earlier, k)
    ensures c.queue != [] ==> c.worker.pending.None?
    ensures var w := DeliverAll(c.worker, c.queue, raises);
            && WorkerInv(w) && w.requests == earlier + Drawn(ids, s0, s0 + k)
            && w.lastRequest == ids(s0 + k - 1)
            && (w.pending.None? <==> w.lastCompleted == ids(s0 + k - 1))
            && (w.pending.Some? ==> w.lastCompleted < ids(s0 + k - 1))
  {
    var w := DeliverAll(c.worker, c.queue, raises);
    DeliveredWorker(ids, c, leaves, s0, earlier, k, raises);
    assert w.lastRequest == ids(s0 + k - 1) by { LastDrawn(ids, s0, earlier, k); }
    BoardDichotomy(w);
  }

  /** What the tree does while leaf k-1 waits, by what the board shows. */
  lemma TreeTickWaiting(ids: Ids, leaves: seq<nat>, s0: nat, k: nat, completed: nat, now: real, h: Trace)
    requires IdsGrow(ids) && 1 <= k <= |leaves|
    requires Starts(h) == s0 + k && DrawOf(h, leaves[k - 1]) == s0 + k - 1 && completed <= ids(s0 + k - 1)
    ensures var h1 := h + [Asked(Continue(leaves[k - 1]), Succeed)];
            Tick(MotionSequence(leaves, k - 1), now, LeafOracle(ids, completed), h) ==
            if completed < ids(s0 + k - 1) then
              Step(MotionSequence(leaves, k - 1), RUNNING, h + [Asked(Continue(leaves[k - 1]), Stay)])
            else if k < |leaves| then
              Step(MotionSequence(leaves, k), RUNNING, h1 + [Asked(Start(leaves[k]), Stay)])
            else Step(MotionSequence(leaves, -1), SUCCESS, h1)
  {
    var o := LeafOracle(ids, completed);
    var q := Continue(leaves[k - 1]);
    if completed < ids(s0 + k - 1) {
      KeepWaiting(leaves, k - 1, now, o, h);
    } else {
      HistoryAppend(h, Asked(q, Succeed), leaves[k - 1]);
      assert ids(s0 + k - 1) < ids(s0 + k);
      MoveOn(leaves, k - 1, now, o, h);
    }
  }

  /** The cell after such a tick. */
  lemma CellAfter(ids: Ids, c: Cell, i: Input, s: Step)
    requires s == Tick(c.tree, i.now, LeafOracle(ids, DeliverAll(c.worker, c.queue, i.raises).lastCompleted), c.h)
    ensures CellTick(ids, c, i) ==
            CellStep(Cell(s.tree, s.trace, Drawn(ids, Starts(c.h), Starts(s.trace)),
                          HardwareTick(DeliverAll(c.worker, c.queue, i.raises), i.hardware)), s.status)
  {
  }

  /** The three cells a waiting cell can become. */
  lemma StillWaiting(ids: Ids, h: Trace, w: Worker, leaves: seq<nat>, s0: nat, earlier: seq<nat>, k: nat)
    requires 1 <= k <= |leaves| && Starts(h) == s0 + k && DrawOf(h, leaves[k - 1]) == s0 + k - 1
    requires WorkerInv(w) && w.requests == earlier + Drawn(ids, s0, s0 + k)
    ensures var h' := h + [Asked(Continue(leaves[k - 1]), Stay)];
            Waiting(ids, Cell(MotionSequence(leaves, k - 1), h', Drawn(ids, Starts(h), Starts(h')), w), leaves, s0,
                    earlier, k)
            && Drawn(ids, Starts(h), Starts(h')) == []
  {
    HistoryAppend(h, Asked(Continue(leaves[k - 1]), Stay), leaves[k - 1]);
  }

  lemma NextWaiting(ids: Ids, h: Trace, w: Worker, leaves: seq<nat>, s0: nat, earlier: seq<nat>, k: nat)
    requires 1 <= k < |leaves| && Starts(h) == s0 + k
    requires WorkerInv(w) && w.pending.None? && w.requests == earlier + Drawn(ids, s0, s0 + k)
    ensures var h' := h + [Asked(Continue(leaves[k - 1]), Succeed)] + [Asked(Start(leaves[k]), Stay)];
            && Waiting(ids, Cell(MotionSequence(leaves, k), h', Drawn(ids, Starts(h), Starts(h')), w), leaves, s0,
                       earlier, k + 1)
            && Drawn(ids, Starts(h), Starts(h')) == [ids(s0 + k)]
  {
    var h1 := h + [Asked(Continue(leaves[k - 1]), Succeed)];
    HistoryAppend(h, Asked(Continue(leaves[k - 1]), Succeed), leaves[k]);
    HistoryAppend(h1, Asked(Start(leaves[k]), Stay), leaves[k]);
    assert Drawn(ids, s0 + k, s0 + k + 1) == [ids(s0 + k)];
  }

  lemma LastDone(ids: Ids, h: Trace, leaf: nat)
    ensures Drawn(ids, Starts(h), Starts(h + [Asked(Continue(leaf), Succeed)])) == []
  {
    HistoryAppend(h, Asked(Continue(leaf), Succeed), leaf);
  }

  /**
    One clock tick. The waiting leaf succeeds only when the worker has retired exactly that
    leaf's id, so that all ids so far are completed; only then is the next leaf's note passed.
  */
  lemma CellTickWaiting(ids: Ids, c: Cell, leaves: seq<nat>, s0: nat, earlier: seq<nat>, k: nat, i: Input)
    requires Setting(ids, leaves, s0, earlier) && Waiting(ids, c, leaves, s0, earlier, k)
    ensures var w := DeliverAll(c.worker, c.queue, i.raises);
            var s := CellTick(ids, c, i);
            if w.pending.Some? then
              s.status == RUNNING && Waiting(ids, s.cell, leaves, s0, earlier, k) && s.cell.queue == []
            else
              && w.completions == earlier + Drawn(ids, s0, s0 + k) && w.lastCompleted == ids(s0 + k - 1)
              && (if k < |leaves| then
                    s.status == RUNNING && Waiting(ids, s.cell, leaves, s0, earlier, k + 1)
                        && s.cell.queue == [ids(s0 + k)]
                  else
                    s.status == SUCCESS && s.cell.tree == MotionSequence(leaves, -1) && s.cell.queue == []
                    && s.cell.worker == w)
  {
    hide BehaviorTree.Tick, CellTick, DeliverAll, WorkerInv, HardwareTick, MotionSequence;
    var w := DeliverAll(c.worker, c.queue, i.raises);
    DeliverWaiting(ids, c, leaves, s0, earlier, k, i.raises);
    var s := Tick(c.tree, i.now, LeafOracle(ids, w.lastCompleted), c.h);
    TreeTickWaiting(ids, leaves, s0, k, w.lastCompleted, i.now, c.h);
    CellAfter(ids, c, i, s);
    if w.pending.Some? {
      HardwareKeepsInv(w, i.hardware);
      StillWaiting(ids, c.h, HardwareTick(w, i.hardware), leaves, s0, earlier, k);
    } else {
      NothingToDo(w, i);
      if k < |leaves| { NextWaiting(ids, c.h, w, leaves, s0, earlier, k); } else { LastDone(ids, c.h, leaves[k - 1]); }
    }
  }

  /** The readings that retire the pending request of a worker. */
  predicate Retires(w: Worker, hw: Hardware) {
    match hw
    case Dobot(NoFrame) => false
    case Dobot(Busy) => false
    case Dobot(InError) => true
    case Dobot(Done) => w.moveStarted || 0 < w.threshold <= w.idleTicks + 1
    case Epson(error, busy, done) => error != 0 || (w.moveStarted && !busy && done)
  }

  /**
    From hardware to tree and on: the leaf waiting for a dispatched motion succeeds at the tick after
    the reading that retires it, whatever happens then, and the next leaf passes its note in that tick;
    after any other reading nothing moves.
  */
  lemma ReadingEndsTheWait(ids: Ids, c: Cell, leaves: seq<nat>, s0: nat, earlier: seq<nat>, k: nat, i: Input,
          next: Input)
    requires Setting(ids, leaves, s0, earlier) && Waiting(ids, c, leaves, s0, earlier, k)
    requires DeliverAll(c.worker, c.queue, i.raises).pending.Some?
    ensures var w := DeliverAll(c.worker, c.queue, i.raises);
            var s := CellTick(ids, CellTick(ids, c, i).cell, next);
            if !Retires(w, i.hardware) then s.status == RUNNING && s.cell.queue == []
            else if k < |leaves| then s.status == RUNNING && s.cell.queue == [ids(s0 + k)]
            else s.status == SUCCESS
  {
    hide BehaviorTree.Tick, CellTick, WorkerInv, MotionSequence, Waiting;
    var w := DeliverAll(c.worker, c.queue, i.raises);
    CellTickWaiting(ids, c, leaves, s0, earlier, k, i);
    CellAfter(ids, c, i, Tick(c.tree, i.now, LeafOracle(ids, w.lastCompleted), c.h));
    var c1 := CellTick(ids, c, i).cell;
    assert DeliverAll(c1.worker, c1.queue, next.raises) == c1.worker == HardwareTick(w, i.hardware);
    assert c1.worker.pending.None? <==> Retires(w, i.hardware);
    CellTickWaiting(ids, c1, leaves, s0, earlier, k, next);
  }

  lemma CellTickStarting(ids: Ids, c: Cell, leaves: seq<nat>, s0: nat, earlier: seq<nat>, i: Input)
    requires Setting(ids, leaves, s0, earlier) && AtRest(ids, c, leaves, s0, earlier)
    ensures var s := CellTick(ids, c, i);
            s.status == RUNNING && Waiting(ids, s.cell, leaves, s0, earlier, 1) && s.cell.queue == [ids(s0)]
  {
    var o := LeafOracle(ids, c.worker.lastCompleted);
    NothingToDo(c.worker, i);
    StartReplies(ids, c.h, c.worker, leaves, s0);
    StartSequence(leaves, i.now, o, c.h);
    CellAfter(ids, c, i, Tick(c.tree, i.now, o, c.h));
    FirstWaiting(ids, c.h, c.worker, leaves, s0, earlier);
  }

  /** Without notes and without a pending request the hardware reading changes nothing. */
  lemma NothingToDo(w: Worker, i: Input)
    requires w.pending.None?
    ensures DeliverAll(w, [], i.raises) == w && HardwareTick(w, i.hardware) == w
  {
  }

  lemma StartReplies(ids: Ids, h: Trace, w: Worker, leaves: seq<nat>, s0: nat)
    requires leaves != [] && Starts(h) == s0 && WorkerInv(w) && w.pending.None? && LastOr0(w.requests) < ids(s0)
    ensures LeafOracle(ids, w.lastCompleted)(h, Start(leaves[0])) == Stay
  {
    BoardDichotomy(w);
  }

  lemma FirstWaiting(ids: Ids, h: Trace, w: Worker, leaves: seq<nat>, s0: nat, earlier: seq<nat>)
    requires leaves != [] && Starts(h) == s0 && WorkerInv(w) && w.pending.None? && w.requests == earlier
    ensures var h' := h + [Asked(Start(leaves[0]), Stay)];
            && Waiting(ids, Cell(MotionSequence(leaves, 0), h', Drawn(ids, Starts(h), Starts(h')), w), leaves, s0,
                       earlier, 1)
            && Drawn(ids, Starts(h), Starts(h')) == [ids(s0)]
  {
    HistoryAppend(h, Asked(Start(leaves[0]), Stay), leaves[0]);
    assert Drawn(ids, s0, s0 + 1) == [ids(s0)];
    assert earlier + [] == earlier;
  }

  // ---------------------------------------------------------------- whole runs

  /** The statuses of the ticks and the cell after them. */
  datatype CellRun = CellRun(statuses: seq<Status>, cell: Cell)

  function RunCell(ids: Ids, c: Cell, inputs: seq<Input>): CellRun
    decreases |inputs|
  {
    if inputs == [] then CellRun([], c)
    else
      var s := CellTick(ids, c, inputs[0]);
      var rest := RunCell(ids, s.cell, inputs[1..]);
      CellRun([s.status] + rest.statuses, rest.cell)
  }

  ghost predicate StillRunning(ss: seq<Status>) {
    forall i | 0 <= i < |ss| :: ss[i] == RUNNING
  }

  lemma StillRunningCons(first: Status, ss: seq<Status>)
    requires StillRunning([first] + ss)
    ensures first == RUNNING && StillRunning(ss)
  {
    assert ([first] + ss)[0] == first;
    forall i | 0 <= i < |ss| ensures ss[i] == RUNNING { assert ([first] + ss)[i + 1] == ss[i]; }
  }

  lemma {:induction false} RunWaiting(ids: Ids, c: Cell, leaves: seq<nat>, s0: nat, earlier: seq<nat>, k: nat,
          inputs: seq<Input>)
      returns (k': nat)
    requires Setting(ids, leaves, s0, earlier) && Waiting(ids, c, leaves, s0, earlier, k)
    requires StillRunning(RunCell(ids, c, inputs).statuses)
    ensures k <= k' && Waiting(ids, RunCell(ids, c, inputs).cell, leaves, s0, earlier, k')
    decreases |inputs|
  {
    if inputs == [] { return k; }
    CellTickWaiting(ids, c, leaves, s0, earlier, k, inputs[0]);
    var s := CellTick(ids, c, inputs[0]);
    StillRunningCons(s.status, RunCell(ids, s.cell, inputs[1..]).statuses);
    if DeliverAll(c.worker, c.queue, inputs[0].raises).pending.Some? {
      k' := RunWaiting(ids, s.cell, leaves, s0, earlier, k, inputs[1..]);
    } else {
      k' := RunWaiting(ids, s.cell, leaves, s0, earlier, k + 1, inputs[1..]);
    }
  }

  /** The worker has been told the ids of leaves 0..k-1, in order, and has retired all but maybe the last. */
  ghost predicate Announced(ids: Ids, w: Worker, leaves: seq<nat>, s0: nat, earlier: seq<nat>, k: nat) {
    && 1 <= k <= |leaves|
    && w.requests == earlier + Drawn(ids, s0, s0 + k)
    && earlier + Drawn(ids, s0, s0 + k - 1) <= w.completions
  }

  lemma AnnouncedAll(ids: Ids, w: Worker, leaves: seq<nat>, s0: nat, earlier: seq<nat>, k: nat)
    requires 1 <= k <= |leaves| && WorkerInv(w) && w.requests == earlier + Drawn(ids, s0, s0 + k)
    ensures Announced(ids, w, leaves, s0, earlier, k)
  {
    DrawnSnoc(ids, s0, k - 1);
    var front := earlier + Drawn(ids, s0, s0 + k - 1);
    assert w.requests == front + [ids(s0 + k - 1)];
    if w.pending.Some? {
      assert w.completions == w.requests[..|front|] == front;
    } else {
      assert w.completions == w.requests;
    }
  }

  /** While the Sequence is still running, some leaf is the waiting one. */
  lemma SomeLeafWaits(ids: Ids, c: Cell, leaves: seq<nat>, s0: nat, inputs: seq<Input>) returns (k: nat)
    requires Setting(ids, leaves, s0, c.worker.requests) && AtRest(ids, c, leaves, s0, c.worker.requests)
    requires inputs != [] && StillRunning(RunCell(ids, c, inputs).statuses)
    ensures Waiting(ids, RunCell(ids, c, inputs).cell, leaves, s0, c.worker.requests, k)
  {
    var earlier := c.worker.requests;
    CellTickStarting(ids, c, leaves, s0, earlier, inputs[0]);
    var s1 := CellTick(ids, c, inputs[0]);
    StillRunningCons(s1.status, RunCell(ids, s1.cell, inputs[1..]).statuses);
    k := RunWaiting(ids, s1.cell, leaves, s0, earlier, 1, inputs[1..]);
  }

  /**
    What holds of a cell about to be ticked: no overlap, all ids so far in order, success only when all are
    retired.
  */
  ghost predicate GoodCell(ids: Ids, now: Cell, leaves: seq<nat>, s0: nat, earlier: seq<nat>, next: Input) {
    var w := DeliverAll(now.worker, now.queue, next.raises);
    var s := CellTick(ids, now, next);
    && (now.queue != [] ==> |now.queue| == 1 && now.worker.pending.None?)
    && (exists k :: Announced(ids, w, leaves, s0, earlier, k))
    && (s.status == RUNNING || s.status == SUCCESS)
    && (s.status == SUCCESS ==>
          s.cell.queue == [] && s.cell.worker.pending.None?
          && s.cell.worker.completions == earlier + Drawn(ids, s0, s0 + |leaves|))
  }

  lemma QueueOfOne(ids: Ids, c: Cell, leaves: seq<nat>, s0: nat, earlier: seq<nat>, k: nat)
    requires Waiting(ids, c, leaves, s0, earlier, k)
    ensures 1 <= k <= |leaves| && |c.queue| <= 1
  {
  }

  lemma WaitingIsGood(ids: Ids, now: Cell, leaves: seq<nat>, s0: nat, earlier: seq<nat>, k: nat, next: Input)
    requires Setting(ids, leaves, s0, earlier) && Waiting(ids, now, leaves, s0, earlier, k)
    ensures GoodCell(ids, now, leaves, s0, earlier, next)
  {
    hide BehaviorTree.Tick, CellTick, DeliverAll, WorkerInv, Waiting, MotionSequence, Announced;
    DeliverWaiting(ids, now, leaves, s0, earlier, k, next.raises);
    QueueOfOne(ids, now, leaves, s0, earlier, k);
    CellTickWaiting(ids, now, leaves, s0, earlier, k, next);
    AnnouncedAll(ids, DeliverAll(now.worker, now.queue, next.raises), leaves, s0, earlier, k);
  }

  /**
    End to end. Started with nothing pending, with arbitrary hardware readings and dispatch
    failures at every tick, for as long as the Sequence has not finished:
      - a note is only ever delivered to a worker with nothing pending: no overlap;
      - the ids announced to the worker are those of the leaves started so far, in order, and all
        but the last have been retired;
      - the next tick does not fail, and if it succeeds then the worker has retired exactly the
        ids of all leaves, in order.
  */
  lemma SequenceOfMotions(ids: Ids, c: Cell, leaves: seq<nat>, s0: nat, inputs: seq<Input>, next: Input)
    requires Setting(ids, leaves, s0, c.worker.requests) && AtRest(ids, c, leaves, s0, c.worker.requests)
    requires inputs != [] && StillRunning(RunCell(ids, c, inputs).statuses)
    ensures GoodCell(ids, RunCell(ids, c, inputs).cell, leaves, s0, c.worker.requests, next)
  {
    var k := SomeLeafWaits(ids, c, leaves, s0, inputs);
    WaitingIsGood(ids, RunCell(ids, c, inputs).cell, leaves, s0, c.worker.requests, k, next);
  }
}
