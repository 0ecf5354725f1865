/** The request-id protocol of a MotionWorker: one pending request and how it is retired. */
module Motion {
  import opened Wrappers

  // A request is retired by a hardware edge, an error, a halt, an overlap, a failed dispatch or the
  // no-op grace. `requests` and `completions` are the values the worker has posted under
  // last_request_id and last_completed_id since it was attached; the board shows the last of each, or 0.

  datatype Worker = Worker(pending: Option<nat>, moveStarted: bool, idleTicks: nat, threshold: int,
                           lastRequest: nat, lastCompleted: nat, requests: seq<nat>, completions: seq<nat>)

  function Attached(threshold: int): Worker {
    Worker(None, false, 0, threshold, 0, 0, [], [])
  }

  // ---------------------------------------------------------------- the pending machine

  function PostRequest(w: Worker, id: nat): Worker {
    w.(lastRequest := id, requests := w.requests + [id])
  }

  function PostCompletion(w: Worker, id: nat): Worker {
    w.(lastCompleted := id, completions := w.completions + [id])
  }

  function ClearPending(w: Worker): Worker {
    w.(pending := None, moveStarted := false, idleTicks := 0)
  }

  /** Retire the pending request, if there is one: cancel, error, overlap. */
  function Retire(w: Worker): Worker {
    if w.pending.None? then w else ClearPending(PostCompletion(w, w.pending.value))
  }

  function BusyStarted(w: Worker): Worker {
    if w.pending.None? || w.moveStarted then w else w.(moveStarted := true, idleTicks := 0)
  }

  function Completion(w: Worker): Worker {
    if w.pending.None? || !w.moveStarted then w else Retire(w)
  }

  function IdleTick(w: Worker): Worker {
    if w.pending.None? || w.moveStarted || w.threshold <= 0 then w
    else
      var w' := w.(idleTicks := w.idleTicks + 1);
      if w'.idleTicks >= w'.threshold then Retire(w') else w'
  }

  // ---------------------------------------------------------------- notes and ticks

  /** A motion note: `raises` when the dispatch function raises. */
  function ReceiveMotion(w: Worker, id: Option<nat>, raises: bool): Worker {
    var w1 := if id.Some? then PostRequest(w, id.value) else w;
    var w2 := Retire(w1);
    if raises then ClearPending(if id.Some? then PostCompletion(w2, id.value) else w2)
    else w2.(pending := id, moveStarted := false, idleTicks := 0)
  }

  function ReceiveHalt(w: Worker, id: Option<nat>): Worker {
    var w1 := if id.Some? then PostRequest(w, id.value) else w;
    var w2 := Retire(w1);
    if id.Some? then PostCompletion(w2, id.value) else w2
  }

  /** What a Dobot feedback frame says; NoFrame when none has arrived. */
  datatype Reading = NoFrame | InError | Busy | Done

  function DobotTick(w: Worker, r: Reading): Worker {
    match r
    case NoFrame => w
    case InError => Retire(w)
    case Busy => BusyStarted(w)
    case Done => IdleTick(Completion(w))
  }

  /** The LS6 reports three independent flags. */
  function EpsonTick(w: Worker, errorCode: int, busy: bool, done: bool): Worker {
    if errorCode != 0 then Retire(w)
    else if busy then BusyStarted(w)
    else if done then Completion(w)
    else w
  }

  /** What a clock tick finds at the arm, a Dobot or an LS6. */
  datatype Hardware = Dobot(reading: Reading) | Epson(errorCode: int, busy: bool, done: bool)

  function HardwareTick(w: Worker, hw: Hardware): Worker {
    match hw
    case Dobot(r) => DobotTick(w, r)
    case Epson(e, b, d) => EpsonTick(w, e, b, d)
  }

  /** A last_completed_id nobody has posted yet reads as 0. */
  function Shown(lastCompleted: Option<nat>): nat {
    if lastCompleted.Some? then lastCompleted.value else 0
  }

  /** The completion test of every leaf that waits for its own request. */
  predicate HasReached(lastCompleted: nat, rid: nat) {
    lastCompleted >= rid
  }

  class MotionWorker {
    const threshold: int
    var pending: Option<nat>
    var moveStarted: bool
    var idleTicks: nat
    // the worker's own keys on the board
    var lastRequestId: nat
    var lastCompletedId: nat
    ghost var requests: seq<nat>
    ghost var completions: seq<nat>

    ghost function Abs(): Worker
      reads this
    {
      Worker(pending, moveStarted, idleTicks, threshold, lastRequestId, lastCompletedId, requests, completions)
    }

    constructor (threshold: int)
      ensures Abs() == Attached(threshold)
      ensures this.threshold == threshold && pending == None && lastRequestId == 0 && lastCompletedId == 0
    {
      this.threshold := threshold;
      pending, moveStarted, idleTicks := None, false, 0;
      lastRequestId, lastCompletedId, requests, completions := 0, 0, [], [];
    }

    method WriteRequest(id: nat)
      modifies this
      ensures Abs() == PostRequest(old(Abs()), id)
    {
      lastRequestId, requests := id, requests + [id];
    }

    method WriteCompletion(id: nat)
      modifies this
      ensures Abs() == PostCompletion(old(Abs()), id)
    {
      lastCompletedId, completions := id, completions + [id];
    }

    method Clear()
      modifies this
      ensures Abs() == ClearPending(old(Abs()))
    {
      pending, moveStarted, idleTicks := None, false, 0;
    }

    method NoteBusyStarted()
      modifies this
      ensures Abs() == BusyStarted(old(Abs()))
    {
      if pending.None? { return; }
      if !moveStarted { moveStarted, idleTicks := true, 0; }
    }

    method NoteCompletion()
      modifies this
      ensures Abs() == Completion(old(Abs()))
    {
      if pending.None? { return; }
      if !moveStarted { return; }
      WriteCompletion(pending.value);
      Clear();
    }

    method NoteError()
      modifies this
      ensures Abs() == Retire(old(Abs()))
    {
      if pending.None? { return; }
      WriteCompletion(pending.value);
      Clear();
    }

    method NoteIdleTick()
      modifies this
      ensures Abs() == IdleTick(old(Abs()))
    {
      if pending.None? { return; }
      if moveStarted { return; }
      if threshold <= 0 { return; }
      idleTicks := idleTicks + 1;
      if idleTicks >= threshold {
        WriteCompletion(pending.value);
        Clear();
      }
    }

    method CancelPending()
      modifies this
      ensures Abs() == Retire(old(Abs()))
    {
      if pending.None? { return; }
      WriteCompletion(pending.value);
      Clear();
    }

    method OnMotionNote(id: Option<nat>, raises: bool)
      modifies this
      ensures Abs() == ReceiveMotion(old(Abs()), id, raises)
    {
      if id.Some? { WriteRequest(id.value); }
      if pending.Some? {
        WriteCompletion(pending.value);
        Clear();
      }
      if raises {
        if id.Some? { WriteCompletion(id.value); }
        Clear();
        return;
      }
      pending, moveStarted, idleTicks := id, false, 0;
    }

    method OnHaltNote(id: Option<nat>)
      modifies this
      ensures Abs() == ReceiveHalt(old(Abs()), id)
    {
      if id.Some? { WriteRequest(id.value); }
      CancelPending();
      if id.Some? { WriteCompletion(id.value); }
    }

    method OnDobotTick(r: Reading)
      modifies this
      ensures Abs() == DobotTick(old(Abs()), r)
    {
      match r
      case NoFrame => return;
      case InError => NoteError();
      case Busy => NoteBusyStarted();
      case Done =>
        NoteCompletion();
        NoteIdleTick();
    }

    method OnEpsonTick(errorCode: int, busy: bool, done: bool)
      modifies this
      ensures Abs() == EpsonTick(old(Abs()), errorCode, busy, done)
    {
      if errorCode != 0 {
        NoteError();
      } else if busy {
        NoteBusyStarted();
      } else if done {
        NoteCompletion();
      }
    }
  }

  // ---------------------------------------------------------------- the invariant

  function LastOr0(s: seq<nat>): nat {
    if s == [] then 0 else s[|s| - 1]
  }

  predicate Increasing(s: seq<nat>) {
    (forall i | 0 <= i < |s| :: s[i] > 0) && forall i, j | 0 <= i < j < |s| :: s[i] < s[j]
  }

  /**
    Between notes: every request ever announced has been retired, in order and once, except the
    pending one, which is the last.
  */
  ghost predicate WorkerInv(w: Worker) {
    && Increasing(w.requests)
    && w.requests == w.completions + (if w.pending.Some? then [w.pending.value] else [])
    && w.lastRequest == LastOr0(w.requests) && w.lastCompleted == LastOr0(w.completions)
    && (w.pending.None? ==> !w.moveStarted && w.idleTicks == 0)
    && (w.idleTicks > 0 ==> !w.moveStarted && w.idleTicks < w.threshold)
  }

  /** What the board shows: pending is the newest id, or the two ids are equal. */
  lemma BoardDichotomy(w: Worker)
    requires WorkerInv(w)
    ensures if w.pending.Some? then w.pending.value == w.lastRequest && w.lastCompleted < w.lastRequest
            else w.lastCompleted == w.lastRequest
  {
    if w.pending.Some? && w.completions != [] {
      assert w.requests[|w.completions| - 1] < w.requests[|w.requests| - 1];
    }
  }

  // ---------------------------------------------------------------- one worker and its note queue

  datatype Note = MotionNote(id: Option<nat>) | HaltNote(id: Option<nat>)

  /** The notes passed and not yet delivered, and the next id the process-wide counter will give. */
  datatype System = System(worker: Worker, queue: seq<Note>, nextId: nat)

  datatype Action =
    | Send(motion: bool, tracked: bool)     // pass a note, with a new id when tracked
    | Elsewhere                             // some other sender draws an id
    | Deliver(raises: bool)                 // the receiver of the oldest note runs
    | ReadHardware(hardware: Hardware)

  function Receive(w: Worker, n: Note, raises: bool): Worker {
    match n
    case MotionNote(id) => ReceiveMotion(w, id, raises)
    case HaltNote(id) => ReceiveHalt(w, id)
  }

  function Act(s: System, a: Action): System {
    match a
    case Send(motion, tracked) =>
      var id := if tracked then Some(s.nextId) else None;
      System(s.worker, s.queue + [if motion then MotionNote(id) else HaltNote(id)],
             if tracked then s.nextId + 1 else s.nextId)
    case Elsewhere => s.(nextId := s.nextId + 1)
    case Deliver(raises) =>
      if s.queue == [] then s
      else System(Receive(s.worker, s.queue[0], raises), s.queue[1..], s.nextId)
    case ReadHardware(hw) => s.(worker := HardwareTick(s.worker, hw))
  }

  function ActAll(s: System, actions: seq<Action>): System
    decreases |actions|
  {
    if actions == [] then s else ActAll(Act(s, actions[0]), actions[1..])
  }

  /** Queued ids lie above `low` and below `high` and grow along the queue. */
  ghost predicate IdsBetween(low: nat, queue: seq<Note>, high: nat) {
    && (forall i | 0 <= i < |queue| && queue[i].id.Some? :: low < queue[i].id.value < high)
    && (forall i, j | 0 <= i < j < |queue| && queue[i].id.Some? && queue[j].id.Some? ::
          queue[i].id.value < queue[j].id.value)
  }

  ghost predicate SystemInv(s: System) {
    && WorkerInv(s.worker)
    && s.worker.lastRequest < s.nextId
    && IdsBetween(s.worker.lastRequest, s.queue, s.nextId)
  }

  lemma RetireKeepsInv(w: Worker)
    requires WorkerInv(w)
    ensures WorkerInv(Retire(w)) && Retire(w).pending.None? && Retire(w).requests == w.requests
    ensures Retire(w).completions == w.requests
  {
  }

  lemma AppendIncreasing(s: seq<nat>, id: nat)
    requires Increasing(s) && LastOr0(s) < id
    ensures Increasing(s + [id])
  {
    if s != [] {
      forall i | 0 <= i < |s| ensures s[i] < id { assert i < |s| - 1 ==> s[i] < s[|s| - 1]; }
    }
  }

  lemma ReceiveMotionKeepsInv(w: Worker, id: Option<nat>, raises: bool)
    requires WorkerInv(w) && (id.Some? ==> w.lastRequest < id.value)
    ensures var w' := ReceiveMotion(w, id, raises);
            && WorkerInv(w')
            && w'.requests == w.requests + (if id.Some? then [id.value] else [])
            && w.completions <= w'.completions && w.requests <= w'.requests
            && w'.pending == if raises then None else id
  {
    if id.Some? { AppendIncreasing(w.requests, id.value); }
    RetireKeepsInv(w);
  }

  lemma ReceiveHaltKeepsInv(w: Worker, id: Option<nat>)
    requires WorkerInv(w) && (id.Some? ==> w.lastRequest < id.value)
    ensures var w' := ReceiveHalt(w, id);
            && WorkerInv(w') && w'.pending.None?
            && w'.requests == w'.completions == w.requests + (if id.Some? then [id.value] else [])
            && w.completions <= w'.completions
  {
    if id.Some? { AppendIncreasing(w.requests, id.value); }
    RetireKeepsInv(w);
  }

  lemma TickKeepsWorkerInv(w: Worker, r: Reading)
    requires WorkerInv(w)
    ensures var w' := DobotTick(w, r);
            WorkerInv(w') && w'.requests == w.requests && w.completions <= w'.completions
  {
    RetireKeepsInv(w);
  }

  /** The note sent last gets the largest id, and delivering the first leaves only larger ones queued. */
  lemma SendKeepsIds(low: nat, queue: seq<Note>, high: nat, n: Note)
    requires low < high && IdsBetween(low, queue, high) && (n.id.Some? ==> n.id.value == high)
    ensures IdsBetween(low, queue + [n], if n.id.Some? then high + 1 else high)
  {
  }

  lemma DeliverKeepsIds(low: nat, queue: seq<Note>, high: nat)
    requires queue != [] && IdsBetween(low, queue, high)
    ensures IdsBetween(if queue[0].id.Some? then queue[0].id.value else low, queue[1..], high)
  {
  }

  lemma ReceiveKeepsInv(w: Worker, n: Note, raises: bool)
    requires WorkerInv(w) && (n.id.Some? ==> w.lastRequest < n.id.value)
    ensures var w' := Receive(w, n, raises);
            && WorkerInv(w') && w.completions <= w'.completions && w.requests <= w'.requests
            && w'.lastRequest == if n.id.Some? then n.id.value else w.lastRequest
  {
    match n
    case MotionNote(id) => ReceiveMotionKeepsInv(w, id, raises);
    case HaltNote(id) => ReceiveHaltKeepsInv(w, id);
  }

  lemma EpsonKeepsInv(w: Worker, errorCode: int, busy: bool, done: bool)
    requires WorkerInv(w)
    ensures var w' := EpsonTick(w, errorCode, busy, done);
            WorkerInv(w') && w'.requests == w.requests && w.completions <= w'.completions
  {
    RetireKeepsInv(w);
  }

  /** Whichever arm it is and whatever it reports, and with nothing pending the report changes nothing. */
  lemma HardwareKeepsInv(w: Worker, hw: Hardware)
    requires WorkerInv(w)
    ensures var w' := HardwareTick(w, hw);
            && WorkerInv(w') && w'.requests == w.requests && w.completions <= w'.completions
            && (w.pending.None? ==> w' == w)
  {
    match hw
    case Dobot(r) => TickKeepsWorkerInv(w, r);
    case Epson(e, b, d) => EpsonKeepsInv(w, e, b, d);
  }

  lemma ActKeepsInv(s: System, a: Action)
    requires SystemInv(s)
    ensures var s' := Act(s, a);
            && SystemInv(s')
            && s.worker.completions <= s'.worker.completions && s.worker.requests <= s'.worker.requests
  {
    match a
    case Send(motion, tracked) =>
      var id := if tracked then Some(s.nextId) else None;
      SendKeepsIds(s.worker.lastRequest, s.queue, s.nextId, if motion then MotionNote(id) else HaltNote(id));
    case Deliver(raises) =>
      if s.queue != [] {
        ReceiveKeepsInv(s.worker, s.queue[0], raises);
        DeliverKeepsIds(s.worker.lastRequest, s.queue, s.nextId);
      }
    case ReadHardware(hw) => HardwareKeepsInv(s.worker, hw);
    case Elsewhere =>
  }

  /**
    In every reachable state, under any mix of motions, overlaps, raising dispatches, halts,
    errors and grace: the completions are the requests in order, each once, short of the pending
    one; queued ids are larger than every request so far; and what has been completed stays completed.
  */
  lemma {:induction false} ProtocolInvariant(s: System, actions: seq<Action>)
    requires SystemInv(s)
    ensures var s' := ActAll(s, actions);
            && SystemInv(s')
            && s.worker.completions <= s'.worker.completions && s.worker.requests <= s'.worker.requests
    decreases |actions|
  {
    if actions != [] {
      ActKeepsInv(s, actions[0]);
      ProtocolInvariant(Act(s, actions[0]), actions[1..]);
    }
  }

  /** last_completed_id never decreases. */
  lemma CompletedNeverDecreases(s: System, actions: seq<Action>)
    requires SystemInv(s)
    ensures s.worker.lastCompleted <= ActAll(s, actions).worker.lastCompleted
  {
    ProtocolInvariant(s, actions);
    var w, w' := s.worker, ActAll(s, actions).worker;
    if w.completions != [] {
      assert w.completions[|w.completions| - 1] == w'.completions[|w.completions| - 1] ==
          w'.requests[|w.completions| - 1];
      assert w'.completions[|w'.completions| - 1] == w'.requests[|w'.completions| - 1];
    }
  }

  // ---------------------------------------------------------------- when a request is retired

  /** A tick retires the pending request only on an error, a finished move, or the last grace tick. */
  lemma WhyTickRetires(w: Worker, r: Reading)
    requires WorkerInv(w) && w.pending.Some?
    ensures DobotTick(w, r).pending.None? <==>
              r == InError || (r == Done && (w.moveStarted || (w.threshold > 0 && w.idleTicks + 1 >= w.threshold)))
    ensures DobotTick(w, r).pending.None? ==> DobotTick(w, r).lastCompleted == w.pending.value
    ensures DobotTick(w, r).moveStarted <==> DobotTick(w, r).pending.Some? && (w.moveStarted || r == Busy)
  {
  }

  function Ticked(w: Worker, rs: seq<Reading>): Worker
    decreases |rs|
  {
    if rs == [] then w else Ticked(DobotTick(w, rs[0]), rs[1..])
  }

  function DoneCount(rs: seq<Reading>): nat {
    if rs == [] then 0 else (if rs[0] == Done then 1 else 0) + DoneCount(rs[1..])
  }

  /**
    No-op grace: a dispatched request that never shows Busy is retired on exactly its N-th idle
    reading; missing frames do not count, and without a threshold it is never retired this way.
  */
  lemma {:induction false} GraceRetiresOnNth(w: Worker, rs: seq<Reading>)
    requires WorkerInv(w) && w.pending.Some? && !w.moveStarted
    requires forall i | 0 <= i < |rs| :: rs[i] == Done || rs[i] == NoFrame
    ensures var w' := Ticked(w, rs);
            if w.threshold > 0 && w.idleTicks + DoneCount(rs) >= w.threshold then
              w'.pending.None? && w'.lastCompleted == w.pending.value
            else
              w'.pending == w.pending && !w'.moveStarted
              && w'.idleTicks == w.idleTicks + if w.threshold > 0 then DoneCount(rs) else 0
    decreases |rs|
  {
    if rs != [] {
      var w1 := DobotTick(w, rs[0]);
      TickKeepsWorkerInv(w, rs[0]);
      if w1.pending.None? {
        NothingPendingStays(w1, rs[1..]);
      } else {
        GraceRetiresOnNth(w1, rs[1..]);
      }
    }
  }

  lemma {:induction false} NothingPendingStays(w: Worker, rs: seq<Reading>)
    requires w.pending.None?
    ensures Ticked(w, rs) == w
    decreases |rs|
  {
    if rs != [] { NothingPendingStays(w, rs[1..]); }
  }

  /** Once Busy has been seen, the next Done or error retires the request, and nothing else does. */
  lemma {:induction false} MoveRetiresOnDone(w: Worker, rs: seq<Reading>)
    requires WorkerInv(w) && w.pending.Some? && w.moveStarted
    ensures var w' := Ticked(w, rs);
            if exists i | 0 <= i < |rs| :: rs[i] == Done || rs[i] == InError then
              w'.pending.None? && w'.lastCompleted == w.pending.value
            else w' == w
    decreases |rs|
  {
    if rs != [] {
      var w1 := DobotTick(w, rs[0]);
      TickKeepsWorkerInv(w, rs[0]);
      if w1.pending.None? {
        assert rs[0] == Done || rs[0] == InError;
        NothingPendingStays(w1, rs[1..]);
      } else {
        MoveRetiresOnDone(w1, rs[1..]);
        assert forall i | 1 <= i < |rs| :: rs[i] == rs[1..][i - 1];
        if i :| 0 <= i < |rs| && (rs[i] == Done || rs[i] == InError) { assert rs[1..][i - 1] == rs[i]; }
      }
    }
  }

  // ---------------------------------------------------------------- the same for an LS6

  /** The three flags of one LS6 reading. */
  datatype Flags = Flags(errorCode: int, busy: bool, done: bool)

  /** An LS6 frame retires the pending request exactly on an error, or on done, not busy, after busy was seen. */
  lemma WhyLs6Retires(w: Worker, f: Flags)
    requires WorkerInv(w) && w.pending.Some?
    ensures var w' := EpsonTick(w, f.errorCode, f.busy, f.done);
            && (w'.pending.None? <==> f.errorCode != 0 || (!f.busy && f.done && w.moveStarted))
            && (w'.pending.None? ==>
                  w'.lastCompleted == w.pending.value && w'.completions == w.completions + [w.pending.value])
            && (w'.pending.Some? ==> w'.pending == w.pending && w'.completions == w.completions)
            && (w'.moveStarted <==> w'.pending.Some? && (w.moveStarted || f.busy))
            && w'.requests == w.requests
  {
  }

  function Ls6Ticked(w: Worker, fs: seq<Flags>): Worker
    decreases |fs|
  {
    if fs == [] then w else Ls6Ticked(EpsonTick(w, fs[0].errorCode, fs[0].busy, fs[0].done), fs[1..])
  }

  lemma {:induction false} NothingPendingStaysLs6(w: Worker, fs: seq<Flags>)
    requires w.pending.None?
    ensures Ls6Ticked(w, fs) == w
    decreases |fs|
  {
    if fs != [] { NothingPendingStaysLs6(w, fs[1..]); }
  }

  /**
    The first frame with an error, or with done after a busy one, retires the request, however many
    frames come before and after it; an LS6 has no grace for a motion that never shows busy.
  */
  lemma {:induction false} Ls6RetiresOnDone(w: Worker, fs: seq<Flags>)
    requires WorkerInv(w) && w.pending.Some?
    ensures var w' := Ls6Ticked(w, fs);
            if exists i | 0 <= i < |fs| :: EndsMove(w.moveStarted, fs, i) then
              w'.pending.None? && w'.lastCompleted == w.pending.value
            else w'.pending == w.pending && w'.completions == w.completions
    decreases |fs|
  {
    if fs != [] {
      var w1 := EpsonTick(w, fs[0].errorCode, fs[0].busy, fs[0].done);
      WhyLs6Retires(w, fs[0]);
      EpsonKeepsInv(w, fs[0].errorCode, fs[0].busy, fs[0].done);
      if w1.pending.None? {
        assert EndsMove(w.moveStarted, fs, 0);
        NothingPendingStaysLs6(w1, fs[1..]);
      } else {
        Ls6RetiresOnDone(w1, fs[1..]);
        EndsMoveTail(w.moveStarted, w1.moveStarted, fs, fs[1..]);
      }
    }
  }

  /** Busy has been seen before frame i. */
  ghost predicate SeenBusy(started: bool, fs: seq<Flags>, i: nat)
    requires i <= |fs|
  {
    started || exists j | 0 <= j < i :: fs[j].busy
  }

  /** Frame i is an error, or done without busy when busy was seen before it. */
  ghost predicate EndsMove(started: bool, fs: seq<Flags>, i: nat)
    requires i < |fs|
  {
    fs[i].errorCode != 0 || (!fs[i].busy && fs[i].done && SeenBusy(started, fs, i))
  }

  lemma SeenBusyTail(started: bool, seen: bool, fs: seq<Flags>, rest: seq<Flags>, i: nat)
    requires fs != [] && rest == fs[1..] && seen == (started || fs[0].busy) && i < |fs|
    ensures SeenBusy(started, fs, i + 1) <==> SeenBusy(seen, rest, i)
  {
    if j :| 0 <= j < i + 1 && fs[j].busy { if j > 0 { assert rest[j - 1].busy; } }
    if j :| 0 <= j < i && rest[j].busy { assert fs[j + 1].busy; }
    assert fs[0].busy ==> SeenBusy(started, fs, i + 1);
  }

  lemma EndsMoveTail(started: bool, seen: bool, fs: seq<Flags>, rest: seq<Flags>)
    requires fs != [] && rest == fs[1..] && seen == (started || fs[0].busy) && !EndsMove(started, fs, 0)
    ensures (exists i | 0 <= i < |fs| :: EndsMove(started, fs, i)) <==>
            (exists i | 0 <= i < |rest| :: EndsMove(seen, rest, i))
  {
    hide SeenBusy;
    if i :| 0 <= i < |fs| && EndsMove(started, fs, i) {
      SeenBusyTail(started, seen, fs, rest, i - 1);
      assert rest[i - 1] == fs[i] && EndsMove(seen, rest, i - 1);
    }
    if i :| 0 <= i < |rest| && EndsMove(seen, rest, i) {
      SeenBusyTail(started, seen, fs, rest, i);
      assert fs[i + 1] == rest[i] && EndsMove(started, fs, i + 1);
    }
  }
}
