# AutoWeaver, modelled and proved

AutoWeaver is a behaviour-tree kernel for robot cells. This project models the parts of it where
many small stateful objects have to agree, and proves what they promise together. To verify it:
`dafny verify dfyconfig.toml`.

**Trees.** `BehaviorTree.dfy` gives the tick and halt semantics of all built-in control and decorator
nodes as functions on tree values; a leaf is an oracle that may answer anything, depending on
everything that happened before. `TreeInvariants.dfy`, `ControlVerdicts.dfy`, `LeafProtocol.dfy`,
`DecoratorRuns.dfy`, `DecoratorVerdicts.dfy` and `ForEachWrites.dfy` prove what every run keeps, and `TickBudget.dfy` bounds
the work of a tick and of a whole run. `Flattening.dfy` defines a normal form that forgets stale
memory and splices operator-built nests, proves that ticking and halting respect it, and obtains both
"rerun equals fresh" and "flattening preserves meaning" from that; `OperatorTrees.dfy` says what
shape the operators build. `TreeNodes.dfy` is the same tree
as mutable node objects and proves that the objects do what the values say, ticking each node at
most once.

**Batches and the clock.** `Batches.dfy` and `ClockSlot.dfy` are the lifecycle and the exclusive slot
on values, with ticks that raise and leave the tree in any state; `Kernel.dfy` is `Batch` and
`BTClock` as objects over node objects, refining them.

**Motion requests.** `Motion.dfy` is the one-slot request machine of a MotionWorker, as a class and
as a value, with the Dobot and LS6 edge detection and a note queue. `EndToEnd.dfy` closes the loop
from a Sequence of NotifyAndWait leaves through the note queue to the worker and back, one clock
tick at a time: notes are delivered, the tree is ticked on a snapshot, the worker reads hardware
that may report anything. `Servo.dfy` is the look-then-move leaf and its controller.
`WorldBoards.dfy` is the board both sides talk over.

**Frames.** `FrameGraph.dfy` proves, over an abstract group, exactly when lookup is functorial, and
that it always is on forests; `FrameLookup.dfy` is the container with breadth-first search, and
`Rigid.dfy` shows that rigid transforms over exact reals are such a group. `Unwrap.dfy` is Euler
unwrapping.

**Delivery, vision, PDO images.** `Delivery.dfy` interleaves producer, delivery thread and closer at
the granularity of locked methods and single flag accesses, drain's reads included. `Nms.dfy` and
`Tiles.dfy` are the pipeline algorithms, and `Overlap.dfy` shows that the ratio they go by is that of
the areas covered. `Codec.dfy` and `Scara.dfy` are the byte and bit codec and
the staged submit with its trigger handshake, in which status reads may overlap.

Assumptions: a tree has no shared nodes; leaves return SUCCESS, FAILURE or RUNNING or raise;
`on_halted` does not raise; a tree is always ticked with a tick context; a worker is attached once
and all request ids come from the process-wide counter, started at 1 and drawn in increasing order.
Where the documentation and the code disagree the code is followed: `drain()` may report success
while an item is in hand or one offered meanwhile is queued (`Delivery.WhatDrainedMeans` says exactly
what its success means), a status read may lower the trigger of a goal submitted after the done it
saw (`Scara.EdgesAreSeparatedByDone`), and `values_of(key, 0)` returns everything.

## Model

| member | source | states |
|---|---|---|
| `TreeInvariants.TickKeepsSound` | src/autoweaver/motion_policy/nodes/node.py:39-63 | Ticking keeps the invariant between ticks: every node rests in IDLE or RUNNING, an IDLE node has no RUNNING descendant, a RUNNING Sequence or Fallback has exactly its remembered child RUNNING; and a tick never returns IDLE |
| `TreeInvariants.HaltKeepsSound` | src/autoweaver/motion_policy/nodes/control/base.py:14-17 | Halting a tree between ticks leaves every node of it IDLE |
| `TreeInvariants.HaltIdleIsNoop` | src/autoweaver/motion_policy/nodes/node.py:141-146 | Halting an idle tree changes nothing and calls no leaf |
| `TreeInvariants.ChildAfterTick` | src/autoweaver/motion_policy/nodes/control/parallel.py:18-40 | A child that did not return RUNNING is idle all through after its tick, one that did is RUNNING and sound |
| `TreeInvariants.NoOrphans` | src/autoweaver/motion_policy/nodes/node.py:39-63 | No orphaned RUNNING node: the invariant holds after every sequence of ticks and halts, for every tree of built-in nodes |
| `ControlVerdicts.WalkVerdict` | src/autoweaver/motion_policy/nodes/control/premise.py:18-30 | A walk over children ticks a prefix of them in order, all but the last returning the going-on status; the last one decides; children after it are halted in order on a terminal verdict and left exactly as they were, RUNNING ones included, when it is RUNNING |
| `ControlVerdicts.ResumedVerdict` | src/autoweaver/motion_policy/nodes/control/sequence.py:12-36 | The same for a Sequence or Fallback pass started or resumed at its remembered child: the children before it are not touched |
| `ControlVerdicts.PremiseVerdict` | src/autoweaver/motion_policy/nodes/control/premise.py:18-30 | Premise starts over at the first child, succeeds exactly when every child does, and going RUNNING leaves every later child exactly as it was, RUNNING ones included |
| `ControlVerdicts.ParallelVerdict` | src/autoweaver/motion_policy/nodes/control/parallel.py:18-40 | Every child is ticked; SUCCESS iff enough succeeded in this tick, FAILURE iff too many failed; a terminal verdict leaves no child RUNNING; while undecided some child is RUNNING and finished ones start afresh next tick |
| `ControlVerdicts.PremiseLeavesLaterRunning` | src/autoweaver/motion_policy/nodes/control/premise.py:18-30 | A reachable Premise has two RUNNING children: going RUNNING at an earlier child does not halt a later one |
| `LeafProtocol.RunProtocol` | src/autoweaver/motion_policy/nodes/node.py:39-63 | After any run from construction the calls each leaf received follow on_start, then on_running or on_halted while RUNNING, and end in the status its node has |
| `LeafProtocol.LeafConservation` | src/autoweaver/motion_policy/nodes/node.py:141-151 | For each leaf of a tree without shared nodes: runs that went RUNNING = runs that then finished + on_halted calls + 1 if still RUNNING; no start while RUNNING, no continue or halt while resting |
| `LeafProtocol.OneTickPerLeaf` | src/autoweaver/motion_policy/nodes/control/sequence.py:19-32 | One root tick asks every leaf at most once and no other leaf, in every reachable state |
| `TickBudget.TickCost` | src/autoweaver/motion_policy/nodes/node.py:39-63 | Work per tick, for any tree in any state: calls made, halts, blackboard writes and exit tests included, plus leaves left RUNNING are at most the leaves that were RUNNING plus two for every node |
| `TickBudget.HaltCost` | src/autoweaver/motion_policy/nodes/node.py:141-146 | A halt makes exactly one call for every RUNNING leaf and leaves none RUNNING |
| `TickBudget.RunCost` | src/autoweaver/motion_policy/nodes/node.py:39-63 | Over any run from construction all calls together are at most two for every node and tick: every halt was paid for by the tick that left the leaf RUNNING |
| `LeafProtocol.TickOnlyAppends` | src/autoweaver/motion_policy/nodes/node.py:39-63 | A tick only adds calls after those already made |
| `Flattening.SameNormSameRuns` | src/autoweaver/motion_policy/nodes/node.py:141-151 | Trees with one normal form (stale memory erased, operator-built nests spliced) return the same statuses and make the same calls under every sequence of ticks and halts |
| `Flattening.RerunEqualsFresh` | src/autoweaver/motion_policy/nodes/node.py:148-151 | A tree whose nodes are all IDLE, whatever indexes, counters and start times a halt left behind, runs forever after like a newly built tree of its shape |
| `Flattening.HaltedEqualsFresh` | src/autoweaver/motion_policy/nodes/control/base.py:14-17 | In particular after any run that ends in a halt |
| `Flattening.FlatteningPreservesMeaning` | src/autoweaver/motion_policy/nodes/node.py:172-200 | For every expression over >>, & and | the flattened tree the operators build and the tree with two children per operator give the same statuses and the same start, continue and halt calls under every run |
| `OperatorTrees.FlatIsFlat` | src/autoweaver/motion_policy/nodes/node.py:172-200 | A chain of one operator, however bracketed, builds one node of the right kind whose children are its operands in order, no child of it being such a node again |
| `OperatorTrees.LeavesAsWritten` | src/autoweaver/motion_policy/nodes/node.py:172-238 | The leaves of the built tree stand in the order they are written in the expression |
| `DecoratorRuns.CountedTick` | src/autoweaver/motion_policy/nodes/decorator/repeat.py:20-33 | One tick of Repeat or Retry makes exactly the calls its child makes alone and stays RUNNING until the counted verdicts reach the limit |
| `DecoratorRuns.RepeatAndRetryCount` | src/autoweaver/motion_policy/nodes/decorator/retry.py:20-33 | Over an un-halted run the child is driven as if ticked alone; Repeat succeeds after exactly max(1,count) child successes, Retry fails after exactly max(1,max_attempts) child failures, and the other verdict ends either at once |
| `DecoratorRuns.ForEachTick` | src/autoweaver/motion_policy/nodes/decorator/foreach.py:72-85 | Only a successful pass moves on, to the next item, written before the child is started again; a failed or running pass writes nothing |
| `DecoratorRuns.ForEachRun` | src/autoweaver/motion_policy/nodes/decorator/foreach.py:62-85 | A ForEach run succeeds exactly when as many passes succeeded as there are items, and then no pass failed |
| `ForEachWrites.TickSilent` | src/autoweaver/motion_policy/nodes/decorator/foreach.py:84-85 | A tree without a ForEach over a key writes nothing under it |
| `ForEachWrites.ForEachWritesInOrder` | src/autoweaver/motion_policy/nodes/decorator/foreach.py:62-85 | Over an un-halted run a ForEach writes its items in order from the first, and has written each exactly once by the time it succeeds |
| `DecoratorRuns.ForEachOfNothing` | src/autoweaver/motion_policy/nodes/decorator/foreach.py:62-68 | Over no items ForEach succeeds at once without ticking its child |
| `DecoratorVerdicts.LeafTick` | src/autoweaver/motion_policy/nodes/node.py:39-63 | A resting leaf is started, a running one continued; SUCCESS, FAILURE and RUNNING are its own answer, an exception is FAILURE and recorded for good |
| `DecoratorVerdicts.RaiseFails` | src/autoweaver/motion_policy/nodes/node.py:39-63 | A decorator that raises has failed, whatever it was doing |
| `DecoratorVerdicts.InverterTick` | src/autoweaver/motion_policy/nodes/decorator/inverter.py:8-20 | The same calls as the child; SUCCESS exactly when the child failed, FAILURE exactly when it succeeded |
| `DecoratorVerdicts.ForceSuccessTick` | src/autoweaver/motion_policy/nodes/decorator/force_success.py:8-18 | The same calls as the child; never FAILURE, RUNNING exactly when the child is |
| `DecoratorVerdicts.RepeatUntilTick` | src/autoweaver/motion_policy/nodes/decorator/repeat_until.py:53-69 | One tick ticks the child once and asks the exit predicate exactly after a success: SUCCESS exactly when it answers true, FAILURE exactly when the child fails or the predicate raises |
| `DecoratorVerdicts.RepeatUntilRun` | src/autoweaver/motion_policy/nodes/decorator/repeat_until.py:53-69 | Over an un-halted run the predicate is asked once after each success of the child and never otherwise; the run goes on while it answers false or the child is RUNNING, and ends SUCCESS exactly when the last answer is true, FAILURE exactly on a child failure or a raising predicate |
| `DecoratorVerdicts.TimeoutTick` | src/autoweaver/motion_policy/nodes/decorator/timeout.py:19-34 | A tick later than the limit after the first one does not tick the child, halts it and fails; any other is the tick of the child, and the first tick stays the one counted from |
| `DecoratorVerdicts.TimeoutRun` | src/autoweaver/motion_policy/nodes/decorator/timeout.py:19-34 | Over an un-halted run the child is driven exactly as if ticked alone until a tick comes later than the limit after the first tick; that one halts it and fails |
| `TreeNodes.TreeNode.OfLeaf` | src/autoweaver/motion_policy/nodes/node.py:29-37 | A new leaf node is IDLE |
| `TreeNodes.TreeNode.OfControl` | src/autoweaver/motion_policy/nodes/control/base.py:9-12 | A new control node over separate child trees is IDLE and keeps the children in order |
| `TreeNodes.TreeNode.OfDecorator` | src/autoweaver/motion_policy/nodes/decorator/base.py:7-9 | A new decorator node is IDLE with a cleared counter and start time |
| `TreeNodes.TreeNode.Halt` | src/autoweaver/motion_policy/nodes/decorator/base.py:11-13 | The node objects and the calls made end up as the tree semantics says: children halted first, own status last |
| `TreeNodes.TreeNode.Tick` | src/autoweaver/motion_policy/nodes/node.py:39-63 | Ticking the objects in place refines the tick semantics: new state of every node, status returned, calls made, exception recorded; and tick is called on no node outside the tree and on each node of it at most once |
| `TreeNodes.TicksAreFew` | src/autoweaver/motion_policy/nodes/node.py:39-63 | Calls of tick that reach each node at most once are no more than the nodes: the work of a tick is bounded by the size of the tree |
| `TreeNodes.TreeNode.Reset` | src/autoweaver/motion_policy/nodes/node.py:148-151 | Reset clears status and, by kind, index, counter and start time, and keeps the recorded exception |
| `TreeNodes.TreeNode.PassControl` | src/autoweaver/motion_policy/nodes/control/fallback.py:12-36 | on_start and on_running of the four control nodes refine the pass on values, index included |
| `TreeNodes.TreeNode.WalkChildren` | src/autoweaver/motion_policy/nodes/control/sequence.py:19-36 | The in-place loop over children equals the recursive walk: same children, verdict, calls and resume index; each node below is ticked at most once |
| `TreeNodes.TreeNode.PollChildren` | src/autoweaver/motion_policy/nodes/control/parallel.py:18-30 | The counting loop over all children equals the recursive poll |
| `TreeNodes.TreeNode.HaltFrom` | src/autoweaver/motion_policy/nodes/control/premise.py:28-30 | Halting the children from a position on leaves the earlier ones alone |
| `TreeNodes.TreeNode.HaltRunningChildren` | src/autoweaver/motion_policy/nodes/control/parallel.py:37-40 | Only the RUNNING children are halted |
| `TreeNodes.TreeNode.PassDecorator` | src/autoweaver/motion_policy/nodes/decorator/base.py:5-13 | on_start and on_running of the seven decorators refine the pass on values: child, counter, start time, exception |
| `TreeNodes.TreeNode.PassForEach` | src/autoweaver/motion_policy/nodes/decorator/foreach.py:62-67 | ForEach: the first item is written at the start; no items end it at once |
| `TreeNodes.TreeNode.PassUntil` | src/autoweaver/motion_policy/nodes/decorator/repeat_until.py:53-69 | RepeatUntil on objects: the predicate is asked after a successful pass only; what its answers mean is DecoratorVerdicts.RepeatUntilTick |
| `TreeNodes.TreeNode.PassTimeout` | src/autoweaver/motion_policy/nodes/decorator/timeout.py:19-34 | Timeout: the deadline is tested before the child is ticked, and halts it |
| `TreeNodes.TreeNode.PassParallel` | src/autoweaver/motion_policy/nodes/control/parallel.py:18-40 | Parallel: every child ticked, thresholds tested in this order, RUNNING children halted on a verdict |
| `TreeNodes.TreeNode.TickCounted` | src/autoweaver/motion_policy/nodes/decorator/retry.py:20-33 | The shared counting pass of Repeat and Retry, child halted between passes |
| `TreeNodes.TreeNode.TickItem` | src/autoweaver/motion_policy/nodes/decorator/foreach.py:69-85 | The ForEach pass once the item is on the blackboard |
| `Batches.TickKeepsInv` | src/autoweaver/motion_policy/batch.py:309-347 | A tick keeps: result set iff EXITED, outcome pending iff on the exit path, main tree all IDLE there |
| `Batches.RunKeepsInv` | src/autoweaver/motion_policy/batch.py:418-435 | The same for every run of ticks, raising ticks, kills and shutdowns, so at each teardown tick every main-tree node is IDLE |
| `Batches.ReasonSurvives` | src/autoweaver/motion_policy/batch.py:437-517 | Once decided, the exit reason survives teardown success, failure, kills and shutdown; only a raising tick rewrites it |
| `Batches.MainLeavesLeftAlone` | src/autoweaver/motion_policy/batch.py:392-416 | Once on the exit path no main-tree leaf is ever started, continued or halted again, whatever is done to the Batch, raising ticks included |
| `Batches.FirstRaisedIsFirst` | src/autoweaver/motion_policy/batch.py:546-558 | The failed node named in a result has recorded an exception, and no node before it in reading order has |
| `Batches.KillTwice` | src/autoweaver/motion_policy/batch.py:349-386 | A second kill changes nothing and calls nobody |
| `Batches.OutcomeOfTick` | src/autoweaver/motion_policy/batch.py:75-93 | Reason by the main tree verdict, teardown outcome by the teardown tree verdict, NONE when there is none |
| `Batches.RecordOfTick` | src/autoweaver/motion_policy/batch.py:309-347 | The final status recorded is the verdict the main tree ended with, which the teardown leaves alone; a tick ticks one tree only, and the Batch is STARTED until its exit is complete |
| `Batches.ExitedTick` | src/autoweaver/motion_policy/batch.py:309-347 | Ticking an EXITED Batch calls nobody and returns the status recorded in its result |
| `Batches.RecordOfKill` | src/autoweaver/motion_policy/batch.py:349-390 | A kill records KILLED and the status the main tree had before it was halted |
| `Batches.RecordOfAbort` | src/autoweaver/motion_policy/batch.py:437-517 | An abort keeps what was decided and otherwise records KILLED, or ERRORED after a raising tick, with the status before the halt; the teardown outcome is ABORTED, or NONE without a teardown tree |
| `Batches.ForcedExit` | src/autoweaver/motion_policy/batch.py:437-517 | After shutdown or a raising tick a Batch has EXITED whatever it was doing, its trees idle |
| `Batches.ExceptionsAreSticky` | src/autoweaver/motion_policy/batch.py:546-558 | A node has recorded an exception exactly when some call raised since construction |
| `Batches.ErroredIffRaised` | src/autoweaver/motion_policy/batch.py:531-558 | A Batch whose main tree fails exits ERRORED exactly when some call into it raised, else FAILED |
| `ClockSlot.SlotIsExclusive` | src/autoweaver/worker/clock.py:144-161 | In every run at most one Batch is attached, attached ones have not EXITED, and detached ones have |
| `ClockSlot.ShutdownEmptiesSlot` | src/autoweaver/worker/clock.py:532-559 | Shutdown leaves the slot empty and every Batch ever accepted EXITED |
| `ClockSlot.SlotFreedOnExit` | src/autoweaver/worker/clock.py:234-246 | Submitting to an occupied slot changes nothing; when the Batch has EXITED the slot is free |
| `Kernel.Batch.constructor` | src/autoweaver/motion_policy/batch.py:204-262 | A new Batch is READY with no result |
| `Kernel.Batch.Tick` | src/autoweaver/motion_policy/batch.py:309-347 | The object refines the lifecycle on values over its two trees of node objects |
| `Kernel.Batch.Kill` | src/autoweaver/motion_policy/batch.py:349-390 | Same for a kill: status recorded before the main tree is halted, ignored when exiting or EXITED |
| `Kernel.Batch.Abort` | src/autoweaver/motion_policy/batch.py:437-517 | Same for the abort path: both trees halted, no teardown run, decided reason kept unless the tick raised |
| `Kernel.Batch.EnterExit` | src/autoweaver/motion_policy/batch.py:418-427 | Without a teardown tree the Batch exits at once |
| `Kernel.Batch.Finalize` | src/autoweaver/motion_policy/batch.py:429-435 | The pending result gets the teardown outcome and the Batch is EXITED |
| `Kernel.Batch.FindRaised` | src/autoweaver/motion_policy/batch.py:546-558 | The walk finds the first node, parents before children and left before right, that has recorded an exception, or none |
| `Kernel.BTClock.constructor` | src/autoweaver/worker/clock.py:82-108 | The slot is empty and nothing has been detached |
| `Kernel.BTClock.Submit` | src/autoweaver/worker/clock.py:117-161 | The clock object refines the slot machine of ClockSlot for a submit: accepted exactly when the Batch is READY, the slot is empty and the workers took the announcement |
| `Kernel.BTClock.Kill` | src/autoweaver/worker/clock.py:163-195 | Refines the slot machine for a kill through the handle: only the attached Batch is reached, and leaves the slot if it has EXITED |
| `Kernel.BTClock.TickOnce` | src/autoweaver/worker/clock.py:400-428 | Refines the slot machine for the batch phase of a tick: the attached Batch is ticked once and leaves the slot when it has EXITED |
| `Kernel.BTClock.OnTickRaised` | src/autoweaver/worker/clock.py:400-428 | Refines the slot machine for a raising tick, whatever tree it left behind: the Batch EXITED as ERRORED and the slot empty |
| `Kernel.BTClock.Shutdown` | src/autoweaver/worker/clock.py:532-559 | Refines the slot machine for a shutdown: kill, abort what teardown would keep alive, empty the slot |
| `Kernel.SlotOfOne` | src/autoweaver/worker/clock.py:400-428 | An operation on a slot with one Batch is that operation on the Batch, which leaves the slot exactly when it has EXITED |
| `Motion.MotionWorker.constructor` | src/autoweaver/worker/motion.py:94-105 | Nothing pending, nothing announced |
| `Motion.MotionWorker.NoteBusyStarted` | src/autoweaver/worker/motion.py:146-156 | Marks the pending motion started once, resetting the grace count |
| `Motion.MotionWorker.NoteCompletion` | src/autoweaver/worker/motion.py:158-170 | Retires the pending request only after busy was seen |
| `Motion.MotionWorker.NoteError` | src/autoweaver/worker/motion.py:172-193 | Retires the pending request whatever its phase |
| `Motion.MotionWorker.NoteIdleTick` | src/autoweaver/worker/motion.py:195-221 | Counts idle ticks before busy and retires at the threshold, if there is one |
| `Motion.MotionWorker.CancelPending` | src/autoweaver/worker/motion.py:223-237 | Retires the pending request; nothing to do without one |
| `Motion.MotionWorker.OnMotionNote` | src/autoweaver/worker/motion.py:248-300 | The object refines the machine for a motion note: announce, force-complete an overlap, dispatch, or retire at once when the dispatch raises |
| `Motion.MotionWorker.OnHaltNote` | src/autoweaver/device/arm/dobot/worker.py:199-223 | A halt announces, retires what is pending, and completes its own id |
| `Motion.MotionWorker.OnDobotTick` | src/autoweaver/device/arm/dobot/worker.py:122-161 | Edges from one feedback frame: none, error, busy, or done with grace |
| `Motion.MotionWorker.OnEpsonTick` | src/autoweaver/device/arm/epson_ls6/worker.py:111-130 | The object refines the machine for the three LS6 flags; when a reading retires the request is Motion.WhyLs6Retires |
| `Motion.BoardDichotomy` | src/autoweaver/worker/motion.py:248-300 | Either pending = last_request_id and last_completed_id is smaller, or nothing is pending and the two are equal |
| `Motion.ReceiveMotionKeepsInv` | src/autoweaver/worker/motion.py:248-300 | After a motion note: its id is announced, everything earlier is completed, and it is pending unless the dispatch raised |
| `Motion.ReceiveHaltKeepsInv` | src/autoweaver/device/arm/dobot/worker.py:199-223 | After a halt nothing is pending and everything announced is completed |
| `Motion.HardwareKeepsInv` | src/autoweaver/device/arm/epson_ls6/worker.py:111-130 | Whatever a Dobot or an LS6 reports, no request is announced and only the pending one may be retired; with nothing pending the report changes nothing |
| `Motion.ProtocolInvariant` | src/autoweaver/worker/motion.py:146-320 | In every reachable state under any mix of motions, overlaps, raising dispatches, halts, errors and grace: completions are the requests in order, each once, short of the pending one; queued ids are larger than all of them; nothing completed is undone |
| `Motion.CompletedNeverDecreases` | src/autoweaver/worker/motion.py:304-315 | last_completed_id never decreases |
| `Motion.WhyTickRetires` | src/autoweaver/device/arm/dobot/worker.py:150-161 | A feedback tick retires the pending request exactly on an error, on done after busy, or on the last grace tick |
| `Motion.GraceRetiresOnNth` | src/autoweaver/worker/motion.py:195-221 | With grace N > 0 a request that never shows busy is retired on exactly its N-th idle frame, and never without grace |
| `Motion.MoveRetiresOnDone` | src/autoweaver/worker/motion.py:158-193 | Once busy was seen, the first done or error frame retires the request and nothing else does |
| `Motion.WhyLs6Retires` | src/autoweaver/device/arm/epson_ls6/worker.py:111-130 | An LS6 reading retires the pending request exactly when it shows an error code, or is not busy and done after busy was seen; busy is noted exactly on a busy reading without an error; the id completed is the pending one |
| `Motion.Ls6RetiresOnDone` | src/autoweaver/device/arm/epson_ls6/worker.py:111-130 | Over LS6 readings: the first one that shows an error, or done and not busy after a busy one, retires the request, and nothing else does |
| `EndToEnd.NotifyAndWait.constructor` | src/autoweaver/motion_policy/nodes/leaf/notify_and_wait.py:67-82 | No request id yet |
| `EndToEnd.NotifyAndWait.OnStart` | src/autoweaver/motion_policy/nodes/leaf/notify_and_wait.py:84-94 | Takes the fresh id, passes one note carrying it, succeeds at once exactly when the board already shows that id or a larger one, and holds the id the trace says it drew |
| `EndToEnd.NotifyAndWait.OnRunning` | src/autoweaver/motion_policy/nodes/leaf/notify_and_wait.py:96-97 | Succeeds exactly when the board shows its id or a larger one, and answers what the leaf oracle of the cell answers for the id drawn at its latest start |
| `EndToEnd.NotifyAndWait.HoldsOn` | src/autoweaver/motion_policy/nodes/leaf/notify_and_wait.py:67-82 | No call of another leaf changes whose id it holds |
| `EndToEnd.NotifyAndWait.Evaluate` | src/autoweaver/motion_policy/nodes/leaf/notify_and_wait.py:117-123 | Succeeds exactly when last_completed_id, 0 if missing, has reached the own id |
| `EndToEnd.NotifyAndWait.Reset` | src/autoweaver/motion_policy/nodes/leaf/notify_and_wait.py:99-101 | Reset forgets the id so that the leaf can run again |
| `EndToEnd.OvertakenLeafSucceeds` | src/autoweaver/motion_policy/nodes/leaf/notify_and_wait.py:117-123 | A leaf whose request was retired by a halt with a larger id, or by a later motion, succeeds at its next tick |
| `EndToEnd.DeliverWaiting` | src/autoweaver/worker/motion.py:248-300 | In a Sequence of NotifyAndWait leaves a note is delivered only to a worker with nothing pending: the overlap branch is never taken |
| `EndToEnd.CellTickWaiting` | src/autoweaver/worker/clock.py:386-442 | One clock tick, with a Dobot or an LS6 at the end: the waiting leaf succeeds exactly when the worker has retired exactly its id, and only then is the next note passed |
| `EndToEnd.ReadingEndsTheWait` | src/autoweaver/worker/clock.py:386-442 | From hardware to tree and on: the leaf waiting for a dispatched motion succeeds at the tick after a reading exactly if that reading retires its request, and the next leaf passes its note in that same tick |
| `EndToEnd.SequenceOfMotions` | src/autoweaver/motion_policy/nodes/leaf/notify_and_wait.py:84-123 | Whole runs, for a Dobot or an LS6 worker, with arbitrary readings and dispatch failures: no overlap; ids announced in leaf order, all but the last retired; the Sequence never fails and succeeds only with all its ids retired in order |
| `FrameGraph.ChosenEdge` | src/autoweaver/frames/frames.py:308-324 | Adjacent frames always have an edge, the same one from either side, dynamic whenever a dynamic one exists |
| `FrameGraph.HopBack` | src/autoweaver/frames/frames.py:292-306 | Hopping back is the inverse of the hop, whichever edge is chosen and however it is stored, and fails exactly when the hop fails |
| `FrameGraph.DecidesIsChosen` | src/autoweaver/frames/frames.py:308-324 | The edge read between two frames is the oldest dynamic one joining them, and the newest static one if there is none |
| `FrameGraph.SomeDecides` | src/autoweaver/frames/frames.py:308-324 | Between adjacent frames exactly one edge is that one |
| `FrameGraph.LookupReadsEdge` | src/autoweaver/frames/frames.py:292-348 | Between two frames joined by edges, lookup(parent, child) is what the deciding edge says: its static matrix, the published pose itself, the identity for an unpublished optional edge, and nothing at all for an unpublished required one |
| `FrameGraph.LookupReadsOnlyEdge` | src/autoweaver/frames/frames.py:292-348 | In particular when the two frames are joined by one edge |
| `FrameGraph.WalkValueJoin` | src/autoweaver/frames/frames.py:230-236 | The value of one walk after another is the product of their values, the later leftmost |
| `FrameGraph.UniquePath` | src/autoweaver/frames/frames.py:267-290 | In a forest, parallel edges allowed, there is at most one simple path between two frames |
| `FrameGraph.PathsCompose` | src/autoweaver/frames/frames.py:197-236 | In a forest two paths end to end are worth the path between their far ends, retraced hops cancelling |
| `FrameGraph.FunctorialIffClosed` | src/autoweaver/frames/frames.py:197-236 | Exactly when lookup is functorial, on any graph whose hops all have values: lookups compose if and only if every round trip of the calibration comes back to the identity |
| `FrameGraph.WalkBack` | src/autoweaver/frames/frames.py:292-306 | Walking back is worth the inverse of the way there |
| `FrameGraph.WalkIsLookup` | src/autoweaver/frames/frames.py:197-236 | Where lookups compose, every walk is worth looking up its end from its start |
| `FrameGraph.ClosedInverts` | src/autoweaver/frames/frames.py:197-236 | Where round trips close, lookup(a,b) is the inverse of lookup(b,a) |
| `FrameGraph.ForestCloses` | src/autoweaver/frames/frames.py:267-290 | On a forest every round trip closes, whatever the edges say and whichever values are missing |
| `FrameGraph.LookupIsFunctorial` | src/autoweaver/frames/frames.py:197-236 | On a forest, for any mix of static and dynamic edges: lookup(c,a) exists whenever lookup(b,a) and lookup(c,b) do, is their product, and is the only possible value |
| `FrameGraph.LookupInverts` | src/autoweaver/frames/frames.py:197-236 | On a forest lookup(a,b) is the inverse of lookup(b,a) |
| `FrameGraph.CycleBreaksFunctoriality` | src/autoweaver/frames/frames.py:197-236 | A ring of three frames that does not close: the direct hop and the way round disagree, so lookup is not functorial |
| `FrameLookup.NeighboursListed` | src/autoweaver/frames/frames.py:144-146 | The frames reached from an adjacency list are exactly the adjacent frames |
| `FrameLookup.TouchingHoldsBetween` | src/autoweaver/frames/frames.py:308-324 | Scanning either endpoint meets the joining edges in the order they were added |
| `FrameLookup.NoShorterWalk` | src/autoweaver/frames/frames.py:267-290 | When the search stops, every walk to the target is at least as long as the level found |
| `FrameLookup.Frames.constructor` | src/autoweaver/frames/frames.py:114-120 | An empty graph |
| `FrameLookup.Frames.AddEdge` | src/autoweaver/frames/frames.py:144-146 | The adjacency lists stay those of the log of edges, a self-loop listed twice |
| `FrameLookup.Frames.BindDynamic` | src/autoweaver/frames/frames.py:148-193 | Fails exactly when this ordered pair is already bound, and then changes nothing |
| `FrameLookup.Frames.Load` | src/autoweaver/frames/frames.py:121-139 | Edges enter in file order; loading stops at the first double binding |
| `FrameLookup.Frames.FindPath` | src/autoweaver/frames/frames.py:267-290 | Terminates on every multigraph; None exactly when no walk exists; otherwise a simple path with as few hops as any walk, every hop adjacent |
| `FrameLookup.Frames.EdgeBetween` | src/autoweaver/frames/frames.py:308-324 | The scan returns the oldest dynamic edge, else the newest static one, else an error |
| `FrameLookup.Frames.HopMatrix` | src/autoweaver/frames/frames.py:292-306 | The value of the deciding edge, inverted from parent to child, or the error of a missing required value; what it says is FrameGraph.LookupReadsEdge |
| `FrameLookup.Frames.Lookup` | src/autoweaver/frames/frames.py:197-236 | Unknown frames reported source first; otherwise the value of a fewest-hop path, or an error exactly because frames are disconnected or a required value on the path is missing |
| `Rigid.RotationIsOrthogonal` | src/autoweaver/frames/transforms.py:157-174 | The rotation test used here is orthogonality of the 3x3 block on both sides |
| `Rigid.InvertIsInverse` | src/autoweaver/frames/transforms.py:177-188 | The closed form is a two-sided inverse |
| `Rigid.MapInvert` | src/autoweaver/frames/transforms.py:177-188 | The inverse maps every point back |
| `Rigid.MapIs` | src/autoweaver/frames/frames.py:238-253 | A point is taken by the rotation rows and then moved by the translation |
| `Rigid.MapCompose` | src/autoweaver/frames/frames.py:238-253 | Mapping by a product is mapping twice |
| `Rigid.PosesFormAGroup` | src/autoweaver/frames/transforms.py:177-195 | Rigid transforms over exact reals satisfy the group laws the graph results assume |
| `Rigid.PointsAgree` | src/autoweaver/frames/frames.py:238-253 | On a forest of rigid edges a point gets the same coordinates directly or through another frame, and comes back unchanged |
| `Delivery.ObservationQueue.constructor` | src/autoweaver/sensor/delivery.py:112-131 | LATEST_ONLY pins the capacity to 1 |
| `Delivery.ObservationQueue.Offer` | src/autoweaver/sensor/delivery.py:150-183 | The whole effect of an offer by policy, refused when closed, and whether it was accepted |
| `Delivery.ObservationQueue.TryTake` | src/autoweaver/sensor/delivery.py:187-204 | The oldest item, if there is one |
| `Delivery.ObservationQueue.TakeDropped` | src/autoweaver/sensor/delivery.py:208-217 | The tally, zeroed as it is read |
| `Delivery.ObservationQueue.Abandon` | src/autoweaver/sensor/delivery.py:219-241 | The items left are returned and charged to the tally |
| `Delivery.ObservationQueue.Close` | src/autoweaver/sensor/delivery.py:250-254 | Refuses further offers and touches nothing else |
| `Delivery.RunKeepsInv` | src/autoweaver/sensor/delivery.py:334-351 | The invariant of queue, thread and closer under every interleaving |
| `Delivery.NothingIsLostSilently` | src/autoweaver/sensor/delivery.py:150-241 | Under every interleaving: delivered is a subsequence of the offers in order; depth at most capacity; without a replacing policy, offers made while open = delivered + in hand + queued + tally, tallies already taken included |
| `Delivery.PolicyKeeps` | src/autoweaver/sensor/delivery.py:78-97 | DROP_NEWEST keeps exactly the accepted offers in order; the other two accept every offer and never lose the newest |
| `Delivery.QueueHoldsNewest` | src/autoweaver/sensor/delivery.py:150-183 | Under a replacing policy the queue always holds the last offers in order: the victim of a full queue is the oldest |
| `Delivery.WhenDrainReturns` | src/autoweaver/sensor/delivery.py:355-369 | A call that finds the queue empty and the idle flag set returns True; the last check of one that does not, and one that finds items queued and the thread gone, False |
| `Delivery.WhenThreadIsGone` | src/autoweaver/sensor/delivery.py:355-369 | Once the thread is found gone, drain answers whether the queue is empty |
| `Delivery.IdleWasSeenEmpty` | src/autoweaver/sensor/delivery.py:334-351 | Over any run, when the idle flag goes up the thread has earlier read an empty queue with everything kept until then delivered, and has taken nothing since |
| `Delivery.HandedOver` | src/autoweaver/sensor/delivery.py:334-351 | An item in hand is handed over, and counted as failed exactly when the observer raises; no other step hands anything over |
| `Delivery.ClosedIsEmpty` | src/autoweaver/sensor/delivery.py:371-395 | After close and thread exit nothing is queued or in hand; what was not delivered is in the tally or named as abandoned |
| `Delivery.ThreadExits` | src/autoweaver/logbook/attachment.py:152-170 | Once the backlog is abandoned at most five own steps of the thread remain, however interleaved |
| `Delivery.WhatDrainedMeans` | src/autoweaver/sensor/delivery.py:355-369 | When drain returns True, by any of its branches and with anything in between its reads: everything kept at its depth read has been delivered exactly unless the thread still has in hand the item it had then; for the policies that count drops, exactly if the observer has been called as often as offers had been made by then less the drops tallied; and surely if the idle flag was clear then |
| `Delivery.DrainedWithAnItemInHand` | src/autoweaver/sensor/delivery.py:334-369 | A run in which drain returns True with the only accepted item in hand and not delivered |
| `Delivery.DrainIgnoresLaterOffers` | src/autoweaver/sensor/delivery.py:355-369 | A run in which drain returns True with an item, accepted between its two reads, still queued |
| `Overlap.IouIsSymmetric` | src/autoweaver/pipeline/steps/postprocess.py:128-152 | Overlap does not depend on the order of the two boxes |
| `Overlap.IouRange` | src/autoweaver/pipeline/steps/postprocess.py:128-152 | Between 0 and 1 for proper boxes |
| `Overlap.IouIsOverlap` | src/autoweaver/pipeline/steps/postprocess.py:128-152 | Cut the points of either box, and the points of both, into boxes in any way: the ratio times the area of the first is the area of the second |
| `Overlap.CoversExist` | src/autoweaver/pipeline/steps/postprocess.py:128-152 | Both can always be cut so |
| `Overlap.AreaIsWellDefined` | src/autoweaver/pipeline/steps/postprocess.py:143-152 | Lists of boxes holding the same points equally often have the same area in all, so area is a property of the points |
| `Overlap.OneIffEqual` | src/autoweaver/pipeline/steps/postprocess.py:147-152 | 1 for equal proper boxes and for no others |
| `Overlap.ZeroIffApart` | src/autoweaver/pipeline/steps/postprocess.py:139-140 | 0 exactly when no point lies strictly inside both |
| `Overlap.WithinIsTheShare` | src/autoweaver/pipeline/steps/postprocess.py:143-152 | A box within another overlaps it by its share of the area |
| `Nms.KeepBest` | src/autoweaver/pipeline/steps/postprocess.py:111-124 | The popping loop computes the greedy survivors |
| `Nms.Suppress` | src/autoweaver/pipeline/steps/postprocess.py:92-126 | Score filter, stable descending sort, greedy loop; for every threshold up to 1 no two survivors have the same proper box |
| `Nms.OneOfTwo` | src/autoweaver/pipeline/steps/postprocess.py:92-126 | Of two detections with the same box exactly one is kept: the more confident, the first if they are equally so |
| `Nms.SortedKeepsTies` | src/autoweaver/pipeline/steps/postprocess.py:107-111 | Sorting keeps detections of equal confidence in the order they came |
| `Nms.PassingKeepsTies` | src/autoweaver/pipeline/steps/postprocess.py:97-101 | The score filter keeps whoever reaches the score, in order, and nobody else |
| `Nms.LoserIsBeaten` | src/autoweaver/pipeline/steps/postprocess.py:111-124 | Every copy dropped overlaps, at or above the threshold, a survivor at least as confident |
| `Nms.SurvivorsAre` | src/autoweaver/pipeline/steps/postprocess.py:92-126 | Survivors come from the input, pass the score, are sorted and pairwise below the threshold; every passing loser is beaten by a survivor |
| `Nms.SurvivorsSurvive` | src/autoweaver/pipeline/steps/postprocess.py:92-126 | Suppressing again returns the same list |
| `Nms.OrderDoesNotMatter` | src/autoweaver/pipeline/steps/postprocess.py:92-126 | With distinct confidences the survivors do not depend on the input order |
| `Nms.GroupByKind` | src/autoweaver/pipeline/steps/postprocess.py:69-75 | Groups in order of first appearance, each with its detections in order |
| `Nms.KindsInOrder` | src/autoweaver/pipeline/steps/postprocess.py:69-75 | Of two classes the one seen first comes first |
| `Nms.Process` | src/autoweaver/pipeline/steps/postprocess.py:58-90 | The step, class-agnostic or per class, with the count of removed detections, which is left unset when nothing was detected |
| `Nms.NothingIsInvented` | src/autoweaver/pipeline/steps/postprocess.py:58-90 | Survivors are detections of the input, each no more often than there |
| `Nms.ClassesAreIndependent` | src/autoweaver/pipeline/steps/postprocess.py:66-80 | Each class keeps its survivors as if it were alone |
| `Nms.ClassLoserIsBeaten` | src/autoweaver/pipeline/steps/postprocess.py:58-90 | A dropped detection that passes the score is beaten by a survivor of its own class |
| `Nms.ClassOrderDoesNotMatter` | src/autoweaver/pipeline/steps/postprocess.py:58-90 | With distinct confidences in each class the surviving detections do not depend on the input order |
| `Nms.ProcessTwice` | src/autoweaver/pipeline/steps/postprocess.py:58-90 | The step is idempotent, order included |
| `Tiles.StrideAtMostSize` | src/autoweaver/pipeline/steps/tiling.py:70-72 | Any overlap between 0 and 1 gives a stride between 1 and the tile size |
| `Tiles.StrideIs` | src/autoweaver/pipeline/steps/tiling.py:70-72 | The largest whole number at most size * (1 - overlap), and at least 1 |
| `Tiles.GetPositions` | src/autoweaver/pipeline/steps/tiling.py:100-113 | Terminates; starts at 0, strictly increasing, every gap but the last exactly the stride and the last no larger, last tile flush with the edge; one tile when the axis is no longer than a tile |
| `Tiles.SortedSetIsList` | src/autoweaver/pipeline/steps/tiling.py:113 | Sorting the set of a strictly increasing list returns the list |
| `Tiles.TilesInside` | src/autoweaver/pipeline/steps/tiling.py:100-113 | No tile sticks out of an axis at least as long as a tile |
| `Tiles.IntervalInOneTile` | src/autoweaver/pipeline/steps/tiling.py:42-46 | Every interval of integer length at most tile - stride + 1 lies wholly inside one tile |
| `Tiles.LongerMayNotFit` | src/autoweaver/pipeline/steps/tiling.py:100-113 | The bound is sharp wherever two tiles are a full stride apart |
| `Tiles.GridIsProduct` | src/autoweaver/pipeline/steps/tiling.py:79-90 | Tiles are all pairs of a column and a row start, each once |
| `Tiles.GridIsRowByRow` | src/autoweaver/pipeline/steps/tiling.py:79-90 | Rows outermost: the i-th tile of row j comes after j whole rows and i tiles |
| `Tiles.Slice` | src/autoweaver/pipeline/steps/tiling.py:64-98 | The nested loops produce that grid, rows outermost |
| `Tiles.MovedIsTheVisiblePart` | src/autoweaver/pipeline/steps/tiling.py:149-163 | The twice clipped box is exactly the part of the image the box in the tile covers |
| `Tiles.MovedIsCollected` | src/autoweaver/pipeline/steps/tiling.py:144-175 | Every detection of every tile is collected at its place in the image, unless nothing of it is visible |
| `Tiles.CollectedIsMoved` | src/autoweaver/pipeline/steps/tiling.py:144-175 | Whatever is collected was found in some tile and stands where it is in the image |
| `Tiles.CollectedInOrder` | src/autoweaver/pipeline/steps/tiling.py:144-175 | Detections are collected tile after tile, the order in which ties are settled |
| `Tiles.MovedInOrder` | src/autoweaver/pipeline/steps/tiling.py:144-175 | And within a tile detection after detection |
| `Tiles.Merge` | src/autoweaver/pipeline/steps/tiling.py:135-187 | Boxes of all tiles moved, empty ones skipped, then suppressed per class, with the count removed; without tiles nothing changes |
| `Tiles.MergedUnlessBeaten` | src/autoweaver/pipeline/steps/tiling.py:189-227 | A collected detection is merged away exactly when another surviving one of its class, at least as confident, overlaps it at or above the threshold |
| `Tiles.ApplyNms` | src/autoweaver/pipeline/steps/tiling.py:189-227 | The merge step suppresses per class exactly as the NMS step does when every confidence passes |
| `Tiles.SmallObjectsComeBack` | src/autoweaver/pipeline/steps/tiling.py:149-163 | An object no larger than a tile less its stride is wholly inside some tile, and its box there moves back to its place in the image |
| `Tiles.SmallObjectsAreReported` | src/autoweaver/pipeline/steps/tiling.py:135-187 | Such an object, detected in that tile, is reported at its place in the image exactly unless another report of its class, at least as confident, overlaps it at or above the threshold |
| `Unwrap.UnwrapEuler` | src/autoweaver/frames/transforms.py:94-130 | First value kept, each entry congruent to its input modulo 360, each step in (-180, 180] |
| `Unwrap.OnlyUnwrapping` | src/autoweaver/frames/transforms.py:94-130 | No other sequence has these properties |
| `Unwrap.UnwrapTwice` | src/autoweaver/frames/transforms.py:94-130 | Idempotent |
| `Unwrap.TurnsDoNotMatter` | src/autoweaver/frames/transforms.py:94-130 | Full turns added to later inputs make no difference |
| `Unwrap.PosesUnwrapByChannel` | src/autoweaver/frames/transforms.py:133-154 | Positions untouched, each rotation channel unwrapped on its own, idempotent |
| `Codec.EncodeField` | motion-runtime/src/translate/codec.rs:35-55 | In place and all or nothing: type, then room, then bit number are checked before the first byte is written |
| `Codec.RoundTrip64` | motion-runtime/src/translate/codec.rs:214-230 | Little-endian bytes give the 64-bit pattern back |
| `Codec.LittleEndian` | motion-runtime/src/translate/codec.rs:172-230 | The bytes are the digits of the number in base 256, the least significant first |
| `Codec.WithBitSets` | motion-runtime/src/translate/codec.rs:132-143 | Read-modify-write sets one bit and no other |
| `Codec.EncodeDecode` | motion-runtime/src/translate/codec.rs:58-101 | A written field decodes to its value, narrowed where a 32-bit carrier is tolerated; a byte tail also shows what lies behind it |
| `Codec.EncodeAnswers` | motion-runtime/src/translate/codec.rs:35-55 | Which error an encoding gives, and when none: type, then room, then bit number |
| `Codec.Narrowed` | motion-runtime/src/translate/codec.rs:152-192 | A 32-bit integer written to a narrower field reads back as its remainder modulo the width of the field |
| `Codec.BoolBytes` | motion-runtime/src/translate/codec.rs:122-150 | A bool without a bit number is a byte of its own: written as 1 or 0, read as true unless 0 |
| `Codec.EncodeKeepsOthers` | motion-runtime/src/translate/codec.rs:122-150 | No bit outside the field changes |
| `Codec.DecodeIsLocal` | motion-runtime/src/translate/codec.rs:279-311 | Decoding depends on the bits of the field only |
| `Codec.WriteKeepsDisjoint` | motion-runtime/src/translate/codec.rs:35-150 | Writing a field leaves the reading of a disjoint one alone |
| `Scara.WriteNamedField` | motion-runtime/src/goal/scara.rs:254-272 | Unknown, wrong-direction and encoding errors leave the image alone |
| `Scara.SubmitScaraGoal` | motion-runtime/src/goal/scara.rs:89-180 | Lookup errors in order and without effect. On Ok, with a layout of disjoint fields, the image decodes each of x, y, z, u, speed, accel, routine and trigger to the value the goal gives for it; on Err the trigger is as it was. No other slave is touched |
| `Scara.StageKeepsUnowned` | motion-runtime/src/goal/scara.rs:119-172 | No bit outside the written fields changes, whether or not an error cuts the series short |
| `Scara.SubmissionIsAllOrNoTrigger` | motion-runtime/src/goal/scara.rs:89-180 | With disjoint fields: Ok means every staged field decodes to what was staged and the trigger to 1, Err means the trigger is as it was |
| `Scara.StagedGoal` | motion-runtime/src/goal/scara.rs:119-172 | What was staged is the goal: target_x holds x, target_y holds y, and so for z, u, speed, accel, routine and trigger |
| `Scara.ReadScaraStatus` | motion-runtime/src/goal/scara.rs:191-239 | The whole effect of an undisturbed call on the output image: only a fully decoded done status with the trigger up writes, and writes only the trigger |
| `Scara.StatusIs` | motion-runtime/src/goal/scara.rs:296-366 | Decoding gives a status exactly when it reports every field as its own field decodes: done, busy, error code, four coordinates, four joints |
| `Scara.StatusReadKeepsOthers` | motion-runtime/src/goal/scara.rs:191-239 | A status read changes no bit outside the trigger field |
| `Scara.LowerIfUp` | motion-runtime/src/goal/scara.rs:211-236 | Its second half, under the output lock: the falling edge if the trigger is up |
| `Scara.StatusReadAndTrigger` | motion-runtime/src/goal/scara.rs:211-236 | A successful read that reports done leaves the trigger down, it falls in no other read, and no read raises it |
| `Scara.EdgesAreSeparatedByDone` | motion-runtime/src/goal/scara.rs:182-239 | Over any run of submissions and status reads that overlap between their two locks: only submissions raise the trigger, between two rising edges a read that has seen done lowers it, and it saw done after the first edge exactly unless it was in progress from that edge on |
| `Scara.DoneIsSeenBetween` | motion-runtime/src/goal/scara.rs:182-239 | If no status read is between its two locks when a goal is submitted, done is decoded before the next rising edge |
| `Scara.StaleDoneLowers` | motion-runtime/src/goal/scara.rs:203-236 | On every device that accepts a goal and reports done there is a run of overlapping reads with two rising edges and no status decoded between them |
| `Scara.StepsAreRead` | motion-runtime/src/goal/scara.rs:191-239 | The two steps of a read in a row have the effect of the undisturbed call |
| `Servo.ServoController.constructor` | src/autoweaver/servo/controller.py:102-135 | A fresh episode within a valid envelope |
| `Servo.ServoController.Reset` | src/autoweaver/servo/controller.py:142-149 | Back to a fresh episode |
| `Servo.ServoController.Step` | src/autoweaver/servo/controller.py:151-206 | Convergence before divergence before exhaustion before a step: each outcome exactly when, in terms of the error, the first error, the guard and the count |
| `Servo.ServoLeaf.constructor` | src/autoweaver/motion_policy/nodes/leaf/servo_leaf.py:96-121 | Starts looking, with no frame acted on |
| `Servo.ServoLeaf.OnStart` | src/autoweaver/motion_policy/nodes/leaf/servo_leaf.py:123-130 | Whatever an earlier run left is cleared before the first look |
| `Servo.ServoLeaf.OnRunning` | src/autoweaver/motion_policy/nodes/leaf/servo_leaf.py:132-133 | One more step of the cycle |
| `Servo.ServoLeaf.Reset` | src/autoweaver/motion_policy/nodes/leaf/servo_leaf.py:135-140 | Cycle and controller cleared |
| `Servo.ServoLeaf.Evaluate` | src/autoweaver/motion_policy/nodes/leaf/servo_leaf.py:142-145 | Awaits the move while one is out, looks otherwise |
| `Servo.ServoLeaf.LookOnce` | src/autoweaver/motion_policy/nodes/leaf/servo_leaf.py:147-174 | No action without a frame different from the last one acted on; a step dispatches one move |
| `Servo.ServoLeaf.AwaitMove` | src/autoweaver/motion_policy/nodes/leaf/servo_leaf.py:176-187 | Back to looking exactly once the worker shows the own id or a larger one; nothing else changes |
| `Servo.ServoIsBounded` | src/autoweaver/motion_policy/nodes/leaf/servo_leaf.py:123-187 | In every episode: never the same frame twice in a row, at most max_iterations controller steps, at most max_iterations - 1 moves, at most one move outstanding |
| `Servo.WhatATickDoes` | src/autoweaver/motion_policy/nodes/leaf/servo_leaf.py:142-187 | A new frame is acted on at once and, unless that ends the episode, one move is sent; while moving nothing is acted on, and the move is over exactly when the worker shows its id or a larger one |
| `Servo.WhyServoEnds` | src/autoweaver/servo/controller.py:151-206 | Success exactly when the last error is within the deadband, even on the last allowed iteration; failure exactly when it outgrew the first by the guard or the iterations are used up; no earlier error would have ended it |
| `WorldBoards.SplitNamespace` | src/autoweaver/motion_policy/world_board.py:48-63 | A key splits at its first dot into two non-empty parts that join back to it, or is refused |
| `WorldBoards.WindowSlides` | src/autoweaver/motion_policy/world_board.py:342-355 | Appending to the bounded deque keeps it the last min(window, posts + 1) snapshots of the log |
| `WorldBoards.SnapshotShowsLastPost` | src/autoweaver/motion_policy/world_board.py:342-355 | A snapshot shows for each key the last value posted at or before it, and nothing for a key not posted yet |
| `WorldBoards.WindowShowsPosts` | src/autoweaver/motion_policy/world_board.py:301-310 | Querying the window for a key returns exactly what the posts still in it gave the key, in order |
| `WorldBoards.WorldBoard.constructor` | src/autoweaver/motion_policy/world_board.py:116-126 | The window holds the empty snapshot |
| `WorldBoards.WorldBoard.DeclareState` | src/autoweaver/motion_policy/world_board.py:132-149 | The first declaration fixes the owner of a namespace; a foreign one is refused without effect |
| `WorldBoards.WorldBoard.PostState` | src/autoweaver/motion_policy/world_board.py:151-168 | Refused unless declared, by this writer, with this type; the log of posts stays owned and the fields follow it |
| `WorldBoards.WorldBoard.Commit` | src/autoweaver/motion_policy/world_board.py:342-355 | Sequence number, current snapshot and history stay those of the log |
| `WorldBoards.WorldBoard.AcceptNotes` | src/autoweaver/motion_policy/world_board.py:177-212 | One receiver per namespace and name |
| `WorldBoards.WorldBoard.PassNote` | src/autoweaver/motion_policy/world_board.py:214-253 | Refused without a receiver or with the wrong type; otherwise queued behind all earlier notes |
| `WorldBoards.WorldBoard.DeliverNotes` | src/autoweaver/motion_policy/world_board.py:255-284 | Each note pending at the start is delivered once in pass order, whatever receivers raise; notes passed meanwhile wait for the next round; all passed notes are the delivered ones followed by the pending ones |
| `WorldBoards.RoundIs` | src/autoweaver/motion_policy/world_board.py:255-284 | A round, note by note: each receiver, knowing everything handed over before, passes what comes before its first refused note, and all of that in order is the next round; the errors are, in order, the notes whose receiver raised or was refused |
| `WorldBoards.WorldBoard.ValuesOf` | src/autoweaver/motion_policy/world_board.py:305-310 | The last n values posted within the window; 0 returns all of them, as slicing from -0 does |

## Left out

- ForEachWrites.ForEachWritesInOrder: for a child without a ForEach over the same key, because both would write to the same place on the blackboard; other writers of the key are not modelled.
- EndToEnd.SequenceOfMotions: the Sequence holds NotifyAndWait leaves only; a worker faulted by a raising on_tick is not modelled.
- EndToEnd.NotifyAndWait.OnStart: payload building, which may raise, is taken to succeed, and a note is its id.
- Motion.MotionWorker.OnMotionNote: last_error and the log lines are not modelled; dispatching is reduced to whether it raises.
- Motion.MotionWorker.NoteError: last_error is not modelled.
- Kernel.Batch.Abort: the message and the exception object of a result are not modelled; a result is its reason, final status, teardown outcome and failed node.
- Kernel.Batch.Finalize: the exported blackboard values of a result are not modelled.
- Kernel.BTClock.Submit: handles, names, pausing and worker lifecycle transitions are not modelled; the announcement to the workers is one yes or no.
- Kernel.BTClock.TickOnce: worker phases and their order relative to the batch phase are modelled in EndToEnd, not here.
- Kernel.BTClock.Shutdown: detaching the workers is not modelled.
- FrameLookup.Frames.constructor: starts from an empty calibration; loading one is FrameLookup.Frames.Load.
- FrameGraph.LookupIsFunctorial: over an abstract group or exact reals; floating-point rounding and the reading of quaternions and Euler angles are not modelled.
- FrameLookup.Frames.Load: starts from parsed edges; reading and validating the YAML file is not modelled.
- Rigid.RotationIsOrthogonal: the test is exact, without the source's tolerance, and does not ask for determinant 1, which none of the results needs.
- Delivery.RunKeepsInv: waiting, timeouts of drain and join, and an observer that never returns are reduced to steps that may or may not be taken; the queue's own lock is what makes a step atomic.
- Delivery.PolicyKeeps: for LATEST_ONLY the items replaced by newer ones are counted in no tally, as in the source.
- Nms.Suppress: the built-in stable sort is specified by an insertion sort, and box coordinates are exact reals.
- Tiles.Slice: tiles carry their position and size, not the pixels; the sizes put into the metadata are not modelled.
- Codec.EncodeDecode: floats are bit patterns, offsets do not overflow, and the lossy UTF-8 decoding of a Str field is left out: its value is its bytes.
- Scara.EdgesAreSeparatedByDone: speaks of the staging image; whether the controller sees every edge depends on the cyclic exchange, which is not part of this model.
- Servo.ServoController.constructor: gain and step limit, and the checks on them, belong to the velocity law, which is not modelled.
- Servo.ServoController.Step: the velocity commanded and its clamping are not modelled; the law needs a pseudo-inverse.
- Servo.ServoLeaf.LookOnce: the error and command functions are inputs that do not raise.
- Servo.ServoIsBounded: the error function and the velocity law are inputs; a frame taken during a move may be acted on, because the gate compares frame ids only.
- WorldBoards.WorldBoard.DeclareState: the check for a key declared by another writer than its namespace's owner is omitted, because namespace ownership already excludes it.
- WorldBoards.WorldBoard.DeliverNotes: receivers are never unregistered, so the silent drop of a note without one does not occur; the grouping of several errors into one is a list here.
- WorldBoards.WorldBoard.ValuesOf: changed_between, a filter by time over the same window, is not modelled.
- Re-attaching a worker: pending state and receivers survive a detach in the source; only one attachment is modelled.
- Tracers, logging, trajectories, YAML schema files, the event bus and the string state machine: file handling or one-branch facts.
- gRPC, EtherCAT, Modbus, cameras, sockets and the vision models: input and output.
