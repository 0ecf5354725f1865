/** Look-then-move visual servoing: the controller and the leaf. */
module Servo {
  import opened Wrappers
  import opened BehaviorTree
  import opened Motion

  // ---------------------------------------------------------------- controller

  datatype Envelope = Envelope(deadband: real, maxIterations: int, divergence: Option<real>)

  /** What the controller's constructor insists on. */
  predicate ValidEnvelope(e: Envelope) {
    e.deadband >= 0.0 && e.maxIterations > 0 && (e.divergence.Some? ==> e.divergence.value > 1.0)
  }

  datatype Outcome = STEP | CONVERGED | DIVERGED | EXHAUSTED

  datatype Loop = Loop(iteration: nat, initial: Option<real>)

  predicate Grown(e: Envelope, initial: real, norm: real) {
    e.divergence.Some? && initial > 0.0 && norm > e.divergence.value * initial
  }

  /** Convergence is tested before divergence, and both before the iteration cap. */
  function Decide(e: Envelope, c: Loop, norm: real): (Loop, Outcome) {
    var c' := Loop(c.iteration + 1, if c.initial.None? then Some(norm) else c.initial);
    (c', if norm <= e.deadband then CONVERGED
         else if Grown(e, c'.initial.value, norm) then DIVERGED
         else if c'.iteration >= e.maxIterations then EXHAUSTED
         else STEP)
  }

  class ServoController {
    const envelope: Envelope
    var iteration: nat
    var initialErrorNorm: Option<real>

    ghost function Abs(): Loop
      reads this
    {
      Loop(iteration, initialErrorNorm)
    }

    constructor (envelope: Envelope)
      requires ValidEnvelope(envelope)
      ensures this.envelope == envelope && Abs() == Loop(0, None)
    {
      this.envelope := envelope;
      iteration, initialErrorNorm := 0, None;
    }

    method Reset()
      modifies this
      ensures Abs() == Loop(0, None)
    {
      iteration, initialErrorNorm := 0, None;
    }

    /** `norm` is the length of the feature error. */
    method Step(norm: real) returns (outcome: Outcome)
      modifies this
      ensures (Abs(), outcome) == Decide(envelope, old(Abs()), norm)
      ensures iteration == old(iteration) + 1
      ensures initialErrorNorm == if old(initialErrorNorm).Some? then old(initialErrorNorm) else Some(norm)
      ensures var first := initialErrorNorm.value;
              var outgrown := envelope.divergence.Some? && first > 0.0 && norm > envelope.divergence.value * first;
              && (outcome == CONVERGED <==> norm <= envelope.deadband)
              && (outcome == DIVERGED <==> norm > envelope.deadband && outgrown)
              && (outcome == EXHAUSTED <==>
                    norm > envelope.deadband && !outgrown && iteration >= envelope.maxIterations)
    {
      iteration := iteration + 1;
      if initialErrorNorm.None? { initialErrorNorm := Some(norm); }
      if norm <= envelope.deadband { return CONVERGED; }
      if envelope.divergence.Some? && initialErrorNorm.value > 0.0
         && norm > envelope.divergence.value * initialErrorNorm.value
      {
        return DIVERGED;
      }
      if iteration >= envelope.maxIterations { return EXHAUSTED; }
      return STEP;
    }
  }

  // ---------------------------------------------------------------- leaf

  datatype Phase = LOOK | MOVING

  datatype Cycle = Cycle(control: Loop, phase: Phase, lastFrame: Option<int>, rid: nat)

  /**
    What one tick sees: the frame counter and its error, the worker's last_completed_id, and the id a
    dispatch would draw.
  */
  datatype Sight = Sight(frame: Option<int>, norm: real, completed: Option<nat>, id: nat)

  /** `acted`: the frame and error given to the controller; `sent`: the id dispatched; `seen`: the id seen completed. */
  datatype Look = Look(cycle: Cycle, status: Status, acted: Option<(int, real)>, sent: Option<nat>, seen: Option<nat>)

  function Fresh(): Cycle {
    Cycle(Loop(0, None), LOOK, None, 0)
  }

  function Evaluated(e: Envelope, c: Cycle, s: Sight): Look {
    if c.phase == MOVING then
      if HasReached(Shown(s.completed), c.rid) then Look(c.(phase := LOOK), RUNNING, None, None, Some(c.rid))
      else Look(c, RUNNING, None, None, None)
    else if s.frame.None? || s.frame == c.lastFrame then Look(c, RUNNING, None, None, None)
    else
      var d := Decide(e, c.control, s.norm);
      var acted := Some((s.frame.value, s.norm));
      match d.1
      case CONVERGED => Look(Cycle(d.0, LOOK, s.frame, c.rid), SUCCESS, acted, None, None)
      case STEP => Look(Cycle(d.0, MOVING, s.frame, s.id), RUNNING, acted, Some(s.id), None)
      case _ => Look(Cycle(d.0, LOOK, s.frame, c.rid), FAILURE, acted, None, None)
  }

  class ServoLeaf {
    const controller: ServoController
    var phase: Phase
    var lastFrameId: Option<int>
    var rid: nat

    ghost function Abs(): Cycle
      reads this, controller
    {
      Cycle(controller.Abs(), phase, lastFrameId, rid)
    }

    constructor (controller: ServoController)
      ensures this.controller == controller
      ensures phase == LOOK && lastFrameId == None && rid == 0
    {
      this.controller := controller;
      phase, lastFrameId, rid := LOOK, None, 0;
    }

    /** Whatever an earlier run left behind is cleared first. */
    method OnStart(s: Sight) returns (status: Status, sent: Option<nat>)
      modifies this, controller
      ensures var l := Evaluated(controller.envelope, Fresh(), s);
              Abs() == l.cycle && status == l.status && sent == l.sent
    {
      controller.Reset();
      phase, lastFrameId, rid := LOOK, None, 0;
      status, sent := Evaluate(s);
    }

    method OnRunning(s: Sight) returns (status: Status, sent: Option<nat>)
      modifies this, controller
      ensures var l := Evaluated(controller.envelope, old(Abs()), s);
              Abs() == l.cycle && status == l.status && sent == l.sent
    {
      status, sent := Evaluate(s);
    }

    method Reset()
      modifies this, controller
      ensures Abs() == Fresh()
    {
      controller.Reset();
      phase, lastFrameId, rid := LOOK, None, 0;
    }

    method Evaluate(s: Sight) returns (status: Status, sent: Option<nat>)
      modifies this, controller
      ensures var l := Evaluated(controller.envelope, old(Abs()), s);
              Abs() == l.cycle && status == l.status && sent == l.sent
    {
      if phase == MOVING {
        status := AwaitMove(s);
        return status, None;
      }
      status, sent := LookOnce(s);
    }

    method LookOnce(s: Sight) returns (status: Status, sent: Option<nat>)
      requires phase == LOOK
      modifies this, controller
      ensures var l := Evaluated(controller.envelope, old(Abs()), s);
              Abs() == l.cycle && status == l.status && sent == l.sent
    {
      if s.frame.None? || s.frame == lastFrameId { return RUNNING, None; }
      lastFrameId := s.frame;
      var outcome := controller.Step(s.norm);
      if outcome == CONVERGED { return SUCCESS, None; }
      if outcome == DIVERGED || outcome == EXHAUSTED { return FAILURE, None; }
      rid := s.id;
      phase := MOVING;
      return RUNNING, Some(rid);
    }

    method AwaitMove(s: Sight) returns (status: Status)
      requires phase == MOVING
      modifies this
      ensures var l := Evaluated(controller.envelope, old(Abs()), s);
              Abs() == l.cycle && status == l.status && l.sent == None
      // a worker that has completed nothing shows no id, which counts as 0
      ensures phase == LOOK <==> (s.completed.Some? && s.completed.value >= rid) || rid == 0
      ensures status == RUNNING && rid == old(rid) && controller.Abs() == old(controller.Abs())
    {
      var completed := if s.completed.Some? then s.completed.value else 0;
      if completed >= rid { phase := LOOK; }
      return RUNNING;
    }
  }

  // ---------------------------------------------------------------- episodes

  /** One run of the leaf: what it acted on, what it sent, what it saw completed, and how it stands. */
  datatype Episode = Episode(cycle: Cycle, status: Status, frames: seq<int>, norms: seq<real>, sent: seq<nat>,
          seen: seq<nat>)

  function Listed<T>(o: Option<T>): seq<T> {
    if o.Some? then [o.value] else []
  }

  /** One more tick of a running episode. */
  function Next(e: Envelope, before: Episode, s: Sight): Episode {
    var l := Evaluated(e, before.cycle, s);
    Episode(l.cycle, l.status,
            before.frames + (if l.acted.Some? then [l.acted.value.0] else []),
            before.norms + (if l.acted.Some? then [l.acted.value.1] else []),
            before.sent + Listed(l.sent), before.seen + Listed(l.seen))
  }

  /** Ticks until the leaf finishes; the first is on_start. */
  function Run(e: Envelope, sights: seq<Sight>): Episode {
    if sights == [] then Episode(Fresh(), RUNNING, [], [], [], [])
    else
      var before := Run(e, sights[..|sights| - 1]);
      if before.status != RUNNING then before
      else Next(e, before, sights[|sights| - 1])
  }

  /** An error that lets the controller go on, given the first one. */
  predicate GoesOn(e: Envelope, first: real, norm: real) {
    norm > e.deadband && !Grown(e, first, norm)
  }

  predicate AllGoOn(e: Envelope, norms: seq<real>) {
    forall i | 0 <= i < |norms| :: GoesOn(e, norms[0], norms[i])
  }

  /** Consecutive frames acted on differ. */
  predicate NeverTwice(frames: seq<int>) {
    forall i | 0 <= i < |frames| - 1 :: frames[i] != frames[i + 1]
  }

  ghost predicate Common(r: Episode) {
    && r.cycle.control.iteration == |r.frames| == |r.norms|
    && r.cycle.control.initial == (if r.norms == [] then None else Some(r.norms[0]))
    && r.cycle.lastFrame == (if r.frames == [] then None else Some(r.frames[|r.frames| - 1]))
    && NeverTwice(r.frames)
  }

  /** The state of a running episode: one move per controller step, all seen completed but perhaps the last. */
  ghost predicate RunningInv(e: Envelope, r: Episode) {
    && Common(r) && AllGoOn(e, r.norms)
    && |r.frames| < e.maxIterations && |r.sent| == |r.frames|
    && (if r.cycle.phase == MOVING then r.sent == r.seen + [r.cycle.rid] else r.sent == r.seen)
  }

  /** The state of a finished one: the last step sent nothing and decided the outcome. */
  ghost predicate FinishedInv(e: Envelope, r: Episode) {
    && Common(r) && r.norms != []
    && AllGoOn(e, r.norms[..|r.norms| - 1])
    && |r.frames| <= e.maxIterations && |r.sent| == |r.frames| - 1 && r.sent == r.seen
    && var last := r.norms[|r.norms| - 1];
       if r.status == SUCCESS then last <= e.deadband
       else r.status == FAILURE && last > e.deadband && (Grown(e, r.norms[0], last) || |r.norms| == e.maxIterations)
  }

  lemma GoOnSnoc(e: Envelope, norms: seq<real>, norm: real)
    requires AllGoOn(e, norms) && GoesOn(e, (norms + [norm])[0], norm)
    ensures AllGoOn(e, norms + [norm])
  {
    var all := norms + [norm];
    forall i | 0 <= i < |all| ensures GoesOn(e, all[0], all[i]) {
      if i < |norms| { assert GoesOn(e, norms[0], norms[i]); }
    }
  }

  /** Waiting, for the move or for a new frame, acts on nothing. */
  lemma WaitKeepsInv(e: Envelope, before: Episode, s: Sight)
    requires RunningInv(e, before)
    requires before.cycle.phase == MOVING || s.frame.None? || s.frame == before.cycle.lastFrame
    ensures RunningInv(e, Next(e, before, s)) && Next(e, before, s).status == RUNNING
  {
    assert before.frames + [] == before.frames && before.norms + [] == before.norms && before.sent + [] == before.sent;
    assert before.seen + [] == before.seen;
  }

  /** Acting on a new frame: what is common to all outcomes. */
  lemma ActKeepsCommon(e: Envelope, before: Episode, s: Sight)
    requires RunningInv(e, before) && before.cycle.phase == LOOK && s.frame.Some? && s.frame != before.cycle.lastFrame
    ensures var r := Next(e, before, s);
            && r.frames == before.frames + [s.frame.value] && r.norms == before.norms + [s.norm]
                && r.seen == before.seen
            && Common(r)
  {
    var r := Next(e, before, s);
    assert before.seen + [] == before.seen;
    forall i | 0 <= i < |r.frames| - 1 ensures r.frames[i] != r.frames[i + 1] {
      if i + 1 < |before.frames| { assert before.frames[i] != before.frames[i + 1]; }
    }
  }

  lemma ActKeepsInv(e: Envelope, before: Episode, s: Sight)
    requires RunningInv(e, before) && before.cycle.phase == LOOK && s.frame.Some? && s.frame != before.cycle.lastFrame
    ensures var r := Next(e, before, s); if r.status == RUNNING then RunningInv(e, r) else FinishedInv(e, r)
  {
    hide Common, AllGoOn;
    var r := Next(e, before, s);
    ActKeepsCommon(e, before, s);
    CountsOf(before);
    assert r.norms[..|r.norms| - 1] == before.norms;
    if r.status == RUNNING {
      GoOnSnoc(e, before.norms, s.norm);
    } else {
      assert before.sent + [] == before.sent;
    }
  }

  /**
    A new frame is acted on at once: the controller gets its error, and unless that ends the episode
    a move is sent. While moving nothing is acted on, and the move is over once the worker shows its
    id or a larger one.
  */
  lemma WhatATickDoes(e: Envelope, before: Episode, s: Sight)
    requires RunningInv(e, before)
    ensures var r := Next(e, before, s);
            if before.cycle.phase == MOVING then
              && r.frames == before.frames && r.sent == before.sent && r.status == RUNNING
              && (r.cycle.phase == LOOK <==> Shown(s.completed) >= before.cycle.rid)
            else if s.frame.Some? && (before.frames == [] || s.frame.value != before.frames[|before.frames| - 1]) then
              var norms := before.norms + [s.norm];
              && r.frames == before.frames + [s.frame.value] && r.norms == norms
              && (if GoesOn(e, norms[0], s.norm) && |norms| < e.maxIterations then
                    r.status == RUNNING && r.sent == before.sent + [s.id] && r.cycle.phase == MOVING
                    && r.cycle.rid == s.id
                  else r.status != RUNNING && r.sent == before.sent)
            else r == before.(status := RUNNING)
  {
    hide Grown, NeverTwice, AllGoOn;
    assert before.frames + [] == before.frames && before.norms + [] == before.norms && before.sent + [] == before.sent;
    assert before.seen + [] == before.seen;
    if before.norms != [] { assert (before.norms + [s.norm])[0] == before.norms[0]; }
  }

  lemma CountsOf(r: Episode)
    requires Common(r)
    ensures r.cycle.control.iteration == |r.frames| == |r.norms|
    ensures r.cycle.control.initial == (if r.norms == [] then None else Some(r.norms[0]))
  {
  }

  lemma TickKeepsInv(e: Envelope, before: Episode, s: Sight)
    requires RunningInv(e, before)
    ensures var r := Next(e, before, s); if r.status == RUNNING then RunningInv(e, r) else FinishedInv(e, r)
  {
    hide RunningInv, FinishedInv, Next;
    if before.cycle.phase == MOVING || s.frame.None? || s.frame == before.cycle.lastFrame {
      WaitKeepsInv(e, before, s);
    } else {
      ActKeepsInv(e, before, s);
    }
  }

  lemma {:induction false} RunKeepsInv(e: Envelope, sights: seq<Sight>)
    requires ValidEnvelope(e)
    ensures var r := Run(e, sights); if r.status == RUNNING then RunningInv(e, r) else FinishedInv(e, r)
    decreases |sights|
  {
    if sights != [] {
      var before := Run(e, sights[..|sights| - 1]);
      RunKeepsInv(e, sights[..|sights| - 1]);
      if before.status == RUNNING {
        TickKeepsInv(e, before, sights[|sights| - 1]);
      }
    }
  }

  /**
    Whatever the camera and the worker report: the controller never acts twice in a row on the same
    frame, it is stepped at most maxIterations times, at most maxIterations - 1 moves are sent, and
    every move but perhaps the last has been seen completed before the next is sent.
  */
  lemma ServoIsBounded(e: Envelope, sights: seq<Sight>)
    requires ValidEnvelope(e)
    ensures var r := Run(e, sights);
            && NeverTwice(r.frames) && |r.frames| <= e.maxIterations
            && |r.sent| <= e.maxIterations - 1
            && r.seen <= r.sent && |r.sent| <= |r.seen| + 1
            && (r.status != RUNNING ==> r.sent == r.seen)
  {
    RunKeepsInv(e, sights);
  }

  /**
    How an episode ends. It succeeds exactly when the last error acted on is within the deadband,
    even on the last allowed iteration; it fails exactly when that error has outgrown the first by
    the guard or the iterations are used up. No earlier error would have ended it.
  */
  lemma WhyServoEnds(e: Envelope, sights: seq<Sight>)
    requires ValidEnvelope(e) && Run(e, sights).status != RUNNING
    ensures var r := Run(e, sights);
            && r.norms != [] && AllGoOn(e, r.norms[..|r.norms| - 1])
            && (r.status == SUCCESS <==> r.norms[|r.norms| - 1] <= e.deadband)
            && (r.status == FAILURE <==>
                  r.norms[|r.norms| - 1] > e.deadband
                  && (Grown(e, r.norms[0], r.norms[|r.norms| - 1]) || |r.norms| == e.maxIterations))
  {
    RunKeepsInv(e, sights);
  }
}
