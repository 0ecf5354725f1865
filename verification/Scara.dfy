/**
  Submitting a SCARA goal and reading its status.

  A submission stages every field into the device's output image, one write at a time, and raises
  the trigger last, so that the controller never sees the trigger with half of the fields. An error
  cuts the series short. Reading the status drops the trigger again once the controller reports
  done, which makes the next submission a real rising edge.
*/
module Scara {
  import opened Wrappers
  import opened Codec

  /** The field names of the SCARA contract. */
  datatype Name =
    | TARGET_X | TARGET_Y | TARGET_Z | TARGET_U | SPEED | ACCEL | ROUTINE | TRIGGER
    | DONE | BUSY | ERROR_CODE | CURRENT_X | CURRENT_Y | CURRENT_Z | CURRENT_U | JOINT_1 | JOINT_2 | JOINT_3 | JOINT_4

  type Fields = map<Name, FieldSpec>

  /** What the registry knows of a device. */
  datatype Device = Device(slave: Option<nat>, fields: Fields, routines: map<string, bv8>)

  type Registry = map<string, Device>

  datatype ScaraError =
    | UnknownDevice | NotBound | UnknownMotion | NoBuffers
    | UnknownField(field: Name) | WrongDirection(field: Name) | Encoding(field: Name, cause: CodecError)
    | WrongType(field: Name)

  /** Coordinates are the bit patterns of 32-bit floats. */
  datatype Goal = Goal(device: string, motion: string, x: bv32, y: bv32, z: bv32, u: bv32, speed: bv16, accel: bv16)

  datatype Status = Status(done: bool, busy: bool, errorCode: bv16, pose: seq<bv32>, joints: seq<bv32>)

  class SlaveBuffers {
    const rx: array<Byte>
    const tx: array<Byte>

    constructor (rxSize: nat, txSize: nat)
      ensures fresh(rx) && fresh(tx) && rx.Length == rxSize && tx.Length == txSize
    {
      rx := new Byte[rxSize](_ => 0);
      tx := new Byte[txSize](_ => 0);
    }
  }

  // ---------------------------------------------------------------- staging

  datatype Write = Write(field: Name, value: TypedValue)

  function Targets(g: Goal, routine: bv8): (r: seq<Write>)
    ensures |r| == 7
  {
    [Write(TARGET_X, VF32(g.x)), Write(TARGET_Y, VF32(g.y)), Write(TARGET_Z, VF32(g.z)), Write(TARGET_U, VF32(g.u)),
     Write(SPEED, VU16(g.speed)), Write(ACCEL, VU16(g.accel)), Write(ROUTINE, VU8(routine))]
  }

  /** The writes of one submission, the trigger last. */
  function Writes(g: Goal, routine: bv8): (r: seq<Write>)
    ensures |r| == 8 && r[7] == Raise()
  {
    Targets(g, routine) + [Raise()]
  }

  function Raise(): Write {
    Write(TRIGGER, VBool(true))
  }

  /** The buffer after a write or a series of them, which an error may have cut short. */
  datatype Staged = Staged(rx: Buffer, result: Result<(), ScaraError>)

  function WriteNamed(fields: Fields, w: Write, rx: Buffer): Staged {
    if w.field !in fields then Staged(rx, Err(UnknownField(w.field)))
    else if fields[w.field].dir != Out then Staged(rx, Err(WrongDirection(w.field)))
    else
      match Encode(fields[w.field], w.value, rx)
      case Ok(after) => Staged(after, Ok(()))
      case Err(e) => Staged(rx, Err(Encoding(w.field, e)))
  }

  function StageAll(fields: Fields, ws: seq<Write>, rx: Buffer): Staged
    decreases |ws|
  {
    if ws == [] then Staged(rx, Ok(()))
    else
      var first := WriteNamed(fields, ws[0], rx);
      if first.result.Err? then first else StageAll(fields, ws[1..], first.rx)
  }

  method WriteNamedField(fields: Fields, w: Write, rx: array<Byte>) returns (r: Result<(), ScaraError>)
    modifies rx
    ensures Staged(rx[..], r) == WriteNamed(fields, w, old(rx[..]))
  {
    if w.field !in fields { return Err(UnknownField(w.field)); }
    if fields[w.field].dir != Out { return Err(WrongDirection(w.field)); }
    var e := EncodeField(fields[w.field], w.value, rx);
    if e.Err? { return Err(Encoding(w.field, e.error)); }
    return Ok(());
  }

  /** The device, its slave's buffers and the routine number, in the order they are looked up. */
  function Resolved(reg: Registry, bound: set<nat>, g: Goal): Result<(Device, nat, bv8), ScaraError> {
    if g.device !in reg then Err(UnknownDevice)
    else
      var d := reg[g.device];
      if d.slave.None? then Err(NotBound)
      else if g.motion !in d.routines then Err(UnknownMotion)
      else if d.slave.value !in bound then Err(NoBuffers)
      else Ok((d, d.slave.value, d.routines[g.motion]))
  }

  // ---------------------------------------------------------------- what staging guarantees

  /** No two of the given fields share a bit. */
  ghost predicate Apart(fields: Fields, ws: seq<Write>) {
    forall i, j | 0 <= i < j < |ws| && ws[i].field in fields && ws[j].field in fields ::
      Disjoint(fields[ws[i].field], fields[ws[j].field])
  }

  /** Values of the kinds a submission writes: no field type converts them. */
  predicate Plain(v: TypedValue) {
    v.VBool? || v.VU8? || v.VU16? || v.VF32?
  }

  predicate AllPlain(ws: seq<Write>) {
    forall i | 0 <= i < |ws| :: Plain(ws[i].value)
  }

  function Names(): (r: seq<Name>)
    ensures |r| == 8
  {
    [TARGET_X, TARGET_Y, TARGET_Z, TARGET_U, SPEED, ACCEL, ROUTINE, TRIGGER]
  }

  /** The contract's output layout: no two of the eight fields a submission writes share a bit. */
  ghost predicate Layout(fields: Fields) {
    forall i, j | 0 <= i < j < 8 && Names()[i] in fields && Names()[j] in fields ::
      Disjoint(fields[Names()[i]], fields[Names()[j]])
  }

  lemma WritesFollowNames(fields: Fields, g: Goal, routine: bv8)
    requires Layout(fields)
    ensures Apart(fields, Writes(g, routine)) && AllPlain(Writes(g, routine))
  {
    assert forall i | 0 <= i < 8 :: Writes(g, routine)[i].field == Names()[i];
  }

  lemma DisjointIsSymmetric(s: FieldSpec, t: FieldSpec)
    requires Disjoint(s, t)
    ensures Disjoint(t, s)
  {
    forall k: nat, bit: nat ensures !(Owns(t, k, bit) && Owns(s, k, bit)) {}
  }

  /** A field disjoint from everything written reads as before, whether or not the series is cut short. */
  lemma {:induction false} StageKeepsDisjoint(fields: Fields, ws: seq<Write>, rx: Buffer, other: FieldSpec)
    requires forall i | 0 <= i < |ws| && ws[i].field in fields :: Disjoint(fields[ws[i].field], other)
    ensures Decode(other, StageAll(fields, ws, rx).rx) == Decode(other, rx)
    decreases |ws|
  {
    if ws != [] {
      var first := WriteNamed(fields, ws[0], rx);
      if first.result.Ok? {
        WriteKeepsDisjoint(fields[ws[0].field], ws[0].value, rx, other);
        StageKeepsDisjoint(fields, ws[1..], first.rx, other);
      }
    }
  }

  predicate OwnedByWrites(fields: Fields, ws: seq<Write>, k: nat, bit: nat) {
    exists i | 0 <= i < |ws| && ws[i].field in fields :: Owns(fields[ws[i].field], k, bit)
  }

  /** A bit no written field owns is not changed, and the buffer keeps its size. */
  lemma {:induction false} StageKeepsUnowned(fields: Fields, ws: seq<Write>, rx: Buffer, k: nat, bit: nat)
    requires k < |rx| && bit < 8 && !OwnedByWrites(fields, ws, k, bit)
    ensures |StageAll(fields, ws, rx).rx| == |rx| && SameBit(StageAll(fields, ws, rx).rx, rx, k, bit)
    decreases |ws|
  {
    if ws != [] {
      var first := WriteNamed(fields, ws[0], rx);
      if first.result.Ok? {
        EncodeKeepsOthers(fields[ws[0].field], ws[0].value, rx, k, bit);
        assert forall i | 0 <= i < |ws[1..]| :: ws[1..][i] == ws[i + 1];
        StageKeepsUnowned(fields, ws[1..], first.rx, k, bit);
      }
    }
  }

  predicate ReadsBack(fields: Fields, w: Write, rx: Buffer) {
    w.field in fields && Decode(fields[w.field], rx) == Ok(w.value)
  }

  lemma PlainReadsBack(spec: FieldSpec, v: TypedValue, rx: Buffer)
    requires Encode(spec, v, rx).Ok? && Plain(v)
    ensures Decode(spec, Encode(spec, v, rx).value) == Ok(v)
  {
    EncodeDecode(spec, v, rx);
  }

  /** When all writes succeed, every field reads back as what was written to it. */
  lemma {:induction false} StagedFieldsReadBack(fields: Fields, ws: seq<Write>, rx: Buffer, i: nat)
    requires Apart(fields, ws) && AllPlain(ws) && i < |ws| && StageAll(fields, ws, rx).result.Ok?
    ensures ReadsBack(fields, ws[i], StageAll(fields, ws, rx).rx)
    decreases |ws|
  {
    hide Decode, Encode, Disjoint;
    var first := WriteNamed(fields, ws[0], rx);
    var rest := ws[1..];
    if i == 0 {
      var spec := fields[ws[0].field];
      PlainReadsBack(spec, ws[0].value, rx);
      forall j | 0 <= j < |rest| && rest[j].field in fields ensures Disjoint(fields[rest[j].field], spec) {
        assert rest[j] == ws[j + 1];
        DisjointIsSymmetric(spec, fields[rest[j].field]);
      }
      StageKeepsDisjoint(fields, rest, first.rx, spec);
    } else {
      StagedFieldsReadBack(fields, rest, first.rx, i - 1);
    }
  }

  /** Is the trigger, as staged in our own image, up? */
  predicate TriggerUp(fields: Fields, rx: Buffer) {
    TRIGGER in fields && Decode(fields[TRIGGER], rx) == Ok(VBool(true))
  }

  lemma {:induction false} StageSplit(fields: Fields, ws: seq<Write>, last: Write, rx: Buffer)
    ensures var front := StageAll(fields, ws, rx);
            StageAll(fields, ws + [last], rx) ==
            if front.result.Err? then front else WriteNamed(fields, last, front.rx)
    decreases |ws|
  {
    if ws == [] {
      assert [last][1..] == [] && ws + [last] == [last];
    } else {
      var first := WriteNamed(fields, ws[0], rx);
      assert (ws + [last])[1..] == ws[1..] + [last];
      if first.result.Ok? { StageSplit(fields, ws[1..], last, first.rx); }
    }
  }

  /** An error anywhere leaves the trigger as it was. */
  lemma ErrorLeavesTrigger(fields: Fields, g: Goal, routine: bv8, rx: Buffer)
    requires Layout(fields) && StageAll(fields, Writes(g, routine), rx).result.Err? && TRIGGER in fields
    ensures Decode(fields[TRIGGER], StageAll(fields, Writes(g, routine), rx).rx) == Decode(fields[TRIGGER], rx)
  {
    var targets, ws := Targets(g, routine), Writes(g, routine);
    WritesFollowNames(fields, g, routine);
    StageSplit(fields, targets, Raise(), rx);
    forall i | 0 <= i < 7 && targets[i].field in fields ensures Disjoint(fields[targets[i].field], fields[TRIGGER]) {
      assert ws[i] == targets[i] && ws[7].field == TRIGGER;
    }
    StageKeepsDisjoint(fields, targets, rx, fields[TRIGGER]);
  }

  /**
    Submission: on success each field reads back as its argument, the trigger as true; on failure
    the trigger is as it was; either way no bit outside the eight fields changes
    (StageKeepsUnowned).
  */
  lemma SubmissionIsAllOrNoTrigger(fields: Fields, g: Goal, routine: bv8, rx: Buffer)
    requires Layout(fields)
    ensures var ws, after := Writes(g, routine), StageAll(fields, Writes(g, routine), rx);
            if after.result.Ok? then forall i | 0 <= i < 8 :: ReadsBack(fields, ws[i], after.rx)
            else TriggerUp(fields, after.rx) <==> TriggerUp(fields, rx)
  {
    var ws, after := Writes(g, routine), StageAll(fields, Writes(g, routine), rx);
    if after.result.Ok? {
      WritesFollowNames(fields, g, routine);
      forall i | 0 <= i < 8 ensures ReadsBack(fields, ws[i], after.rx) { StagedFieldsReadBack(fields, ws, rx, i); }
    } else if TRIGGER in fields {
      ErrorLeavesTrigger(fields, g, routine, rx);
    }
  }

  lemma SubmissionRaises(fields: Fields, g: Goal, routine: bv8, rx: Buffer)
    requires Layout(fields) && StageAll(fields, Writes(g, routine), rx).result.Ok?
    ensures TriggerUp(fields, StageAll(fields, Writes(g, routine), rx).rx)
  {
    SubmissionIsAllOrNoTrigger(fields, g, routine, rx);
    assert ReadsBack(fields, Writes(g, routine)[7], StageAll(fields, Writes(g, routine), rx).rx);
  }

  /** The image asks for exactly this motion: each field reads back as the goal's own value for it. */
  ghost predicate Holds(fields: Fields, g: Goal, routine: bv8, rx: Buffer) {
    && ReadsAs(fields, TARGET_X, VF32(g.x), rx) && ReadsAs(fields, TARGET_Y, VF32(g.y), rx)
    && ReadsAs(fields, TARGET_Z, VF32(g.z), rx) && ReadsAs(fields, TARGET_U, VF32(g.u), rx)
    && ReadsAs(fields, SPEED, VU16(g.speed), rx) && ReadsAs(fields, ACCEL, VU16(g.accel), rx)
    && ReadsAs(fields, ROUTINE, VU8(routine), rx) && ReadsAs(fields, TRIGGER, VBool(true), rx)
  }

  predicate ReadsAs(fields: Fields, name: Name, v: TypedValue, rx: Buffer) {
    name in fields && Decode(fields[name], rx) == Ok(v)
  }

  /** A submission that succeeds has staged the goal; one that fails has left the trigger alone. */
  lemma StagedGoal(fields: Fields, g: Goal, routine: bv8, rx: Buffer)
    requires Layout(fields)
    ensures var after := StageAll(fields, Writes(g, routine), rx);
            if after.result.Ok? then Holds(fields, g, routine, after.rx)
            else TriggerUp(fields, after.rx) == TriggerUp(fields, rx)
  {
    hide StageAll, Decode;
    var ws, after := Writes(g, routine), StageAll(fields, Writes(g, routine), rx);
    SubmissionIsAllOrNoTrigger(fields, g, routine, rx);
    if after.result.Ok? {
      assert ReadsBack(fields, ws[0], after.rx) && ReadsBack(fields, ws[1], after.rx);
      assert ReadsBack(fields, ws[2], after.rx) && ReadsBack(fields, ws[3], after.rx);
      assert ReadsBack(fields, ws[4], after.rx) && ReadsBack(fields, ws[5], after.rx);
      assert ReadsBack(fields, ws[6], after.rx) && ReadsBack(fields, ws[7], after.rx);
    }
  }

  method SubmitScaraGoal(reg: Registry, buffers: map<nat, SlaveBuffers>, g: Goal) returns (r: Result<(), ScaraError>)
    modifies set s | s in buffers :: buffers[s].rx
    // what is asked for must exist, and is looked up in this order
    ensures g.device !in reg ==> r == Err(UnknownDevice)
    ensures g.device in reg ==>
              var d := reg[g.device];
              && (d.slave.None? ==> r == Err(NotBound))
              && (d.slave.Some? && g.motion !in d.routines ==> r == Err(UnknownMotion))
              && (d.slave.Some? && g.motion in d.routines && d.slave.value !in buffers ==> r == Err(NoBuffers))
    // on success the image holds the goal; on failure the trigger is as it was
    ensures r.Ok? ==>
              && g.device in reg && reg[g.device].slave.Some? && reg[g.device].slave.value in buffers
              && g.motion in reg[g.device].routines
              && var d := reg[g.device];
                 Layout(d.fields) ==> Holds(d.fields, g, d.routines[g.motion], buffers[d.slave.value].rx[..])
    ensures r.Err? && g.device in reg && Layout(reg[g.device].fields) ==>
              forall s | s in buffers ::
                TriggerUp(reg[g.device].fields, buffers[s].rx[..]) ==
                old(TriggerUp(reg[g.device].fields, buffers[s].rx[..]))
    // the whole effect, step by step
    ensures match Resolved(reg, buffers.Keys, g)
            case Err(e) => r == Err(e) && forall s | s in buffers :: buffers[s].rx[..] == old(buffers[s].rx[..])
            case Ok(found) =>
              && Staged(buffers[found.1].rx[..], r) ==
                  StageAll(found.0.fields, Writes(g, found.2), old(buffers[found.1].rx[..]))
              && forall s | s in buffers && buffers[s].rx != buffers[found.1].rx ::
                  buffers[s].rx[..] == old(buffers[s].rx[..])
  {
    var found :- Resolved(reg, buffers.Keys, g);
    var rx := buffers[found.1].rx;
    ghost var before := rx[..];
    ghost var fields := found.0.fields;
    if Layout(fields) { StagedGoal(fields, g, found.2, before); }
    var ws := Writes(g, found.2);
    for i := 0 to |ws|
      invariant StageAll(found.0.fields, ws, before) == StageAll(found.0.fields, ws[i..], rx[..])
      invariant forall s | s in buffers && buffers[s].rx != rx :: buffers[s].rx[..] == old(buffers[s].rx[..])
    {
      assert ws[i..][0] == ws[i] && ws[i..][1..] == ws[i + 1..];
      var e := WriteNamedField(found.0.fields, ws[i], rx);
      if e.Err? { return e; }
    }
    return Ok(());
  }

  // ---------------------------------------------------------------- status and the falling edge

  function ReadBool(fields: Fields, field: Name, tx: Buffer): Result<bool, ScaraError> {
    if field !in fields then Err(UnknownField(field))
    else
      match Decode(fields[field], tx)
      case Err(e) => Err(Encoding(field, e))
      case Ok(VBool(b)) => Ok(b)
      case Ok(_) => Err(WrongType(field))
  }

  function ReadU16(fields: Fields, field: Name, tx: Buffer): Result<bv16, ScaraError> {
    if field !in fields then Err(UnknownField(field))
    else
      match Decode(fields[field], tx)
      case Err(e) => Err(Encoding(field, e))
      case Ok(VU16(v)) => Ok(v)
      case Ok(VU32(v)) => Ok(Low16(v))
      case Ok(_) => Err(WrongType(field))
  }

  function ReadF32(fields: Fields, field: Name, tx: Buffer): Result<bv32, ScaraError> {
    if field !in fields then Err(UnknownField(field))
    else
      match Decode(fields[field], tx)
      case Err(e) => Err(Encoding(field, e))
      case Ok(VF32(v)) => Ok(v)
      case Ok(_) => Err(WrongType(field))
  }

  function ReadAllF32(fields: Fields, names: seq<Name>, tx: Buffer): Result<seq<bv32>, ScaraError> {
    if names == [] then Ok([])
    else
      var first :- ReadF32(fields, names[0], tx);
      var rest :- ReadAllF32(fields, names[1..], tx);
      Ok([first] + rest)
  }

  /** All status fields must decode before anything is done with them. */
  function DecodeStatus(fields: Fields, tx: Buffer): Result<Status, ScaraError> {
    var done :- ReadBool(fields, DONE, tx);
    var busy :- ReadBool(fields, BUSY, tx);
    var errorCode :- ReadU16(fields, ERROR_CODE, tx);
    var pose :- ReadAllF32(fields, [CURRENT_X, CURRENT_Y, CURRENT_Z, CURRENT_U], tx);
    var joints :- ReadAllF32(fields, [JOINT_1, JOINT_2, JOINT_3, JOINT_4], tx);
    Ok(Status(done, busy, errorCode, pose, joints))
  }

  /** A 16-bit code, or one carried in 32 bits, of which it is the low half. */
  ghost predicate ReadsAsCode(fields: Fields, name: Name, code: bv16, tx: Buffer) {
    name in fields &&
    match Decode(fields[name], tx)
    case Ok(VU16(v)) => code == v
    case Ok(VU32(v)) => code == (v & 0xFFFF) as bv16
    case _ => false
  }

  /** A status reports each field as it decodes. */
  ghost predicate Reports(fields: Fields, tx: Buffer, s: Status) {
    && ReadsAs(fields, DONE, VBool(s.done), tx) && ReadsAs(fields, BUSY, VBool(s.busy), tx)
    && ReadsAsCode(fields, ERROR_CODE, s.errorCode, tx)
    && |s.pose| == 4 && |s.joints| == 4
    && ReadsAs(fields, CURRENT_X, VF32(s.pose[0]), tx) && ReadsAs(fields, CURRENT_Y, VF32(s.pose[1]), tx)
    && ReadsAs(fields, CURRENT_Z, VF32(s.pose[2]), tx) && ReadsAs(fields, CURRENT_U, VF32(s.pose[3]), tx)
    && ReadsAs(fields, JOINT_1, VF32(s.joints[0]), tx) && ReadsAs(fields, JOINT_2, VF32(s.joints[1]), tx)
    && ReadsAs(fields, JOINT_3, VF32(s.joints[2]), tx) && ReadsAs(fields, JOINT_4, VF32(s.joints[3]), tx)
  }

  lemma OneMoreRead(fields: Fields, name: Name, names: seq<Name>, tx: Buffer, vs: seq<bv32>)
    ensures ReadAllF32(fields, [name] + names, tx) == Ok(vs) <==>
            vs != [] && ReadsAs(fields, name, VF32(vs[0]), tx) && ReadAllF32(fields, names, tx) == Ok(vs[1..])
  {
    hide Decode;
    assert ([name] + names)[1..] == names;
    if vs != [] { assert vs == [vs[0]] + vs[1..]; }
  }

  lemma FourRead(fields: Fields, a: Name, b: Name, c: Name, d: Name, tx: Buffer, vs: seq<bv32>)
    ensures ReadAllF32(fields, [a, b, c, d], tx) == Ok(vs) <==>
            && |vs| == 4 && ReadsAs(fields, a, VF32(vs[0]), tx) && ReadsAs(fields, b, VF32(vs[1]), tx)
            && ReadsAs(fields, c, VF32(vs[2]), tx) && ReadsAs(fields, d, VF32(vs[3]), tx)
  {
    hide ReadsAs;
    assert [a] + [b, c, d] == [a, b, c, d] && [b] + [c, d] == [b, c, d] && [c] + [d] == [c, d] && [d] + [] == [d];
    OneMoreRead(fields, a, [b, c, d], tx, vs);
    NoneRead(fields, tx);
    if |vs| > 0 {
      OneMoreRead(fields, b, [c, d], tx, vs[1..]);
      if |vs| > 1 {
        assert vs[1..][0] == vs[1] && vs[1..][1..] == vs[2..];
        OneMoreRead(fields, c, [d], tx, vs[2..]);
        if |vs| > 2 {
          assert vs[2..][0] == vs[2] && vs[2..][1..] == vs[3..];
          OneMoreRead(fields, d, [], tx, vs[3..]);
          if |vs| > 3 { assert vs[3..][0] == vs[3] && vs[3..][1..] == vs[4..]; }
          if |vs| == 4 { assert vs[4..] == []; }
        }
      }
    }
  }

  lemma NoneRead(fields: Fields, tx: Buffer)
    ensures ReadAllF32(fields, [], tx) == Ok([])
  {
  }

  lemma BoolRead(fields: Fields, name: Name, tx: Buffer, b: bool)
    ensures ReadBool(fields, name, tx) == Ok(b) <==> ReadsAs(fields, name, VBool(b), tx)
  {
    hide Decode;
  }

  lemma CodeRead(fields: Fields, name: Name, tx: Buffer, code: bv16)
    ensures ReadU16(fields, name, tx) == Ok(code) <==> ReadsAsCode(fields, name, code, tx)
  {
    hide Decode;
  }

  /** Decoding gives a status exactly when it reports every field as it stands in the image. */
  lemma StatusIs(fields: Fields, tx: Buffer, s: Status)
    ensures DecodeStatus(fields, tx) == Ok(s) <==> Reports(fields, tx, s)
  {
    hide ReadsAs, ReadsAsCode, ReadBool, ReadU16, ReadAllF32;
    BoolRead(fields, DONE, tx, s.done);
    BoolRead(fields, BUSY, tx, s.busy);
    CodeRead(fields, ERROR_CODE, tx, s.errorCode);
    FourRead(fields, CURRENT_X, CURRENT_Y, CURRENT_Z, CURRENT_U, tx, s.pose);
    FourRead(fields, JOINT_1, JOINT_2, JOINT_3, JOINT_4, tx, s.joints);
  }

  datatype StatusRead = StatusRead(rx: Buffer, result: Result<Status, ScaraError>)

  /** What a status read that has seen done does to the output image: the falling edge, if the trigger is up. */
  function LowerTrigger(fields: Fields, rx: Buffer): Staged {
    match ReadBool(fields, TRIGGER, rx)
    case Err(e) => Staged(rx, Err(e))
    case Ok(up) => if up then WriteNamed(fields, Write(TRIGGER, VBool(false)), rx) else Staged(rx, Ok(()))
  }

  /** A status read nothing comes in between of: decode under the one lock, then lower under the other. */
  function ReadStatus(fields: Fields, tx: Buffer, rx: Buffer): StatusRead {
    match DecodeStatus(fields, tx)
    case Err(e) => StatusRead(rx, Err(e))
    case Ok(status) =>
      if !status.done then StatusRead(rx, Ok(status))
      else
        var w := LowerTrigger(fields, rx);
        StatusRead(w.rx, if w.result.Err? then Err(w.result.error) else Ok(status))
  }

  method LowerIfUp(fields: Fields, rx: array<Byte>) returns (r: Result<(), ScaraError>)
    modifies rx
    ensures Staged(rx[..], r) == LowerTrigger(fields, old(rx[..]))
  {
    var up :- ReadBool(fields, TRIGGER, rx[..]);
    if !up { return Ok(()); }
    r := WriteNamedField(fields, Write(TRIGGER, VBool(false)), rx);
  }

  method ReadScaraStatus(reg: Registry, buffers: map<nat, SlaveBuffers>, device: string)
      returns (r: Result<Status, ScaraError>)
    requires forall s | s in buffers :: buffers[s].rx != buffers[s].tx
    modifies set s | s in buffers :: buffers[s].rx
    ensures if device !in reg then r == Err(UnknownDevice)
            else if reg[device].slave.None? then r == Err(NotBound)
            else if reg[device].slave.value !in buffers then r == Err(NoBuffers)
            else
              var b := buffers[reg[device].slave.value];
              StatusRead(b.rx[..], r) == ReadStatus(reg[device].fields, old(b.tx[..]), old(b.rx[..]))
    ensures forall s | s in buffers ::
              (device in reg && reg[device].slave.Some? && reg[device].slave.value in buffers
               && buffers[s].rx == buffers[reg[device].slave.value].rx)
              || buffers[s].rx[..] == old(buffers[s].rx[..])
  {
    if device !in reg { return Err(UnknownDevice); }
    if reg[device].slave.None? { return Err(NotBound); }
    if reg[device].slave.value !in buffers { return Err(NoBuffers); }
    var b, fields := buffers[reg[device].slave.value], reg[device].fields;
    var status :- DecodeStatus(fields, b.tx[..]);
    if status.done {
      var w := LowerIfUp(fields, b.rx);
      if w.Err? { return Err(w.error); }
    }
    return Ok(status);
  }

  /**
    A status read that succeeds and reports done leaves the trigger down; one that does not report done
    leaves it alone.
  */
  lemma StatusReadAndTrigger(fields: Fields, tx: Buffer, rx: Buffer)
    ensures var s := ReadStatus(fields, tx, rx);
            && (s.result.Ok? && s.result.value.done ==> !TriggerUp(fields, s.rx))
            && (TriggerUp(fields, rx) && !TriggerUp(fields, s.rx) ==> s.result.Ok? && s.result.value.done)
            && (TriggerUp(fields, s.rx) ==> TriggerUp(fields, rx))
  {
    if TRIGGER in fields { LoweredIsDown(fields[TRIGGER], rx); }
  }

  lemma LoweredIsDown(spec: FieldSpec, rx: Buffer)
    ensures Encode(spec, VBool(false), rx).Ok? ==>
              Decode(spec, Encode(spec, VBool(false), rx).value) == Ok(VBool(false))
  {
    if Encode(spec, VBool(false), rx).Ok? { PlainReadsBack(spec, VBool(false), rx); }
  }

  /** A status read changes no bit but the trigger's. */
  lemma StatusReadKeepsOthers(fields: Fields, tx: Buffer, rx: Buffer, k: nat, bit: nat)
    requires k < |rx| && bit < 8 && (TRIGGER in fields ==> !Owns(fields[TRIGGER], k, bit))
    ensures |ReadStatus(fields, tx, rx).rx| == |rx| && SameBit(ReadStatus(fields, tx, rx).rx, rx, k, bit)
  {
    hide DecodeStatus, Decode, Encode;
    if TRIGGER in fields && Encode(fields[TRIGGER], VBool(false), rx).Ok? {
      EncodeKeepsOthers(fields[TRIGGER], VBool(false), rx, k, bit);
    }
  }

  // ---------------------------------------------------------------- runs

  // Several calls may be in progress at once. A submission holds the output image's lock throughout. A
  // status read decodes under the input image's lock, lets it go, and only then, if it has seen done,
  // takes the other lock to lower the trigger: two steps, between which anything may happen.

  /** One device's output image, and the status reads that have seen done and not lowered the trigger yet. */
  datatype Line = Line(rx: Buffer, lowering: set<nat>)

  /** `tx` is whatever the controller last sent. */
  datatype Op =
    | Submit(goal: Goal, routine: bv8)
    | Observe(reader: nat, tx: Buffer)
    | Lower(reader: nat)

  predicate SeesDone(fields: Fields, tx: Buffer) {
    var r := DecodeStatus(fields, tx);
    r.Ok? && r.value.done
  }

  function After(fields: Fields, l: Line, op: Op): Line {
    match op
    case Submit(g, routine) => l.(rx := StageAll(fields, Writes(g, routine), l.rx).rx)
    case Observe(reader, tx) =>
      if reader !in l.lowering && SeesDone(fields, tx) then l.(lowering := l.lowering + {reader}) else l
    case Lower(reader) =>
      if reader in l.lowering then Line(LowerTrigger(fields, l.rx).rx, l.lowering - {reader}) else l
  }

  /** The two steps of a read in a row are the read. */
  lemma StepsAreRead(fields: Fields, l: Line, reader: nat, tx: Buffer)
    requires reader !in l.lowering
    ensures After(fields, After(fields, l, Observe(reader, tx)), Lower(reader)) ==
            l.(rx := ReadStatus(fields, tx, l.rx).rx)
  {
    assert l.lowering + {reader} - {reader} == l.lowering;
  }

  function AfterAll(fields: Fields, l: Line, ops: seq<Op>): Line {
    if ops == [] then l else After(fields, AfterAll(fields, l, ops[..|ops| - 1]), ops[|ops| - 1])
  }

  /** How things stand just before operation i. */
  function LineAt(fields: Fields, l: Line, ops: seq<Op>, i: nat): Line
    requires i <= |ops|
  {
    AfterAll(fields, l, ops[..i])
  }

  predicate UpAt(fields: Fields, l: Line, ops: seq<Op>, i: nat)
    requires i <= |ops|
  {
    TriggerUp(fields, LineAt(fields, l, ops, i).rx)
  }

  predicate RisingAt(fields: Fields, l: Line, ops: seq<Op>, i: nat)
    requires i < |ops|
  {
    !UpAt(fields, l, ops, i) && UpAt(fields, l, ops, i + 1)
  }

  lemma StepIs(fields: Fields, l: Line, ops: seq<Op>, i: nat)
    requires i < |ops|
    ensures LineAt(fields, l, ops, i + 1) == After(fields, LineAt(fields, l, ops, i), ops[i])
  {
    assert ops[..i + 1][..i] == ops[..i];
  }

  /** Was the trigger up before each operation, and after the last? */
  function Ups(fields: Fields, l: Line, ops: seq<Op>): (r: seq<bool>)
    ensures |r| == |ops| + 1 && forall i | 0 <= i <= |ops| :: r[i] == UpAt(fields, l, ops, i)
  {
    seq(|ops| + 1, i requires 0 <= i <= |ops| => UpAt(fields, l, ops, i))
  }

  /** What holds at i and not at j stops holding in some step between. */
  lemma {:induction false} LastUp(ups: seq<bool>, i: nat, j: nat) returns (k: nat)
    requires i <= j < |ups| && ups[i] && !ups[j]
    ensures i <= k < j && ups[k] && !ups[k + 1]
    decreases j
  {
    if ups[j - 1] { k := j - 1; } else { k := LastUp(ups, i, j - 1); }
  }

  /** The trigger goes down only in the second step of a status read that has seen done. */
  lemma OnlyDoneLowers(fields: Fields, l: Line, op: Op)
    requires Layout(fields) && TriggerUp(fields, l.rx) && !TriggerUp(fields, After(fields, l, op).rx)
    ensures op.Lower? && op.reader in l.lowering
  {
    match op
    case Submit(g, routine) =>
      SubmissionIsAllOrNoTrigger(fields, g, routine, l.rx);
      if StageAll(fields, Writes(g, routine), l.rx).result.Ok? { SubmissionRaises(fields, g, routine, l.rx); }
    case Observe(_, _) =>
    case Lower(_) =>
  }

  lemma RisingIsSubmit(fields: Fields, l: Line, ops: seq<Op>, i: nat)
    requires i < |ops| && RisingAt(fields, l, ops, i)
    ensures ops[i].Submit?
  {
    StepIs(fields, l, ops, i);
    if ops[i].Lower? { LoweringNeverRaises(fields, LineAt(fields, l, ops, i).rx); }
  }

  lemma LoweringNeverRaises(fields: Fields, rx: Buffer)
    ensures TriggerUp(fields, LowerTrigger(fields, rx).rx) ==> TriggerUp(fields, rx)
  {
  }

  /** The read is between its two steps all the way from just before operation i to just before operation k. */
  ghost predicate InProgress(fields: Fields, l: Line, ops: seq<Op>, reader: nat, i: nat, k: nat) {
    k <= |ops| && forall x | i <= x <= k :: reader in LineAt(fields, l, ops, x).lowering
  }

  /** A read about to lower the trigger saw done in its first step, and has been in progress since. */
  lemma {:induction false} SawDone(fields: Fields, l: Line, ops: seq<Op>, reader: nat, k: nat) returns (m: nat)
    requires l.lowering == {} && k <= |ops| && reader in LineAt(fields, l, ops, k).lowering
    ensures m < k && ops[m].Observe? && ops[m].reader == reader && SeesDone(fields, ops[m].tx)
    ensures reader !in LineAt(fields, l, ops, m).lowering && InProgress(fields, l, ops, reader, m + 1, k)
    decreases k
  {
    hide StageAll, LowerTrigger, SeesDone;
    if k > 0 {
      StepIs(fields, l, ops, k - 1);
      if reader in LineAt(fields, l, ops, k - 1).lowering {
        m := SawDone(fields, l, ops, reader, k - 1);
      } else {
        m := k - 1;
      }
    }
  }

  /**
    Over any run of submissions and overlapping status reads, whatever the controller sends: only a
    submission raises the trigger, and between two rising edges i and j a read that has seen done
    lowers it, at k. It saw done, at m, after the first edge exactly unless it was in progress all
    the way from that edge on.
  */
  lemma EdgesAreSeparatedByDone(fields: Fields, l: Line, ops: seq<Op>, i: nat, j: nat) returns (m: nat, k: nat)
    requires Layout(fields) && l.lowering == {}
    requires i < j < |ops| && RisingAt(fields, l, ops, i) && RisingAt(fields, l, ops, j)
    ensures ops[i].Submit? && ops[j].Submit?
    ensures m < k && i < k < j && ops[m].Observe? && ops[k] == Lower(ops[m].reader)
    ensures SeesDone(fields, ops[m].tx) && InProgress(fields, l, ops, ops[m].reader, m + 1, k)
    ensures i < m <==> !InProgress(fields, l, ops, ops[m].reader, i, k)
  {
    hide StageAll, LowerTrigger, SeesDone, TriggerUp, AfterAll;
    RisingIsSubmit(fields, l, ops, i);
    RisingIsSubmit(fields, l, ops, j);
    k := LastUp(Ups(fields, l, ops), i + 1, j);
    StepIs(fields, l, ops, k);
    OnlyDoneLowers(fields, LineAt(fields, l, ops, k), ops[k]);
    m := SawDone(fields, l, ops, ops[k].reader, k);
  }

  /** If no status read is between its steps when the first goal is submitted, done is seen between the edges. */
  lemma DoneIsSeenBetween(fields: Fields, l: Line, ops: seq<Op>, i: nat, j: nat) returns (m: nat)
    requires Layout(fields) && l.lowering == {}
    requires i < j < |ops| && RisingAt(fields, l, ops, i) && RisingAt(fields, l, ops, j)
    requires LineAt(fields, l, ops, i).lowering == {}
    ensures i < m < j && ops[m].Observe? && SeesDone(fields, ops[m].tx)
  {
    var k;
    m, k := EdgesAreSeparatedByDone(fields, l, ops, i, j);
    assert ops[m].reader !in LineAt(fields, l, ops, i).lowering;
  }

  // ---------------------------------------------------------------- a stale done

  /** Two reads see the same done; the first one's lowering step comes only after the next submission. */
  function StaleRun(g: Goal, routine: bv8, tx: Buffer): (ops: seq<Op>)
    ensures |ops| == 7
  {
    [Submit(g, routine), Observe(0, tx), Observe(1, tx), Lower(1), Submit(g, routine), Lower(0), Submit(g, routine)]
  }

  /** Whether a submission is accepted depends on the image's size, not on what is in it. */
  lemma {:induction false} StagingGoesBySize(fields: Fields, ws: seq<Write>, a: Buffer, b: Buffer)
    requires |a| == |b|
    ensures StageAll(fields, ws, a).result == StageAll(fields, ws, b).result
    ensures |StageAll(fields, ws, a).rx| == |a| && |StageAll(fields, ws, b).rx| == |b|
    decreases |ws|
  {
    if ws != [] {
      var x, y := WriteNamed(fields, ws[0], a), WriteNamed(fields, ws[0], b);
      EncodingGoesBySize(fields, ws[0], a, b);
      if x.result.Ok? { StagingGoesBySize(fields, ws[1..], x.rx, y.rx); }
    }
  }

  lemma EncodingGoesBySize(fields: Fields, w: Write, a: Buffer, b: Buffer)
    requires |a| == |b|
    ensures var x, y := WriteNamed(fields, w, a), WriteNamed(fields, w, b);
            x.result == y.result && |x.rx| == |a| && |y.rx| == |b|
  {
  }

  /** Where submissions are accepted, a raised trigger can be lowered. */
  lemma LoweringWorks(fields: Fields, g: Goal, routine: bv8, rx: Buffer)
    requires Layout(fields) && StageAll(fields, Writes(g, routine), rx).result.Ok? && TriggerUp(fields, rx)
    ensures var w := LowerTrigger(fields, rx); !TriggerUp(fields, w.rx) && |w.rx| == |rx|
  {
    var front := StageAll(fields, Targets(g, routine), rx);
    StageSplit(fields, Targets(g, routine), Raise(), rx);
    StagingGoesBySize(fields, Targets(g, routine), rx, rx);
    assert WriteNamed(fields, Raise(), front.rx).result.Ok?;
    BothWaysOrNone(fields[TRIGGER], front.rx, rx);
    LoweredIsDown(fields[TRIGGER], rx);
  }

  lemma BothWaysOrNone(spec: FieldSpec, a: Buffer, b: Buffer)
    requires |a| == |b| && Encode(spec, VBool(true), a).Ok?
    ensures Encode(spec, VBool(false), b).Ok? && |Encode(spec, VBool(false), b).value| == |b|
  {
  }

  /**
    On every device that accepts a goal and reports done, a done seen before a submission can lower
    the trigger after it: the last two rising edges of this run have no decoded status between them.
  */
  lemma StaleDoneLowers(fields: Fields, g: Goal, routine: bv8, rx: Buffer, tx: Buffer)
    requires Layout(fields) && !TriggerUp(fields, rx) && SeesDone(fields, tx)
    requires StageAll(fields, Writes(g, routine), rx).result.Ok?
    ensures var l, ops := Line(rx, {}), StaleRun(g, routine, tx);
            && RisingAt(fields, l, ops, 0) && RisingAt(fields, l, ops, 4) && RisingAt(fields, l, ops, 6)
            && forall m | 4 < m < 6 :: !ops[m].Observe?
  {
    hide StageAll, LowerTrigger, SeesDone, TriggerUp, AfterAll, Writes;
    var ws := Writes(g, routine);
    var first := StageAll(fields, ws, rx).rx;
    SubmissionRaises(fields, g, routine, rx);
    StagingGoesBySize(fields, ws, rx, rx);
    StagingGoesBySize(fields, ws, rx, first);
    LoweringWorks(fields, g, routine, first);
    var down := LowerTrigger(fields, first).rx;
    StagingGoesBySize(fields, ws, rx, down);
    SubmissionRaises(fields, g, routine, down);
    var second := StageAll(fields, ws, down).rx;
    StagingGoesBySize(fields, ws, rx, second);
    LoweringWorks(fields, g, routine, second);
    var down' := LowerTrigger(fields, second).rx;
    StagingGoesBySize(fields, ws, rx, down');
    SubmissionRaises(fields, g, routine, down');
    StaleLines(fields, g, routine, rx, tx);
  }

  /** The lines along that run. */
  lemma StaleLines(fields: Fields, g: Goal, routine: bv8, rx: Buffer, tx: Buffer)
    requires SeesDone(fields, tx)
    ensures var l, ops, ws := Line(rx, {}), StaleRun(g, routine, tx), Writes(g, routine);
            var first := StageAll(fields, ws, rx).rx;
            var down := LowerTrigger(fields, first).rx;
            var second := StageAll(fields, ws, down).rx;
            var down' := LowerTrigger(fields, second).rx;
            && LineAt(fields, l, ops, 0) == l && LineAt(fields, l, ops, 1).rx == first
            && LineAt(fields, l, ops, 4).rx == down && LineAt(fields, l, ops, 5).rx == second
            && LineAt(fields, l, ops, 6).rx == down' && LineAt(fields, l, ops, 7).rx == StageAll(fields, ws, down').rx
  {
    hide StageAll, LowerTrigger, DecodeStatus, SeesDone, Writes;
    var l, ops := Line(rx, {}), StaleRun(g, routine, tx);
    assert ops[..0] == [];
    StepIs(fields, l, ops, 0);
    StepIs(fields, l, ops, 1);
    StepIs(fields, l, ops, 2);
    StepIs(fields, l, ops, 3);
    assert LineAt(fields, l, ops, 4).lowering == {0};
    StepIs(fields, l, ops, 4);
    StepIs(fields, l, ops, 5);
    StepIs(fields, l, ops, 6);
  }
}
