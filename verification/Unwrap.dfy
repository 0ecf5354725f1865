/**
  Making a sequence of angles in degrees continuous across the half-turn boundary, over exact
  reals, for single angles and for the rotation channels of poses.
*/
module Unwrap {

  function Ceiling(x: real): int {
    -((-x).Floor)
  }

  /** Fold the step from `last` to `v` back into (-180, 180]. */
  function Fold(last: real, v: real): real {
    v - 360.0 * Ceiling((v - last - 180.0) / 360.0) as real
  }

  function Unwrapped(values: seq<real>): (r: seq<real>)
    ensures |r| == |values|
  {
    if |values| <= 1 then values
    else
      var before := Unwrapped(values[..|values| - 1]);
      before + [Fold(before[|before| - 1], values[|values| - 1])]
  }

  method UnwrapEuler(values: seq<real>) returns (out: seq<real>)
    ensures out == Unwrapped(values)
    ensures IsUnwrapping(values, out)
  {
    if values == [] { return []; }
    out := [values[0]];
    for i := 1 to |values|
      invariant out == Unwrapped(values[..i])
    {
      assert values[..i + 1][..i] == values[..i];
      out := out + [Fold(out[|out| - 1], values[i])];
    }
    assert values[..|values|] == values;
    UnwrappedIs(values);
  }

  predicate Congruent(a: real, b: real) {
    ((a - b) / 360.0).Floor as real * 360.0 == a - b
  }

  /** The same first angle, each angle the same direction as its input, each step a half turn at most. */
  predicate IsUnwrapping(values: seq<real>, out: seq<real>) {
    && |out| == |values|
    && (values != [] ==> out[0] == values[0])
    && (forall i | 0 <= i < |out| :: Congruent(out[i], values[i]))
    && (forall i | 1 <= i < |out| :: -180.0 < out[i] - out[i - 1] <= 180.0)
  }

  lemma CongruentBy(a: real, b: real, k: int)
    requires a - b == 360.0 * k as real
    ensures Congruent(a, b)
  {
    assert (a - b) / 360.0 == k as real;
  }

  lemma Turns(a: real, b: real) returns (k: int)
    requires Congruent(a, b)
    ensures a - b == 360.0 * k as real
  {
    k := ((a - b) / 360.0).Floor;
  }

  lemma FoldStep(last: real, v: real)
    ensures -180.0 < Fold(last, v) - last <= 180.0 && Congruent(Fold(last, v), v)
  {
    var t := (v - last - 180.0) / 360.0;
    var c := Ceiling(t);
    assert c as real - 1.0 < t <= c as real;
    CongruentBy(Fold(last, v), v, -c);
  }

  lemma {:induction false} UnwrappedIs(values: seq<real>)
    ensures IsUnwrapping(values, Unwrapped(values))
    decreases |values|
  {
    if |values| == 1 {
      CongruentBy(values[0], values[0], 0);
    } else if |values| > 1 {
      var front := values[..|values| - 1];
      UnwrappedIs(front);
      FoldStep(Unwrapped(front)[|front| - 1], values[|values| - 1]);
    }
  }

  lemma CongruentTrans(a: real, b: real, c: real)
    requires Congruent(a, b) && Congruent(b, c)
    ensures Congruent(a, c) && Congruent(b, a)
  {
    var j := Turns(a, b);
    var k := Turns(b, c);
    CongruentBy(a, c, j + k);
    CongruentBy(b, a, -j);
  }

  lemma OneFold(last: real, v: real, a: real, b: real)
    requires Congruent(a, v) && Congruent(b, v) && -180.0 < a - last <= 180.0 && -180.0 < b - last <= 180.0
    ensures a == b
  {
    var j := Turns(a, v);
    var k := Turns(b, v);
    LessThanATurn(a - b, j - k);
  }

  lemma LessThanATurn(d: real, k: int)
    requires d == 360.0 * k as real && -360.0 < d < 360.0
    ensures d == 0.0
  {
    assert -1 < k < 1;
  }

  lemma OnlyFold(last: real, v: real, a: real)
    requires Congruent(a, v) && -180.0 < a - last <= 180.0
    ensures a == Fold(last, v)
  {
    FoldStep(last, v);
    OneFold(last, v, a, Fold(last, v));
  }

  /** There is only one unwrapping: any sequence with the three properties is the one computed. */
  lemma {:induction false} OnlyUnwrapping(values: seq<real>, out: seq<real>)
    requires IsUnwrapping(values, out)
    ensures out == Unwrapped(values)
    decreases |values|
  {
    if |values| > 1 {
      var n := |values| - 1;
      OnlyUnwrapping(values[..n], out[..n]);
      assert out[..n][|out[..n]| - 1] == out[n - 1];
      OnlyFold(out[n - 1], values[n], out[n]);
      assert out == out[..n] + [out[n]];
    }
  }

  /** Unwrapping again changes nothing. */
  lemma UnwrapTwice(values: seq<real>)
    ensures Unwrapped(Unwrapped(values)) == Unwrapped(values)
  {
    UnwrappedIs(values);
    var u := Unwrapped(values);
    forall i | 0 <= i < |u| ensures Congruent(u[i], u[i]) { CongruentBy(u[i], u[i], 0); }
    OnlyUnwrapping(u, u);
  }

  /** Reporting any later angle with full turns added or removed makes no difference. */
  lemma TurnsDoNotMatter(values: seq<real>, shifted: seq<real>)
    requires |values| == |shifted| && (values != [] ==> values[0] == shifted[0])
    requires forall i | 0 <= i < |values| :: Congruent(shifted[i], values[i])
    ensures Unwrapped(shifted) == Unwrapped(values)
  {
    UnwrappedIs(shifted);
    var u := Unwrapped(shifted);
    forall i | 0 <= i < |u| ensures Congruent(u[i], values[i]) { CongruentTrans(u[i], shifted[i], values[i]); }
    OnlyUnwrapping(values, u);
  }

  // ---------------------------------------------------------------- poses

  datatype Waypoint = Waypoint(x: real, y: real, z: real, rx: real, ry: real, rz: real)

  datatype Axis = Rx | Ry | Rz

  function Channel(poses: seq<Waypoint>, a: Axis): (r: seq<real>)
    ensures |r| == |poses|
  {
    seq(|poses|, i requires 0 <= i < |poses| =>
          match a case Rx => poses[i].rx case Ry => poses[i].ry case Rz => poses[i].rz)
  }

  function UnwrappedPoses(poses: seq<Waypoint>): (r: seq<Waypoint>)
    ensures |r| == |poses|
  {
    var rx, ry, rz := Unwrapped(Channel(poses, Rx)), Unwrapped(Channel(poses, Ry)), Unwrapped(Channel(poses, Rz));
    seq(|poses|, i requires 0 <= i < |poses| => Waypoint(poses[i].x, poses[i].y, poses[i].z, rx[i], ry[i], rz[i]))
  }

  lemma ChannelsUnwrapped(poses: seq<Waypoint>, a: Axis)
    ensures Channel(UnwrappedPoses(poses), a) == Unwrapped(Channel(poses, a))
  {
    var r, u := UnwrappedPoses(poses), Unwrapped(Channel(poses, a));
    forall i | 0 <= i < |r| ensures Channel(r, a)[i] == u[i] {
      match a
      case Rx =>
      case Ry =>
      case Rz =>
    }
  }

  /** Positions are untouched, every rotation channel is unwrapped on its own, and doing it again changes nothing. */
  lemma PosesUnwrapByChannel(poses: seq<Waypoint>, a: Axis)
    ensures var r := UnwrappedPoses(poses);
            && IsUnwrapping(Channel(poses, a), Channel(r, a))
            && (forall i | 0 <= i < |r| :: r[i].x == poses[i].x && r[i].y == poses[i].y && r[i].z == poses[i].z)
            && Channel(UnwrappedPoses(r), a) == Channel(r, a)
  {
    UnwrappedIs(Channel(poses, a));
    ChannelsUnwrapped(poses, a);
    ChannelsUnwrapped(UnwrappedPoses(poses), a);
    UnwrapTwice(Channel(poses, a));
  }
}
