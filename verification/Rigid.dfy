/**
  Rigid transforms with exact real entries.

  Composition is the product of 4x4 matrices with bottom row 0 0 0 1, and the inverse is the closed
  form with the transposed rotation. They are the group the frame graph multiplies in.
*/
module Rigid {
  import opened FrameGraph

  datatype Vec = Vec(x: real, y: real, z: real)

  /** A 3x3 matrix by rows. */
  datatype Mat = Mat(r0: Vec, r1: Vec, r2: Vec)

  /** The upper three rows of a 4x4 transform. */
  datatype Affine = Affine(rot: Mat, trans: Vec)

  function Dot(u: Vec, v: Vec): real {
    u.x * v.x + u.y * v.y + u.z * v.z
  }

  function Add(u: Vec, v: Vec): Vec {
    Vec(u.x + v.x, u.y + v.y, u.z + v.z)
  }

  function Neg(v: Vec): Vec {
    Vec(-v.x, -v.y, -v.z)
  }

  function Apply(m: Mat, v: Vec): Vec {
    Vec(Dot(m.r0, v), Dot(m.r1, v), Dot(m.r2, v))
  }

  function Transpose(m: Mat): Mat {
    Mat(Vec(m.r0.x, m.r1.x, m.r2.x), Vec(m.r0.y, m.r1.y, m.r2.y), Vec(m.r0.z, m.r1.z, m.r2.z))
  }

  /** Row i of the product is row i of `a` against every column of `b`. */
  function Times(a: Mat, b: Mat): Mat {
    var c := Transpose(b);
    Mat(Apply(c, a.r0), Apply(c, a.r1), Apply(c, a.r2))
  }

  function Identity(): Mat {
    Mat(Vec(1.0, 0.0, 0.0), Vec(0.0, 1.0, 0.0), Vec(0.0, 0.0, 1.0))
  }

  // ---------------------------------------------------------------- matrix laws

  lemma DotRows(u: Vec, b: Mat, v: Vec)
    ensures Dot(Apply(Transpose(b), u), v) == Dot(u, Apply(b, v))
  {
  }

  /** The product acts as one transform after the other. */
  lemma ApplyTimes(a: Mat, b: Mat, v: Vec)
    ensures Apply(Times(a, b), v) == Apply(a, Apply(b, v))
  {
    DotRows(a.r0, b, v);
    DotRows(a.r1, b, v);
    DotRows(a.r2, b, v);
  }

  lemma TransposeTimes(a: Mat, b: Mat)
    ensures Transpose(Times(a, b)) == Times(Transpose(b), Transpose(a))
  {
  }

  lemma TimesAssociates(a: Mat, b: Mat, c: Mat)
    ensures Times(Times(a, b), c) == Times(a, Times(b, c))
  {
    TransposeTimes(b, c);
    ApplyTimes(Transpose(c), Transpose(b), a.r0);
    ApplyTimes(Transpose(c), Transpose(b), a.r1);
    ApplyTimes(Transpose(c), Transpose(b), a.r2);
  }

  lemma TimesIdentity(a: Mat)
    ensures Times(a, Identity()) == a == Times(Identity(), a)
  {
  }

  lemma ApplyAdd(m: Mat, u: Vec, v: Vec)
    ensures Apply(m, Add(u, v)) == Add(Apply(m, u), Apply(m, v))
    ensures Apply(m, Neg(u)) == Neg(Apply(m, u))
  {
  }

  lemma ApplyIdentity(v: Vec)
    ensures Apply(Identity(), v) == v
  {
  }

  // ---------------------------------------------------------------- rotations

  predicate UndoesAt(m: Mat, t: Mat, v: Vec) {
    Apply(m, Apply(t, v)) == v
  }

  ghost predicate Undoes(m: Mat, t: Mat) {
    forall v :: UndoesAt(m, t, v)
  }

  /** The transpose is a two-sided inverse. */
  ghost predicate IsRotation(m: Mat) {
    Undoes(m, Transpose(m)) && Undoes(Transpose(m), m)
  }

  lemma UndoesIsProduct(m: Mat, t: Mat)
    ensures Undoes(m, t) <==> Times(m, t) == Identity()
  {
    if Undoes(m, t) {
      Column(m, t, Vec(1.0, 0.0, 0.0));
      Column(m, t, Vec(0.0, 1.0, 0.0));
      Column(m, t, Vec(0.0, 0.0, 1.0));
      ByColumns(Times(m, t));
    }
    if Times(m, t) == Identity() {
      forall v ensures UndoesAt(m, t, v) {
        ApplyTimes(m, t, v);
        ApplyIdentity(v);
      }
    }
  }

  lemma Column(m: Mat, t: Mat, v: Vec)
    requires Undoes(m, t)
    ensures Apply(Times(m, t), v) == v
  {
    ApplyTimes(m, t, v);
    assert UndoesAt(m, t, v);
  }

  lemma ColumnsOf(p: Mat)
    ensures Apply(p, Vec(1.0, 0.0, 0.0)) == Vec(p.r0.x, p.r1.x, p.r2.x)
    ensures Apply(p, Vec(0.0, 1.0, 0.0)) == Vec(p.r0.y, p.r1.y, p.r2.y)
    ensures Apply(p, Vec(0.0, 0.0, 1.0)) == Vec(p.r0.z, p.r1.z, p.r2.z)
  {
  }

  lemma ByColumns(p: Mat)
    ensures (Apply(p, Vec(1.0, 0.0, 0.0)) == Vec(1.0, 0.0, 0.0)
             && Apply(p, Vec(0.0, 1.0, 0.0)) == Vec(0.0, 1.0, 0.0)
             && Apply(p, Vec(0.0, 0.0, 1.0)) == Vec(0.0, 0.0, 1.0)) ==> p == Identity()
  {
    ColumnsOf(p);
  }

  /** In matrix terms: the rotation block is orthogonal. */
  lemma RotationIsOrthogonal(m: Mat)
    ensures IsRotation(m) <==>
              Times(m, Transpose(m)) == Identity() && Times(Transpose(m), m) == Identity()
  {
    UndoesIsProduct(m, Transpose(m));
    UndoesIsProduct(Transpose(m), m);
  }

  lemma UndoesProduct(a: Mat, b: Mat, b': Mat, a': Mat)
    requires Undoes(a, a') && Undoes(b, b')
    ensures Undoes(Times(a, b), Times(b', a'))
  {
    forall v ensures UndoesAt(Times(a, b), Times(b', a'), v) {
      ApplyTimes(b', a', v);
      ApplyTimes(a, b, Apply(b', Apply(a', v)));
      assert UndoesAt(b, b', Apply(a', v)) && UndoesAt(a, a', v);
    }
  }

  lemma ProductOfRotations(a: Mat, b: Mat)
    requires IsRotation(a) && IsRotation(b)
    ensures IsRotation(Times(a, b))
  {
    TransposeTimes(a, b);
    UndoesProduct(a, b, Transpose(b), Transpose(a));
    UndoesProduct(Transpose(b), Transpose(a), a, b);
  }

  lemma IdentityIsRotation()
    ensures IsRotation(Identity())
  {
    assert Transpose(Identity()) == Identity();
    forall v ensures UndoesAt(Identity(), Identity(), v) { ApplyIdentity(v); }
  }

  // ---------------------------------------------------------------- poses

  type Pose = a: Affine | IsRotation(a.rot) ghost witness (IdentityIsRotation(); Affine(Identity(), Vec(0.0, 0.0, 0.0)))

  function Unit(): Pose {
    IdentityIsRotation();
    Affine(Identity(), Vec(0.0, 0.0, 0.0))
  }

  function Compose(a: Pose, b: Pose): Pose {
    ProductOfRotations(a.rot, b.rot);
    Affine(Times(a.rot, b.rot), Add(Apply(a.rot, b.trans), a.trans))
  }

  lemma TransposeIsRotation(m: Mat)
    requires IsRotation(m)
    ensures IsRotation(Transpose(m))
  {
    assert Transpose(Transpose(m)) == m;
  }

  /** Transposed rotation, and the translation rotated back and negated. */
  function Invert(a: Pose): Pose {
    var t := Transpose(a.rot);
    TransposeIsRotation(a.rot);
    Affine(t, Neg(Apply(t, a.trans)))
  }

  function MapPoint(a: Pose, p: Vec): Vec {
    Add(Apply(a.rot, p), a.trans)
  }

  function Poses(): Group<Pose> {
    Group(Unit(), (a: Pose, b: Pose) => Compose(a, b), (a: Pose) => Invert(a))
  }

  lemma ShiftBack(u: Vec, v: Vec)
    ensures Add(Add(u, v), Neg(v)) == u && Add(v, Neg(v)) == Vec(0.0, 0.0, 0.0) == Add(Neg(v), v)
  {
  }

  lemma AddAssociates(u: Vec, v: Vec, w: Vec)
    ensures Add(Add(u, v), w) == Add(u, Add(v, w))
  {
  }

  /** A pose takes the origin to its translation and turns the axes into the columns of its rotation. */
  lemma MapIs(a: Pose, p: Vec)
    ensures var m := a.rot;
            MapPoint(a, p) == Vec(m.r0.x * p.x + m.r0.y * p.y + m.r0.z * p.z + a.trans.x,
                                  m.r1.x * p.x + m.r1.y * p.y + m.r1.z * p.z + a.trans.y,
                                  m.r2.x * p.x + m.r2.y * p.y + m.r2.z * p.z + a.trans.z)
  {
  }

  lemma MapCompose(a: Pose, b: Pose, p: Vec)
    ensures MapPoint(Compose(a, b), p) == MapPoint(a, MapPoint(b, p))
  {
    ApplyTimes(a.rot, b.rot, p);
    ApplyAdd(a.rot, Apply(b.rot, p), b.trans);
    AddAssociates(Apply(a.rot, Apply(b.rot, p)), Apply(a.rot, b.trans), a.trans);
  }

  /** The inverse maps every point back. */
  lemma MapInvert(a: Pose, p: Vec)
    ensures MapPoint(Invert(a), MapPoint(a, p)) == p
  {
    var t := Transpose(a.rot);
    ApplyAdd(t, Apply(a.rot, p), a.trans);
    assert UndoesAt(t, a.rot, p);
    ShiftBack(p, Apply(t, a.trans));
  }

  lemma ComposeAssociates(a: Pose, b: Pose, c: Pose)
    ensures Compose(Compose(a, b), c) == Compose(a, Compose(b, c))
  {
    TimesAssociates(a.rot, b.rot, c.rot);
    ApplyTimes(a.rot, b.rot, c.trans);
    ApplyAdd(a.rot, Apply(b.rot, c.trans), b.trans);
    AddAssociates(Apply(a.rot, Apply(b.rot, c.trans)), Apply(a.rot, b.trans), a.trans);
  }

  lemma BackAndForth(m: Mat, t: Mat, v: Vec)
    requires UndoesAt(m, t, v)
    ensures Apply(m, Neg(Apply(t, v))) == Neg(v)
  {
    ApplyAdd(m, Apply(t, v), v);
  }

  /** The closed form is a two-sided inverse. */
  lemma InvertIsInverse(a: Pose)
    ensures Compose(Invert(a), a) == Unit() == Compose(a, Invert(a))
  {
    var t := Transpose(a.rot);
    UndoesIsProduct(a.rot, t);
    UndoesIsProduct(t, a.rot);
    assert UndoesAt(a.rot, t, a.trans);
    BackAndForth(a.rot, t, a.trans);
    ShiftBack(a.trans, a.trans);
    ShiftBack(a.trans, Apply(t, a.trans));
  }

  lemma AddZero(v: Vec)
    ensures Add(v, Vec(0.0, 0.0, 0.0)) == v == Add(Vec(0.0, 0.0, 0.0), v)
  {
  }

  lemma ApplyZero(m: Mat)
    ensures Apply(m, Vec(0.0, 0.0, 0.0)) == Vec(0.0, 0.0, 0.0)
  {
  }

  lemma ComposeUnit(a: Pose)
    ensures Compose(Unit(), a) == a == Compose(a, Unit())
  {
    TimesIdentity(a.rot);
    ApplyIdentity(a.trans);
    ApplyZero(a.rot);
    AddZero(a.trans);
  }

  lemma PosesFormAGroup()
    ensures IsGroup(Poses())
  {
    var g := Poses();
    forall a, b, c ensures AssociatesAt(g, a, b, c) { ComposeAssociates(a, b, c); }
    forall a ensures UnitAt(g, a) { ComposeUnit(a); }
    forall a ensures InverseAt(g, a) { InvertIsInverse(a); }
  }

  /**
    On a forest of rigid edges a point gets the same coordinates in c whether it is taken there
    directly or through b, and going back returns it unchanged.
  */
  lemma PointsAgree(edges: Edges<Pose>, s: Snapshot<Pose>, a: Frame, b: Frame, c: Frame, ba: Pose, cb: Pose, ca: Pose,
          ab: Pose, p: Vec)
    requires IsForest(edges)
    requires LooksUp(Poses(), edges, s, b, a, ba) && LooksUp(Poses(), edges, s, c, b, cb)
    requires LooksUp(Poses(), edges, s, c, a, ca) && LooksUp(Poses(), edges, s, a, b, ab)
    ensures MapPoint(ca, p) == MapPoint(cb, MapPoint(ba, p))
    ensures MapPoint(ab, MapPoint(ba, p)) == p
  {
    PosesFormAGroup();
    LookupIsFunctorial(Poses(), edges, s, a, b, c, ba, cb);
    LookupInverts(Poses(), edges, s, a, b, ba, ab);
    MapCompose(cb, ba, p);
    MapInvert(ba, p);
  }
}
