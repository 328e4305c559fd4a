/**
 The frame algebra of core/math/Pose3D.h, core/math/RotationMatrix.cpp and core/math/Matrix3x3.h over the
 reals.  An angle enters only through its cosine and sine.
 */
module Frames {

  datatype Vec = Vec(x: real, y: real, z: real)

  function Add(u: Vec, v: Vec): Vec {
    Vec(u.x + v.x, u.y + v.y, u.z + v.z)
  }

  function Scale(u: Vec, f: real): Vec {
    Vec(u.x * f, u.y * f, u.z * f)
  }

  function Neg(u: Vec): Vec {
    Vec(-u.x, -u.y, -u.z)
  }

  const ZERO := Vec(0.0, 0.0, 0.0)

  /** A 3x3 matrix by its columns. */
  datatype Mat = Mat(c0: Vec, c1: Vec, c2: Vec)

  /** One row of a matrix times a vector. */
  function Row(a: real, b: real, c: real, v: Vec): real {
    a * v.x + b * v.y + c * v.z
  }

  function Apply(m: Mat, v: Vec): Vec {
    Vec(Row(m.c0.x, m.c1.x, m.c2.x, v), Row(m.c0.y, m.c1.y, m.c2.y, v), Row(m.c0.z, m.c1.z, m.c2.z, v))
  }

  function Mul(a: Mat, b: Mat): Mat {
    Mat(Apply(a, b.c0), Apply(a, b.c1), Apply(a, b.c2))
  }

  function Transpose(m: Mat): Mat {
    Mat(Vec(m.c0.x, m.c1.x, m.c2.x), Vec(m.c0.y, m.c1.y, m.c2.y), Vec(m.c0.z, m.c1.z, m.c2.z))
  }

  const IDENTITY := Mat(Vec(1.0, 0.0, 0.0), Vec(0.0, 1.0, 0.0), Vec(0.0, 0.0, 1.0))

  // ----- matrix algebra

  lemma RowScale(a: real, b: real, c: real, v: Vec, f: real)
    ensures Row(a, b, c, Scale(v, f)) == Row(a, b, c, v) * f
  {
  }

  lemma RowAdd(a: real, b: real, c: real, u: Vec, v: Vec)
    ensures Row(a, b, c, Add(u, v)) == Row(a, b, c, u) + Row(a, b, c, v)
    ensures Row(a, b, c, Neg(u)) == -Row(a, b, c, u)
  {
  }

  lemma RowSwap(u: Vec, v: Vec)
    ensures Row(u.x, u.y, u.z, v) == Row(v.x, v.y, v.z, u)
  {
  }

  lemma ApplyScale(m: Mat, v: Vec, f: real)
    ensures Apply(m, Scale(v, f)) == Scale(Apply(m, v), f)
  {
    RowScale(m.c0.x, m.c1.x, m.c2.x, v, f);
    RowScale(m.c0.y, m.c1.y, m.c2.y, v, f);
    RowScale(m.c0.z, m.c1.z, m.c2.z, v, f);
  }

  lemma ApplyAdd(m: Mat, u: Vec, v: Vec)
    ensures Apply(m, Add(u, v)) == Add(Apply(m, u), Apply(m, v))
    ensures Apply(m, Neg(u)) == Neg(Apply(m, u))
  {
    RowAdd(m.c0.x, m.c1.x, m.c2.x, u, v);
    RowAdd(m.c0.y, m.c1.y, m.c2.y, u, v);
    RowAdd(m.c0.z, m.c1.z, m.c2.z, u, v);
  }

  /** A matrix weighs its columns. */
  function Weigh(u: Vec, v: Vec, w: Vec, p: Vec): Vec {
    Add(Add(Scale(u, p.x), Scale(v, p.y)), Scale(w, p.z))
  }

  lemma ApplyWeighs(m: Mat, p: Vec)
    ensures Apply(m, p) == Weigh(m.c0, m.c1, m.c2, p)
  {
  }

  lemma ApplyLinear(m: Mat, u: Vec, v: Vec, w: Vec, p: Vec)
    ensures Apply(m, Weigh(u, v, w, p)) == Weigh(Apply(m, u), Apply(m, v), Apply(m, w), p)
  {
    hide Apply, Add, Scale;
    ApplyAdd(m, Add(Scale(u, p.x), Scale(v, p.y)), Scale(w, p.z));
    ApplyAdd(m, Scale(u, p.x), Scale(v, p.y));
    ApplyScale(m, u, p.x);
    ApplyScale(m, v, p.y);
    ApplyScale(m, w, p.z);
  }

  lemma ApplyMul(a: Mat, b: Mat, v: Vec)
    ensures Apply(Mul(a, b), v) == Apply(a, Apply(b, v))
  {
    hide Apply, Weigh;
    ApplyWeighs(Mul(a, b), v);
    ApplyWeighs(b, v);
    ApplyLinear(a, b.c0, b.c1, b.c2, v);
  }

  lemma MulAssoc(a: Mat, b: Mat, c: Mat)
    ensures Mul(Mul(a, b), c) == Mul(a, Mul(b, c))
  {
    ApplyMul(a, b, c.c0);
    ApplyMul(a, b, c.c1);
    ApplyMul(a, b, c.c2);
  }

  lemma MulIdentity(m: Mat, v: Vec)
    ensures Mul(IDENTITY, m) == m && Mul(m, IDENTITY) == m && Apply(IDENTITY, v) == v && Apply(m, ZERO) == ZERO
  {
  }

  lemma TransposeMul(a: Mat, b: Mat)
    ensures Transpose(Mul(a, b)) == Mul(Transpose(b), Transpose(a))
    ensures Transpose(Transpose(a)) == a
  {
    hide Row;
    TransposeColumn(Vec(a.c0.x, a.c1.x, a.c2.x), b);
    TransposeColumn(Vec(a.c0.y, a.c1.y, a.c2.y), b);
    TransposeColumn(Vec(a.c0.z, a.c1.z, a.c2.z), b);
  }

  /** A row times a matrix is the transposed matrix times that row. */
  lemma TransposeColumn(row: Vec, b: Mat)
    ensures Vec(Row(row.x, row.y, row.z, b.c0), Row(row.x, row.y, row.z, b.c1), Row(row.x, row.y, row.z, b.c2)) ==
        Apply(Transpose(b), row)
  {
    hide Row;
    RowSwap(row, b.c0);
    RowSwap(row, b.c1);
    RowSwap(row, b.c2);
  }

  /** The transpose is the inverse, on both sides. */
  ghost predicate Orthonormal(m: Mat) {
    Mul(Transpose(m), m) == IDENTITY && Mul(m, Transpose(m)) == IDENTITY
  }

  lemma OrthonormalMul(a: Mat, b: Mat)
    requires Orthonormal(a) && Orthonormal(b)
    ensures Orthonormal(Mul(a, b))
  {
    hide Mul, Transpose, Apply;
    var at, bt := Transpose(a), Transpose(b);
    TransposeMul(a, b);
    calc {
      Mul(Mul(bt, at), Mul(a, b));
      { MulAssoc(bt, at, Mul(a, b)); MulAssoc(at, a, b); }
      Mul(bt, Mul(IDENTITY, b));
      { MulIdentity(b, ZERO); }
      IDENTITY;
    }
    calc {
      Mul(Mul(a, b), Mul(bt, at));
      { MulAssoc(a, b, Mul(bt, at)); MulAssoc(b, bt, at); }
      Mul(a, Mul(IDENTITY, at));
      { MulIdentity(at, ZERO); }
      IDENTITY;
    }
  }

  lemma OrthonormalTranspose(m: Mat)
    requires Orthonormal(m)
    ensures Orthonormal(Transpose(m))
  {
    TransposeMul(m, m);
  }

  // ----- rotations

  datatype Angle = Angle(c: real, s: real)

  ghost predicate Unit(a: Angle) {
    a.c * a.c + a.s * a.s == 1.0
  }

  /** `RotationMatrix::rotateX` and its siblings: they recombine two columns. */
  function RotateX(m: Mat, a: Angle): Mat {
    Mat(m.c0, Add(Scale(m.c1, a.c), Scale(m.c2, a.s)), Add(Scale(m.c2, a.c), Neg(Scale(m.c1, a.s))))
  }

  function RotateY(m: Mat, a: Angle): Mat {
    Mat(Add(Scale(m.c0, a.c), Neg(Scale(m.c2, a.s))), m.c1, Add(Scale(m.c2, a.c), Scale(m.c0, a.s)))
  }

  function RotateZ(m: Mat, a: Angle): Mat {
    Mat(Add(Scale(m.c0, a.c), Scale(m.c1, a.s)), Add(Scale(m.c1, a.c), Neg(Scale(m.c0, a.s))), m.c2)
  }

  lemma RotateIsMul(m: Mat, a: Angle)
    ensures RotateX(m, a) == Mul(m, RotateX(IDENTITY, a))
    ensures RotateY(m, a) == Mul(m, RotateY(IDENTITY, a))
    ensures RotateZ(m, a) == Mul(m, RotateZ(IDENTITY, a))
  {
    AxisMatrices(a);
    hide RotateX, RotateY, RotateZ;
    RotateXIsMul(m, a);
    RotateYIsMul(m, a);
    RotateZIsMul(m, a);
  }

  function MatX(a: Angle): Mat {
    Mat(Vec(1.0, 0.0, 0.0), Vec(0.0, a.c, a.s), Vec(0.0, -a.s, a.c))
  }

  function MatY(a: Angle): Mat {
    Mat(Vec(a.c, 0.0, -a.s), Vec(0.0, 1.0, 0.0), Vec(a.s, 0.0, a.c))
  }

  function MatZ(a: Angle): Mat {
    Mat(Vec(a.c, a.s, 0.0), Vec(-a.s, a.c, 0.0), Vec(0.0, 0.0, 1.0))
  }

  lemma AxisMatrices(a: Angle)
    ensures RotateX(IDENTITY, a) == MatX(a) && RotateY(IDENTITY, a) == MatY(a) && RotateZ(IDENTITY, a) == MatZ(a)
  {
  }

  /** A quarter turn about an axis takes the next axis to the one after it: all turns are right-handed. */
  lemma QuarterTurns(a: Angle)
    requires a == Angle(0.0, 1.0)
    ensures Apply(RotateX(IDENTITY, a), Vec(0.0, 1.0, 0.0)) == Vec(0.0, 0.0, 1.0)
    ensures Apply(RotateY(IDENTITY, a), Vec(0.0, 0.0, 1.0)) == Vec(1.0, 0.0, 0.0)
    ensures Apply(RotateZ(IDENTITY, a), Vec(1.0, 0.0, 0.0)) == Vec(0.0, 1.0, 0.0)
  {
    hide Apply, RotateX, RotateY, RotateZ;
    AxisMatrices(a);
    ApplySparse(MatX(a), 0.0, 0.0);
    ApplySparse(MatY(a), 0.0, 0.0);
    ApplySparse(MatZ(a), 0.0, 0.0);
  }

  /** A matrix applied to a vector along one axis, or in one coordinate plane. */
  lemma ApplySparse(m: Mat, p: real, q: real)
    ensures Apply(m, Vec(0.0, p, q)) == Add(Scale(m.c1, p), Scale(m.c2, q))
    ensures Apply(m, Vec(p, 0.0, q)) == Add(Scale(m.c0, p), Scale(m.c2, q))
    ensures Apply(m, Vec(p, q, 0.0)) == Add(Scale(m.c0, p), Scale(m.c1, q))
    ensures Apply(m, Vec(1.0, 0.0, 0.0)) == m.c0 && Apply(m, Vec(0.0, 1.0, 0.0)) == m.c1
        && Apply(m, Vec(0.0, 0.0, 1.0)) == m.c2
  {
  }

  lemma AddNeg(u: Vec, v: Vec, f: real, g: real)
    ensures Add(Scale(u, -f), Scale(v, g)) == Add(Scale(v, g), Neg(Scale(u, f)))
    ensures Add(Scale(v, g), Scale(u, -f)) == Add(Scale(v, g), Neg(Scale(u, f)))
    ensures Add(Scale(u, f), Scale(v, g)) == Add(Scale(v, g), Scale(u, f))
  {
  }

  lemma RotateXIsMul(m: Mat, a: Angle)
    ensures RotateX(m, a) == Mul(m, MatX(a))
  {
    hide Apply, Add, Scale, Neg;
    ApplySparse(m, a.c, a.s);
    ApplySparse(m, -a.s, a.c);
    AddNeg(m.c1, m.c2, a.s, a.c);
  }

  lemma RotateYIsMul(m: Mat, a: Angle)
    ensures RotateY(m, a) == Mul(m, MatY(a))
  {
    hide Apply, Add, Scale, Neg;
    ApplySparse(m, a.c, -a.s);
    ApplySparse(m, a.s, a.c);
    AddNeg(m.c2, m.c0, a.s, a.c);
    AddNeg(m.c0, m.c2, a.s, a.c);
  }

  lemma RotateZIsMul(m: Mat, a: Angle)
    ensures RotateZ(m, a) == Mul(m, MatZ(a))
  {
    hide Apply, Add, Scale, Neg;
    ApplySparse(m, a.c, a.s);
    ApplySparse(m, -a.s, a.c);
    AddNeg(m.c0, m.c1, a.s, a.c);
  }

  function Opposite(a: Angle): Angle {
    Angle(a.c, -a.s)
  }

  lemma OppositeSquares(c: real, s: real)
    requires c * c + s * s == 1.0
    ensures c * c - s * -s == 1.0 && c * c + -s * -s == 1.0 && s * c + c * -s == 0.0 && c * -s + s * c == 0.0
  {
  }

  lemma BackX(a: Angle)
    requires Unit(a)
    ensures RotateX(MatX(a), Opposite(a)) == IDENTITY
  {
    var c, s := a.c, a.s;
    OppositeSquares(c, s);
    assert -s * -s == s * s && -s * c == -(s * c) && c * -s == -(c * s) && s * -s == -(s * s);
  }

  lemma BackY(a: Angle)
    requires Unit(a)
    ensures RotateY(MatY(a), Opposite(a)) == IDENTITY
  {
    var c, s := a.c, a.s;
    OppositeSquares(c, s);
    assert -s * -s == s * s && -s * c == -(s * c) && c * -s == -(c * s) && s * -s == -(s * s);
  }

  lemma BackZ(a: Angle)
    requires Unit(a)
    ensures RotateZ(MatZ(a), Opposite(a)) == IDENTITY
  {
    var c, s := a.c, a.s;
    OppositeSquares(c, s);
    assert -s * -s == s * s && -s * c == -(s * c) && c * -s == -(c * s) && s * -s == -(s * s);
  }

  /** Turning back by the same angle undoes a turn. */
  lemma TurnsBack(a: Angle)
    requires Unit(a)
    ensures Mul(MatX(a), MatX(Opposite(a))) == IDENTITY && Mul(MatY(a), MatY(Opposite(a))) == IDENTITY
        && Mul(MatZ(a), MatZ(Opposite(a))) == IDENTITY
  {
    hide RotateX, RotateY, RotateZ, Mul, MatX, MatY, MatZ;
    RotateXIsMul(MatX(a), Opposite(a));
    RotateYIsMul(MatY(a), Opposite(a));
    RotateZIsMul(MatZ(a), Opposite(a));
    BackX(a);
    BackY(a);
    BackZ(a);
  }

  lemma TransposedTurns(a: Angle)
    ensures Transpose(MatX(a)) == MatX(Opposite(a)) && Transpose(MatY(a)) == MatY(Opposite(a))
        && Transpose(MatZ(a)) == MatZ(Opposite(a))
    ensures Opposite(Opposite(a)) == a && (Unit(a) ==> Unit(Opposite(a)))
  {
    assert -a.s * -a.s == a.s * a.s;
  }

  lemma RotationOrthonormal(a: Angle)
    requires Unit(a)
    ensures Orthonormal(RotateX(IDENTITY, a)) && Orthonormal(RotateY(IDENTITY, a)) && Orthonormal(RotateZ(IDENTITY, a))
  {
    hide RotateX, RotateY, RotateZ, Mul, MatX, MatY, MatZ, Transpose, Opposite, Unit;
    AxisMatrices(a);
    TransposedTurns(a);
    TurnsBack(a);
    TurnsBack(Opposite(a));
  }

  /** Rotating about an axis keeps a rotation orthonormal. */
  lemma RotateKeeps(m: Mat, a: Angle)
    requires Orthonormal(m) && Unit(a)
    ensures Orthonormal(RotateX(m, a)) && Orthonormal(RotateY(m, a)) && Orthonormal(RotateZ(m, a))
  {
    hide Mul, Orthonormal, RotateX, RotateY, RotateZ;
    RotateIsMul(m, a);
    RotationOrthonormal(a);
    OrthonormalMul(m, RotateX(IDENTITY, a));
    OrthonormalMul(m, RotateY(IDENTITY, a));
    OrthonormalMul(m, RotateZ(IDENTITY, a));
  }

  // ----- poses

  datatype Pose = Pose(rot: Mat, trans: Vec)

  const ORIGIN := Pose(IDENTITY, ZERO)

  ghost predicate Rigid(p: Pose) {
    Orthonormal(p.rot)
  }

  /** `conc` */
  function Conc(p: Pose, q: Pose): Pose {
    Pose(Mul(p.rot, q.rot), Add(Apply(p.rot, q.trans), p.trans))
  }

  /** `invert` */
  function Invert(p: Pose): Pose {
    Pose(Transpose(p.rot), Apply(Transpose(p.rot), Add(ZERO, Neg(p.trans))))
  }

  /** `relativeTo` */
  function RelativeTo(p: Pose, other: Pose): Pose {
    Pose(Mul(Transpose(other.rot), p.rot), Apply(Transpose(other.rot), Add(Neg(other.trans), p.trans)))
  }

  lemma AddAssoc(u: Vec, v: Vec, w: Vec)
    ensures Add(Add(u, v), w) == Add(u, Add(v, w)) && Add(u, v) == Add(v, u) && Add(u, ZERO) == u
        && Add(Neg(u), u) == ZERO
  {
  }

  lemma ConcAssoc(p: Pose, q: Pose, r: Pose)
    ensures Conc(Conc(p, q), r) == Conc(p, Conc(q, r))
  {
    hide Mul, Apply, Add;
    MulAssoc(p.rot, q.rot, r.rot);
    ApplyMul(p.rot, q.rot, r.trans);
    ApplyAdd(p.rot, Apply(q.rot, r.trans), q.trans);
    AddAssoc(Apply(p.rot, Apply(q.rot, r.trans)), Apply(p.rot, q.trans), p.trans);
  }

  lemma ConcOrigin(p: Pose)
    ensures Conc(ORIGIN, p) == p && Conc(p, ORIGIN) == p
  {
    MulIdentity(p.rot, p.trans);
  }

  /** A rigid pose is undone by its inverse, on both sides. */
  lemma ConcInvert(p: Pose)
    requires Rigid(p)
    ensures Conc(Invert(p), p) == ORIGIN && Conc(p, Invert(p)) == ORIGIN && Rigid(Invert(p))
  {
    hide Mul, Apply, Add, Neg, Transpose;
    var t := Transpose(p.rot);
    OrthonormalTranspose(p.rot);
    AddAssoc(Neg(p.trans), ZERO, ZERO);
    AddAssoc(ZERO, Neg(p.trans), ZERO);
    ApplyAdd(t, p.trans, p.trans);
    AddAssoc(Apply(t, p.trans), Apply(t, p.trans), ZERO);
    AddAssoc(Neg(Apply(t, p.trans)), Apply(t, p.trans), ZERO);
    ApplyMul(p.rot, t, Neg(p.trans));
    MulIdentity(p.rot, Neg(p.trans));
    AddAssoc(p.trans, ZERO, ZERO);
  }

  /** `relativeTo` is composition with the inverse. */
  lemma RelativeIsConc(p: Pose, other: Pose)
    ensures RelativeTo(p, other) == Conc(Invert(other), p)
  {
    hide Mul, Apply, Add, Neg, Transpose;
    var t := Transpose(other.rot);
    AddAssoc(ZERO, Neg(other.trans), ZERO);
    AddAssoc(Neg(other.trans), ZERO, ZERO);
    ApplyAdd(t, Neg(other.trans), p.trans);
    AddAssoc(Apply(t, Neg(other.trans)), Apply(t, p.trans), ZERO);
  }

  lemma InvertConc(p: Pose, q: Pose)
    requires Rigid(p) && Rigid(q)
    ensures Rigid(Conc(p, q)) && Invert(Conc(p, q)) == Conc(Invert(q), Invert(p))
  {
    hide Conc, Invert, Orthonormal;
    assert Rigid(Conc(p, q)) by { ConcRigid(p, q); }
    var left, right := Invert(Conc(p, q)), Conc(Invert(q), Invert(p));
    // right undoes Conc(p, q) on the right, so it is the inverse
    ConcInvert(p);
    ConcInvert(q);
    ConcInvert(Conc(p, q));
    calc {
      Conc(Conc(p, q), right);
      { ConcAssoc(p, q, right); ConcAssoc(q, Invert(q), Invert(p)); }
      Conc(p, Conc(ORIGIN, Invert(p)));
      { ConcOrigin(Invert(p)); }
      ORIGIN;
    }
    calc {
      left;
      { ConcOrigin(left); }
      Conc(left, Conc(Conc(p, q), right));
      { ConcAssoc(left, Conc(p, q), right); }
      Conc(ORIGIN, right);
      { ConcOrigin(right); }
      right;
    }
  }

  lemma ConcRigid(p: Pose, q: Pose)
    requires Rigid(p) && Rigid(q)
    ensures Rigid(Conc(p, q))
  {
    OrthonormalMul(p.rot, q.rot);
  }

  /** Two poses seen from a common rigid frame keep their pose relative to each other. */
  lemma RelativePoseKept(p: Pose, q: Pose, base: Pose)
    requires Rigid(q) && Rigid(base)
    ensures RelativeTo(RelativeTo(p, base), RelativeTo(q, base)) == RelativeTo(p, q)
  {
    hide Conc, Invert, Orthonormal, RelativeTo;
    var b := Invert(base);
    RelativeIsConc(p, base);
    RelativeIsConc(q, base);
    RelativeIsConc(p, q);
    RelativeIsConc(Conc(b, p), Conc(b, q));
    ConcInvert(base);
    ConcInvert(b);
    InvertConc(b, q);
    calc {
      Conc(Conc(Invert(q), Invert(b)), Conc(b, p));
      { ConcAssoc(Invert(q), Invert(b), Conc(b, p)); ConcAssoc(Invert(b), b, p); }
      Conc(Invert(q), Conc(ORIGIN, p));
      { ConcOrigin(p); }
      Conc(Invert(q), p);
    }
  }
}
