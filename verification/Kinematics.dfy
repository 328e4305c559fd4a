/**
 core/kinematics/ForwardKinematics.cpp, called as core/kinematics/KinematicsModule.cpp calls it: the poses
 of the body parts relative to the torso, the virtual base under the torso, and the absolute poses.
 Cosine and sine, and the heading that `getZAngle` extracts, are parameters of the model.
 */
module Kinematics {
  import opened Wrappers
  import opened Frames

  // BodyPart::Part
  const NECK := 0
  const HEAD := 1
  const TOP_CAMERA := 2
  const BOTTOM_CAMERA := 3
  const LEFT_SHOULDER := 4
  const RIGHT_SHOULDER := 9
  const LEFT_PELVIS := 14
  const LEFT_BOTTOM_FOOT := 20
  const RIGHT_PELVIS := 21
  const RIGHT_BOTTOM_FOOT := 27
  const TORSO := 28
  const VIRTUAL_BASE := 29
  const NUM_PARTS := 30

  // Joint
  const HEAD_YAW := 0
  const HEAD_PITCH := 1
  const L_HIP_YAW_PITCH := 2
  const R_HIP_YAW_PITCH := 8
  const L_SHOULDER_PITCH := 14
  const R_SHOULDER_PITCH := 18
  const NUM_JOINTS := 22

  // Sensor
  const FSR_LFL := 10
  const FSR_RFL := 14
  const FSR_END := 18

  const HALF_PI: real := 1.57079632679489661923

  datatype CameraMount = CameraMount(x: real, z: real, tiltOffset: real, tiltFactor: real, rollOffset: real,
      rollFactor: real, yawOffset: real)

  datatype Dimensions = Dimensions(
    torsoToHeadPan: real, topCamera: CameraMount, bottomCamera: CameraMount,
    armOffset1: real, armOffset2: real, armOffset3: real, upperArmLength: real, elbowOffsetY: real,
        lowerArmLength: real,
    torsoHipRoll: real, torsoToHip: real, upperLegLength: real, lowerLegLength: real, footHeight: real)

  /** Cosine and sine of a zero angle. */
  const STRAIGHT := Angle(1.0, 0.0)

  ghost predicate IsTrig(trig: real -> Angle) {
    trig(0.0) == STRAIGHT && forall a :: Unit(trig(a))
  }

  /** A length or an angle, mirrored by a sign. */
  function By(x: real, sign: real): real {
    x * sign
  }

  // ----- the kinematic tree

  datatype Move = Shift(v: Vec) | TurnX(angle: real) | TurnY(angle: real) | TurnZ(angle: real)

  /** `Pose3D::translate` */
  function Translate(p: Pose, v: Vec): Pose {
    p.(trans := Add(Apply(p.rot, v), p.trans))
  }

  /** One call of `translate`, `rotateX`, `rotateY` or `rotateZ`. */
  function Step(p: Pose, m: Move, trig: real -> Angle): Pose {
    match m
    case Shift(v) => Translate(p, v)
    case TurnX(a) => p.(rot := RotateX(p.rot, trig(a)))
    case TurnY(a) => p.(rot := RotateY(p.rot, trig(a)))
    case TurnZ(a) => p.(rot := RotateZ(p.rot, trig(a)))
  }

  function Chain(p: Pose, ms: seq<Move>, trig: real -> Angle): Pose {
    if |ms| == 0 then p else Step(Chain(p, ms[..|ms| - 1], trig), ms[|ms| - 1], trig)
  }

  /** The part that a part hangs on. */
  function Parent(p: nat): nat {
    if p in {NECK, LEFT_SHOULDER, RIGHT_SHOULDER, LEFT_PELVIS, RIGHT_PELVIS} then TORSO
    else if p == BOTTOM_CAMERA then HEAD
    else p - 1
  }

  function CameraTilt(c: CameraMount, headPan: real): real {
    c.tiltOffset + c.tiltFactor * (HALF_PI - Abs(headPan)) / HALF_PI
  }

  function CameraRoll(c: CameraMount, headPan: real): real {
    c.rollOffset + c.rollFactor * headPan
  }

  function CameraMoves(c: CameraMount, headPan: real): seq<Move> {
    [Shift(Vec(c.x, 0.0, c.z)),
     TurnY(CameraTilt(c, headPan)),
     TurnX(CameraRoll(c, headPan)),
     TurnZ(c.yawOffset)]
  }

  /** Joint `k` of an arm: shoulder, bicep, elbow, forearm, hand; `mirror` is 1 on the left, -1 on the right. */
  function ArmMoves(k: nat, q: seq<real>, d: Dimensions, mirror: real): seq<Move>
    requires k < 5 && |q| == 4
  {
    match k
    case 0 => [Shift(Vec(d.armOffset1, By(d.armOffset2, mirror), d.armOffset3)), TurnY(-q[0])]
    case 1 => [TurnZ(By(q[1], mirror))]
    case 2 => [Shift(Vec(d.upperArmLength, d.elbowOffsetY, 0.0)), TurnX(By(q[2], mirror))]
    case 3 => [TurnZ(By(q[3], mirror))]
    case _ => [Shift(Vec(d.lowerArmLength, 0.0, 0.0))]
  }

  /** Joint `k` of a leg: pelvis, hip, thigh, tibia, ankle, foot, bottom of the foot. */
  function LegMoves(k: nat, q: seq<real>, d: Dimensions, mirror: real): seq<Move>
    requires k < 7 && |q| == 6
  {
    match k
    case 0 => [TurnX(By(d.torsoHipRoll, mirror)), Shift(Vec(0.0, 0.0, -d.torsoToHip)), TurnZ(By(q[0], -mirror))]
    case 1 => [TurnX(By(q[1] + d.torsoHipRoll, -mirror))]
    case 2 => [TurnY(q[2])]
    case 3 => [Shift(Vec(0.0, 0.0, -d.upperLegLength)), TurnY(q[3])]
    case 4 => [Shift(Vec(0.0, 0.0, -d.lowerLegLength)), TurnY(q[4])]
    case 5 => [TurnX(By(q[5], -mirror))]
    case _ => [Shift(Vec(0.0, 0.0, -d.footHeight))]
  }

  function ArmJoints(joints: seq<real>, left: bool): (q: seq<real>)
    requires |joints| == NUM_JOINTS
    ensures |q| == 4
  {
    if left then joints[L_SHOULDER_PITCH..R_SHOULDER_PITCH] else joints[R_SHOULDER_PITCH..NUM_JOINTS]
  }

  function LegJoints(joints: seq<real>, left: bool): (q: seq<real>)
    requires |joints| == NUM_JOINTS
    ensures |q| == 6
  {
    if left then joints[L_HIP_YAW_PITCH..R_HIP_YAW_PITCH] else joints[R_HIP_YAW_PITCH..L_SHOULDER_PITCH]
  }

  /** How a part hangs on its parent: by its own joint, and for the cameras by the head's yaw. */
  function MovesOf(p: nat, joints: seq<real>, d: Dimensions): seq<Move>
    requires p < TORSO && |joints| == NUM_JOINTS
  {
    if p == NECK then [Shift(Vec(0.0, 0.0, d.torsoToHeadPan)), TurnZ(joints[HEAD_YAW])]
    else if p == HEAD then [TurnY(-joints[HEAD_PITCH])]
    else if p == TOP_CAMERA then CameraMoves(d.topCamera, joints[HEAD_YAW])
    else if p == BOTTOM_CAMERA then CameraMoves(d.bottomCamera, joints[HEAD_YAW])
    else if p < RIGHT_SHOULDER then ArmMoves(p - LEFT_SHOULDER, ArmJoints(joints, true), d, 1.0)
    else if p < LEFT_PELVIS then ArmMoves(p - RIGHT_SHOULDER, ArmJoints(joints, false), d, -1.0)
    else if p < RIGHT_PELVIS then LegMoves(p - LEFT_PELVIS, LegJoints(joints, true), d, 1.0)
    else LegMoves(p - RIGHT_PELVIS, LegJoints(joints, false), d, -1.0)
  }

  ghost predicate Attached(parts: seq<Pose>, p: nat, joints: seq<real>, d: Dimensions, trig: real -> Angle)
    requires |parts| == NUM_PARTS && p < TORSO && |joints| == NUM_JOINTS
  {
    parts[p] == Chain(parts[Parent(p)], MovesOf(p, joints, d), trig)
  }

  ghost predicate AllAttached(parts: seq<Pose>, joints: seq<real>, d: Dimensions, trig: real -> Angle) {
    |parts| == NUM_PARTS && |joints| == NUM_JOINTS && forall p: nat | p < TORSO :: Attached(parts, p, joints, d, trig)
  }

  // ----- chains are rigid motions

  lemma StepRigid(p: Pose, m: Move, trig: real -> Angle)
    requires Rigid(p) && IsTrig(trig)
    ensures Rigid(Step(p, m, trig))
  {
    hide Orthonormal, RotateX, RotateY, RotateZ;
    match m
    case Shift(v) =>
    case TurnX(a) => RotateKeeps(p.rot, trig(a));
    case TurnY(a) => RotateKeeps(p.rot, trig(a));
    case TurnZ(a) => RotateKeeps(p.rot, trig(a));
  }

  lemma {:induction false} ChainRigid(p: Pose, ms: seq<Move>, trig: real -> Angle)
    requires Rigid(p) && IsTrig(trig)
    ensures Rigid(Chain(p, ms, trig))
  {
    hide Rigid, Step;
    if |ms| > 0 {
      ChainRigid(p, ms[..|ms| - 1], trig);
      StepRigid(Chain(p, ms[..|ms| - 1], trig), ms[|ms| - 1], trig);
    }
  }

  /** A move in a frame is a move at the origin, seen from the frame. */
  lemma StepIsConc(p: Pose, q: Pose, m: Move, trig: real -> Angle)
    ensures Step(Conc(p, q), m, trig) == Conc(p, Step(q, m, trig))
  {
    hide Mul, Apply, Add, RotateX, RotateY, RotateZ;
    match m
    case Shift(v) =>
      ApplyMul(p.rot, q.rot, v);
      ApplyAdd(p.rot, Apply(q.rot, v), q.trans);
      AddAssoc(Apply(p.rot, Apply(q.rot, v)), Apply(p.rot, q.trans), p.trans);
    case TurnX(a) =>
      RotateIsMul(Mul(p.rot, q.rot), trig(a));
      RotateIsMul(q.rot, trig(a));
      MulAssoc(p.rot, q.rot, RotateX(IDENTITY, trig(a)));
    case TurnY(a) =>
      RotateIsMul(Mul(p.rot, q.rot), trig(a));
      RotateIsMul(q.rot, trig(a));
      MulAssoc(p.rot, q.rot, RotateY(IDENTITY, trig(a)));
    case TurnZ(a) =>
      RotateIsMul(Mul(p.rot, q.rot), trig(a));
      RotateIsMul(q.rot, trig(a));
      MulAssoc(p.rot, q.rot, RotateZ(IDENTITY, trig(a)));
  }

  lemma {:induction false} ChainIsConc(p: Pose, ms: seq<Move>, trig: real -> Angle)
    ensures Chain(p, ms, trig) == Conc(p, Chain(ORIGIN, ms, trig))
  {
    hide Step, Conc;
    if |ms| == 0 {
      ConcOrigin(p);
    } else {
      ChainIsConc(p, ms[..|ms| - 1], trig);
      StepIsConc(p, Chain(ORIGIN, ms[..|ms| - 1], trig), ms[|ms| - 1], trig);
    }
  }

  /** A part's pose relative to its parent is the motion of its own entry in the table, whatever the other joints do. */
  lemma LinkIsOwnMotion(parts: seq<Pose>, p: nat, joints: seq<real>, d: Dimensions, trig: real -> Angle)
    requires |parts| == NUM_PARTS && p < TORSO && |joints| == NUM_JOINTS
    requires Attached(parts, p, joints, d, trig) && Rigid(parts[Parent(p)])
    ensures RelativeTo(parts[p], parts[Parent(p)]) == Chain(ORIGIN, MovesOf(p, joints, d), trig)
  {
    hide Conc, Invert, Chain, MovesOf, RelativeTo, Rigid;
    var parent, own := parts[Parent(p)], Chain(ORIGIN, MovesOf(p, joints, d), trig);
    ChainIsConc(parent, MovesOf(p, joints, d), trig);
    RelativeIsConc(parts[p], parent);
    ConcAssoc(Invert(parent), parent, own);
    ConcInvert(parent);
    ConcOrigin(own);
  }

  /** If the torso is rigid, so is every part. */
  lemma {:induction false} PartRigid(parts: seq<Pose>, p: nat, joints: seq<real>, d: Dimensions, trig: real -> Angle)
    requires AllAttached(parts, joints, d, trig) && IsTrig(trig) && Rigid(parts[TORSO]) && p <= TORSO
    ensures Rigid(parts[p])
  {
    hide Rigid, Chain, MovesOf, IsTrig;
    if p < TORSO {
      if Parent(p) != TORSO {
        PartRigid(parts, Parent(p), joints, d, trig);
      }
      assert Attached(parts, p, joints, d, trig);
      ChainRigid(parts[Parent(p)], MovesOf(p, joints, d), trig);
    }
  }

  // ----- calculateRelativePose

  lemma Chain1(p: Pose, a: Move, trig: real -> Angle)
    ensures Chain(p, [a], trig) == Step(p, a, trig)
  {
    assert [a][..0] == [];
  }

  lemma Chain2(p: Pose, a: Move, b: Move, trig: real -> Angle)
    ensures Chain(p, [a, b], trig) == Step(Step(p, a, trig), b, trig)
  {
    assert [a, b][..1] == [a];
    Chain1(p, a, trig);
  }

  lemma Chain3(p: Pose, a: Move, b: Move, c: Move, trig: real -> Angle)
    ensures Chain(p, [a, b, c], trig) == Step(Step(Step(p, a, trig), b, trig), c, trig)
  {
    assert [a, b, c][..2] == [a, b];
    Chain2(p, a, b, trig);
  }

  lemma Chain4(p: Pose, a: Move, b: Move, c: Move, d: Move, trig: real -> Angle)
    ensures Chain(p, [a, b, c, d], trig) == Step(Step(Step(Step(p, a, trig), b, trig), c, trig), d, trig)
  {
    assert [a, b, c, d][..3] == [a, b, c];
    Chain3(p, a, b, c, trig);
  }

  function TurnedX(p: Pose, a: Angle): Pose {
    p.(rot := RotateX(p.rot, a))
  }

  function TurnedY(p: Pose, a: Angle): Pose {
    p.(rot := RotateY(p.rot, a))
  }

  function TurnedZ(p: Pose, a: Angle): Pose {
    p.(rot := RotateZ(p.rot, a))
  }

  /** A camera, from the pose of the head. */
  function CameraPose(head: Pose, c: CameraMount, headPan: real, trig: real -> Angle): (r: Pose)
    ensures r == Chain(head, CameraMoves(c, headPan), trig)
  {
    Chain4(head, Shift(Vec(c.x, 0.0, c.z)), TurnY(CameraTilt(c, headPan)), TurnX(CameraRoll(c, headPan)),
        TurnZ(c.yawOffset), trig);
    var mounted := Translate(head, Vec(c.x, 0.0, c.z));
    TurnedZ(TurnedX(TurnedY(mounted, trig(CameraTilt(c, headPan))), trig(CameraRoll(c, headPan))), trig(c.yawOffset))
  }

  /** The part at `at + k` hangs on its predecessor, the first one on `root`, by the given moves. */
  ghost predicate Hangs(parts: seq<Pose>, root: Pose, at: nat, k: nat, moves: seq<Move>, trig: real -> Angle)
    requires at + k < |parts|
  {
    parts[at + k] == Chain(if k == 0 then root else parts[at + k - 1], moves, trig)
  }

  ghost predicate ArmHangs(parts: seq<Pose>, root: Pose, at: nat, k: nat, q: seq<real>, d: Dimensions, mirror: real,
                           trig: real -> Angle)
    requires at + k < |parts| && k < 5 && |q| == 4
  {
    Hangs(parts, root, at, k, ArmMoves(k, q, d, mirror), trig)
  }

  ghost predicate LegHangs(parts: seq<Pose>, root: Pose, at: nat, k: nat, q: seq<real>, d: Dimensions, mirror: real,
                           trig: real -> Angle)
    requires at + k < |parts| && k < 7 && |q| == 6
  {
    Hangs(parts, root, at, k, LegMoves(k, q, d, mirror), trig)
  }

  ghost predicate ArmDone(parts: seq<Pose>, root: Pose, at: nat, q: seq<real>, d: Dimensions, mirror: real,
                          trig: real -> Angle)
    requires at + 4 < |parts| && |q| == 4
  {
    forall k: nat | k < 5 :: ArmHangs(parts, root, at, k, q, d, mirror, trig)
  }

  ghost predicate LegDone(parts: seq<Pose>, root: Pose, at: nat, q: seq<real>, d: Dimensions, mirror: real,
                          trig: real -> Angle)
    requires at + 6 < |parts| && |q| == 6
  {
    forall k: nat | k < 7 :: LegHangs(parts, root, at, k, q, d, mirror, trig)
  }

  /** A limb stays done as long as its parts do not change. */
  lemma LimbKept(parts: seq<Pose>, parts': seq<Pose>, root: Pose, at: nat, q: seq<real>, d: Dimensions, mirror: real,
                 trig: real -> Angle)
    requires |parts'| == |parts|
    ensures at + 4 < |parts| && |q| == 4 && parts'[at..at + 5] == parts[at..at + 5] ==>
              ArmDone(parts, root, at, q, d, mirror, trig) ==> ArmDone(parts', root, at, q, d, mirror, trig)
    ensures at + 6 < |parts| && |q| == 6 && parts'[at..at + 7] == parts[at..at + 7] ==>
              LegDone(parts, root, at, q, d, mirror, trig) ==> LegDone(parts', root, at, q, d, mirror, trig)
  {
    hide Chain, ArmMoves, LegMoves;
    if at + 4 < |parts| && |q| == 4 && parts'[at..at + 5] == parts[at..at + 5]
        && ArmDone(parts, root, at, q, d, mirror, trig) {
      forall k: nat | k < 5
        ensures ArmHangs(parts', root, at, k, q, d, mirror, trig)
      {
        assert ArmHangs(parts, root, at, k, q, d, mirror, trig);
        assert parts'[at + k] == parts'[at..at + 5][k] && (k > 0 ==> parts'[at + k - 1] == parts'[at..at + 5][k - 1]);
      }
    }
    if at + 6 < |parts| && |q| == 6 && parts'[at..at + 7] == parts[at..at + 7]
        && LegDone(parts, root, at, q, d, mirror, trig) {
      forall k: nat | k < 7
        ensures LegHangs(parts', root, at, k, q, d, mirror, trig)
      {
        assert LegHangs(parts, root, at, k, q, d, mirror, trig);
        assert parts'[at + k] == parts'[at..at + 7][k] && (k > 0 ==> parts'[at + k - 1] == parts'[at..at + 7][k - 1]);
      }
    }
  }

  /** The five parts of one arm, from `shoulder` on. */
  method FillArm(rel: array<Pose>, shoulder: nat, q: seq<real>, sign: real, d: Dimensions, trig: real -> Angle)
    requires rel.Length == NUM_PARTS && shoulder + 4 < TORSO && |q| == 4
    modifies rel
    ensures forall p | 0 <= p < NUM_PARTS && !(shoulder <= p < shoulder + 5) :: rel[p] == old(rel[p])
    ensures ArmDone(rel[..], rel[TORSO], shoulder, q, d, -sign, trig)
  {
    hide Chain, Step, Translate, RotateX, RotateY, RotateZ;
    rel[shoulder] :=
        TurnedY(Translate(rel[TORSO], Vec(d.armOffset1, By(d.armOffset2, -sign), d.armOffset3)), trig(-q[0]));
    rel[shoulder + 1] := TurnedZ(rel[shoulder], trig(By(q[1], -sign)));
    rel[shoulder + 2] :=
        TurnedX(Translate(rel[shoulder + 1], Vec(d.upperArmLength, d.elbowOffsetY, 0.0)), trig(By(q[2], -sign)));
    rel[shoulder + 3] := TurnedZ(rel[shoulder + 2], trig(By(q[3], -sign)));
    rel[shoulder + 4] := Translate(rel[shoulder + 3], Vec(d.lowerArmLength, 0.0, 0.0));
    ArmChains(rel[TORSO], rel[shoulder], rel[shoulder + 1], rel[shoulder + 2], rel[shoulder + 3], q, sign, d, trig);
  }

  lemma ArmChains(torso: Pose, p0: Pose, p1: Pose, p2: Pose, p3: Pose, q: seq<real>, sign: real, d: Dimensions,
                  trig: real -> Angle)
    requires |q| == 4
    ensures Chain(torso, ArmMoves(0, q, d, -sign), trig) ==
        TurnedY(Translate(torso, Vec(d.armOffset1, By(d.armOffset2, -sign), d.armOffset3)), trig(-q[0]))
    ensures Chain(p0, ArmMoves(1, q, d, -sign), trig) == TurnedZ(p0, trig(By(q[1], -sign)))
    ensures Chain(p1, ArmMoves(2, q, d, -sign), trig) ==
        TurnedX(Translate(p1, Vec(d.upperArmLength, d.elbowOffsetY, 0.0)), trig(By(q[2], -sign)))
    ensures Chain(p2, ArmMoves(3, q, d, -sign), trig) == TurnedZ(p2, trig(By(q[3], -sign)))
    ensures Chain(p3, ArmMoves(4, q, d, -sign), trig) == Translate(p3, Vec(d.lowerArmLength, 0.0, 0.0))
  {
    hide Chain, Translate, RotateX, RotateY, RotateZ;
    Chain2(torso, Shift(Vec(d.armOffset1, By(d.armOffset2, -sign), d.armOffset3)), TurnY(-q[0]), trig);
    Chain1(p0, TurnZ(By(q[1], -sign)), trig);
    Chain2(p1, Shift(Vec(d.upperArmLength, d.elbowOffsetY, 0.0)), TurnX(By(q[2], -sign)), trig);
    Chain1(p2, TurnZ(By(q[3], -sign)), trig);
    Chain1(p3, Shift(Vec(d.lowerArmLength, 0.0, 0.0)), trig);
  }

  /** The seven parts of one leg, from `pelvis` on. */
  method FillLeg(rel: array<Pose>, pelvis: nat, q: seq<real>, sign: real, d: Dimensions, trig: real -> Angle)
    requires rel.Length == NUM_PARTS && pelvis + 6 < TORSO && |q| == 6
    modifies rel
    ensures forall p | 0 <= p < NUM_PARTS && !(pelvis <= p < pelvis + 7) :: rel[p] == old(rel[p])
    ensures LegDone(rel[..], rel[TORSO], pelvis, q, d, -sign, trig)
  {
    hide Chain, Step, Translate, RotateX, RotateY, RotateZ;
    rel[pelvis] :=
        TurnedZ(Translate(TurnedX(rel[TORSO], trig(By(d.torsoHipRoll, -sign))), Vec(0.0, 0.0, -d.torsoToHip)),
        trig(By(q[0], sign)));
    rel[pelvis + 1] := TurnedX(rel[pelvis], trig(By(q[1] + d.torsoHipRoll, sign)));
    rel[pelvis + 2] := TurnedY(rel[pelvis + 1], trig(q[2]));
    rel[pelvis + 3] := TurnedY(Translate(rel[pelvis + 2], Vec(0.0, 0.0, -d.upperLegLength)), trig(q[3]));
    rel[pelvis + 4] := TurnedY(Translate(rel[pelvis + 3], Vec(0.0, 0.0, -d.lowerLegLength)), trig(q[4]));
    rel[pelvis + 5] := TurnedX(rel[pelvis + 4], trig(By(q[5], sign)));
    rel[pelvis + 6] := Translate(rel[pelvis + 5], Vec(0.0, 0.0, -d.footHeight));
    UpperLegChains(rel[TORSO], rel[pelvis], rel[pelvis + 1], q, sign, d, trig);
    LowerLegChains(rel[pelvis + 2], rel[pelvis + 3], rel[pelvis + 4], rel[pelvis + 5], q, sign, d, trig);
  }

  lemma UpperLegChains(torso: Pose, p0: Pose, p1: Pose, q: seq<real>, sign: real, d: Dimensions, trig: real -> Angle)
    requires |q| == 6
    ensures Chain(torso, LegMoves(0, q, d, -sign), trig) ==
            TurnedZ(Translate(TurnedX(torso, trig(By(d.torsoHipRoll, -sign))), Vec(0.0, 0.0, -d.torsoToHip)),
                trig(By(q[0], sign)))
    ensures Chain(p0, LegMoves(1, q, d, -sign), trig) == TurnedX(p0, trig(By(q[1] + d.torsoHipRoll, sign)))
    ensures Chain(p1, LegMoves(2, q, d, -sign), trig) == TurnedY(p1, trig(q[2]))
  {
    hide Chain, Translate, RotateX, RotateY, RotateZ;
    assert -(-sign) == sign;
    Chain3(torso, TurnX(By(d.torsoHipRoll, -sign)), Shift(Vec(0.0, 0.0, -d.torsoToHip)), TurnZ(By(q[0], sign)), trig);
    Chain1(p0, TurnX(By(q[1] + d.torsoHipRoll, sign)), trig);
    Chain1(p1, TurnY(q[2]), trig);
  }

  lemma LowerLegChains(p2: Pose, p3: Pose, p4: Pose, p5: Pose, q: seq<real>, sign: real, d: Dimensions,
                       trig: real -> Angle)
    requires |q| == 6
    ensures Chain(p2, LegMoves(3, q, d, -sign), trig) ==
        TurnedY(Translate(p2, Vec(0.0, 0.0, -d.upperLegLength)), trig(q[3]))
    ensures Chain(p3, LegMoves(4, q, d, -sign), trig) ==
        TurnedY(Translate(p3, Vec(0.0, 0.0, -d.lowerLegLength)), trig(q[4]))
    ensures Chain(p4, LegMoves(5, q, d, -sign), trig) == TurnedX(p4, trig(By(q[5], sign)))
    ensures Chain(p5, LegMoves(6, q, d, -sign), trig) == Translate(p5, Vec(0.0, 0.0, -d.footHeight))
  {
    hide Chain, Translate, RotateX, RotateY, RotateZ;
    assert -(-sign) == sign;
    Chain2(p2, Shift(Vec(0.0, 0.0, -d.upperLegLength)), TurnY(q[3]), trig);
    Chain2(p3, Shift(Vec(0.0, 0.0, -d.lowerLegLength)), TurnY(q[4]), trig);
    Chain1(p4, TurnX(By(q[5], sign)), trig);
    Chain1(p5, Shift(Vec(0.0, 0.0, -d.footHeight)), trig);
  }

  /** Torso, neck, head and cameras. */
  method FillHead(rel: array<Pose>, joints: seq<real>, angleX: real, angleY: real, d: Dimensions, trig: real -> Angle)
    requires rel.Length == NUM_PARTS && |joints| == NUM_JOINTS
    modifies rel
    ensures rel[TORSO] == Tilted(trig(angleX), trig(angleY))
    ensures forall p: nat | p <= BOTTOM_CAMERA :: Attached(rel[..], p, joints, d, trig)
  {
    hide Chain, Step, Translate, RotateX, RotateY, RotateZ, CameraMoves;
    rel[TORSO] := Tilted(trig(angleX), trig(angleY));
    rel[NECK] := TurnedZ(Translate(rel[TORSO], Vec(0.0, 0.0, d.torsoToHeadPan)), trig(joints[HEAD_YAW]));
    rel[HEAD] := TurnedY(rel[NECK], trig(-joints[HEAD_PITCH]));
    rel[TOP_CAMERA] := CameraPose(rel[HEAD], d.topCamera, joints[HEAD_YAW], trig);
    rel[BOTTOM_CAMERA] := CameraPose(rel[HEAD], d.bottomCamera, joints[HEAD_YAW], trig);
    HeadChains(rel[TORSO], rel[NECK], joints, d, trig);
  }

  lemma HeadChains(torso: Pose, neck: Pose, joints: seq<real>, d: Dimensions, trig: real -> Angle)
    requires |joints| == NUM_JOINTS
    ensures Chain(torso, MovesOf(NECK, joints, d), trig) ==
        TurnedZ(Translate(torso, Vec(0.0, 0.0, d.torsoToHeadPan)), trig(joints[HEAD_YAW]))
    ensures Chain(neck, MovesOf(HEAD, joints, d), trig) == TurnedY(neck, trig(-joints[HEAD_PITCH]))
  {
    hide Chain, Translate, RotateX, RotateY, RotateZ;
    Chain2(torso, Shift(Vec(0.0, 0.0, d.torsoToHeadPan)), TurnZ(joints[HEAD_YAW]), trig);
    Chain1(neck, TurnY(-joints[HEAD_PITCH]), trig);
  }

  /** One arm and one leg, in the order of the loop over the sides: left first. */
  ghost predicate SideDone(parts: seq<Pose>, side: nat, joints: seq<real>, d: Dimensions, trig: real -> Angle)
    requires |parts| == NUM_PARTS && |joints| == NUM_JOINTS && side < 2
  {
    var left := side == 0;
    var mirror := if left then 1.0 else -1.0;
    var shoulder, pelvis := if left then LEFT_SHOULDER else RIGHT_SHOULDER, if left then LEFT_PELVIS else RIGHT_PELVIS;
    && ArmDone(parts, parts[TORSO], shoulder, ArmJoints(joints, left), d, mirror, trig)
    && LegDone(parts, parts[TORSO], pelvis, LegJoints(joints, left), d, mirror, trig)
  }

  method FillSide(rel: array<Pose>, side: nat, joints: seq<real>, d: Dimensions, trig: real -> Angle)
    requires rel.Length == NUM_PARTS && |joints| == NUM_JOINTS && side < 2
    modifies rel
    ensures SideDone(rel[..], side, joints, d, trig)
    ensures rel[TORSO] == old(rel[TORSO])
    ensures forall p | 0 <= p <= BOTTOM_CAMERA :: rel[p] == old(rel[p])
    ensures forall p | LEFT_SHOULDER <= p < RIGHT_SHOULDER || LEFT_PELVIS <= p < RIGHT_PELVIS :: side == 1 ==>
        rel[p] == old(rel[p])
  {
    hide Chain, ArmMoves, LegMoves;
    var left := side == 0;
    var sign := if left then -1.0 else 1.0;
    var pelvis := if left then LEFT_PELVIS else RIGHT_PELVIS;
    var shoulder := if left then LEFT_SHOULDER else RIGHT_SHOULDER;
    FillArm(rel, shoulder, ArmJoints(joints, left), sign, d, trig);
    ghost var parts := rel[..];
    FillLeg(rel, pelvis, LegJoints(joints, left), sign, d, trig);
    LimbKept(parts, rel[..], parts[TORSO], shoulder, ArmJoints(joints, left), d, -sign, trig);
  }

  /** Hanging in its limb is being attached in the tree. */
  lemma SidesAttached(parts: seq<Pose>, joints: seq<real>, d: Dimensions, trig: real -> Angle, p: nat)
    requires |parts| == NUM_PARTS && |joints| == NUM_JOINTS && BOTTOM_CAMERA < p < TORSO
    requires SideDone(parts, 0, joints, d, trig) && SideDone(parts, 1, joints, d, trig)
    ensures Attached(parts, p, joints, d, trig)
  {
    hide Chain, ArmMoves, LegMoves;
    if p < RIGHT_SHOULDER {
      assert ArmDone(parts, parts[TORSO], LEFT_SHOULDER, ArmJoints(joints, true), d, 1.0, trig);
      assert ArmHangs(parts, parts[TORSO], LEFT_SHOULDER, p - LEFT_SHOULDER, ArmJoints(joints, true), d, 1.0, trig);
    } else if p < LEFT_PELVIS {
      assert ArmDone(parts, parts[TORSO], RIGHT_SHOULDER, ArmJoints(joints, false), d, -1.0, trig);
      assert ArmHangs(parts, parts[TORSO], RIGHT_SHOULDER, p - RIGHT_SHOULDER, ArmJoints(joints, false), d, -1.0, trig);
    } else if p < RIGHT_PELVIS {
      assert LegDone(parts, parts[TORSO], LEFT_PELVIS, LegJoints(joints, true), d, 1.0, trig);
      assert LegHangs(parts, parts[TORSO], LEFT_PELVIS, p - LEFT_PELVIS, LegJoints(joints, true), d, 1.0, trig);
    } else {
      assert LegDone(parts, parts[TORSO], RIGHT_PELVIS, LegJoints(joints, false), d, -1.0, trig);
      assert LegHangs(parts, parts[TORSO], RIGHT_PELVIS, p - RIGHT_PELVIS, LegJoints(joints, false), d, -1.0, trig);
    }
  }

  /** Every part is placed by its own joint on its parent; the torso only by the tilt. */
  method CalculateRelativePose(joints: seq<real>, angleX: real, angleY: real, rel: array<Pose>, d: Dimensions,
                               trig: real -> Angle)
    requires rel.Length == NUM_PARTS && |joints| == NUM_JOINTS
    modifies rel
    ensures rel[TORSO] == Tilted(trig(angleX), trig(angleY))
    ensures AllAttached(rel[..], joints, d, trig)
  {
    hide Chain, MovesOf, TurnedX, TurnedY, ArmMoves, LegMoves;
    FillHead(rel, joints, angleX, angleY, d, trig);
    ghost var parts := rel[..];
    FillSide(rel, 0, joints, d, trig);
    ghost var half := rel[..];
    FillSide(rel, 1, joints, d, trig);
    SideKept(half, rel[..], joints, d, trig);
    forall p: nat | p < TORSO
      ensures Attached(rel[..], p, joints, d, trig)
    {
      if p <= BOTTOM_CAMERA {
        assert Attached(parts, p, joints, d, trig);
      } else {
        SidesAttached(rel[..], joints, d, trig, p);
      }
    }
  }

  lemma SideKept(half: seq<Pose>, parts: seq<Pose>, joints: seq<real>, d: Dimensions, trig: real -> Angle)
    requires |half| == |parts| == NUM_PARTS && |joints| == NUM_JOINTS && SideDone(half, 0, joints, d, trig)
    requires parts[TORSO] == half[TORSO]
    requires forall p | LEFT_SHOULDER <= p < RIGHT_SHOULDER || LEFT_PELVIS <= p < RIGHT_PELVIS :: parts[p] == half[p]
    ensures SideDone(parts, 0, joints, d, trig)
  {
    hide Chain, ArmMoves, LegMoves;
    LimbKept(half, parts, parts[TORSO], LEFT_SHOULDER, ArmJoints(joints, true), d, 1.0, trig);
    LimbKept(half, parts, parts[TORSO], LEFT_PELVIS, LegJoints(joints, true), d, 1.0, trig);
  }

  // ----- calculateVirtualBase

  /** Cosine and sine of the heading that `getZAngle` extracts from a rotation's first column. */
  ghost predicate IsHeading(heading: Mat -> Angle) {
    forall m :: Unit(heading(m)) && exists h: real :: HeadingOf(m, heading(m), h)
  }

  ghost predicate HeadingOf(m: Mat, a: Angle, h: real) {
    h >= 0.0 && m.c0.x == h * a.c && m.c0.y == h * a.s
  }

  /** In the foot's frame: below the torso, on the ground, turned with the torso. */
  function BaseInFoot(torsoInFoot: Pose, heading: Mat -> Angle): Pose {
    var t := torsoInFoot.trans;
    TurnedZ(Pose(IDENTITY, Vec(t.x, t.y, 0.0)), heading(torsoInFoot.rot))
  }

  /** The base, as `calculateVirtualBase` computes it from torso and foot. */
  function BaseOf(torso: Pose, foot: Pose, heading: Mat -> Angle): Pose {
    var torsoInFoot := RelativeTo(torso, foot);
    RelativeTo(BaseInFoot(torsoInFoot, heading), torsoInFoot)
  }

  function SupportFoot(useLeft: bool): nat {
    if useLeft then LEFT_BOTTOM_FOOT else RIGHT_BOTTOM_FOOT
  }

  lemma BaseInFootRigid(torsoInFoot: Pose, heading: Mat -> Angle)
    requires IsHeading(heading)
    ensures Rigid(BaseInFoot(torsoInFoot, heading))
    ensures BaseInFoot(torsoInFoot, heading).rot == MatZ(heading(torsoInFoot.rot))
  {
    hide RotateZ, Orthonormal;
    RotationOrthonormal(heading(torsoInFoot.rot));
    AxisMatrices(heading(torsoInFoot.rot));
  }

  /** The base is the foot's base seen from the torso. */
  lemma BaseIsConc(torso: Pose, foot: Pose, heading: Mat -> Angle)
    requires Rigid(torso) && Rigid(foot) && IsHeading(heading)
    ensures Rigid(BaseInFoot(RelativeTo(torso, foot), heading)) && Rigid(BaseOf(torso, foot, heading))
    ensures BaseOf(torso, foot, heading) ==
        Conc(Invert(torso), Conc(foot, BaseInFoot(RelativeTo(torso, foot), heading)))
  {
    hide Conc, Invert, Rigid, RelativeTo, BaseInFoot, IsHeading;
    var t := RelativeTo(torso, foot);
    var b := BaseInFoot(t, heading);
    BaseInFootRigid(t, heading);
    RelativeIsConc(torso, foot);
    RelativeIsConc(b, t);
    ConcInvert(foot);
    ConcInvert(torso);
    InvertConc(Invert(foot), torso);
    InvertInvert(foot);
    ConcAssoc(Invert(torso), foot, b);
    ConcRigid(foot, b);
    ConcRigid(Invert(torso), Conc(foot, b));
  }

  lemma InvertInvert(p: Pose)
    requires Rigid(p)
    ensures Invert(Invert(p)) == p
  {
    hide Conc, Invert, Rigid;
    ConcInvert(p);
    ConcInvert(Invert(p));
    ConcAssoc(Invert(Invert(p)), Invert(p), p);
    ConcOrigin(p);
    ConcOrigin(Invert(Invert(p)));
  }

  /** The computed base is the foot's base itself exactly when the torso is not tilted. */
  lemma BaseNeedsUprightTorso(torso: Pose, foot: Pose, heading: Mat -> Angle)
    requires Rigid(torso) && Rigid(foot) && IsHeading(heading)
    ensures BaseOf(torso, foot, heading) == Conc(foot, BaseInFoot(RelativeTo(torso, foot), heading)) <==>
        torso == ORIGIN
  {
    hide Conc, Invert, Rigid, RelativeTo, BaseInFoot, BaseOf, IsHeading;
    var x := Conc(foot, BaseInFoot(RelativeTo(torso, foot), heading));
    BaseIsConc(torso, foot, heading);
    ConcRigid(foot, BaseInFoot(RelativeTo(torso, foot), heading));
    ConcInvert(x);
    ConcInvert(torso);
    if Conc(Invert(torso), x) == x {
      calc {
        ORIGIN;
        Conc(x, Invert(x));
        { ConcAssoc(Invert(torso), x, Invert(x)); }
        Conc(Invert(torso), ORIGIN);
        { ConcOrigin(Invert(torso)); }
        Invert(torso);
      }
      ConcOrigin(torso);
    }
    if torso == ORIGIN {
      ConcOrigin(Invert(ORIGIN));
      ConcOrigin(x);
    }
  }

  // ----- absolute poses of an upright robot

  /** Seen from the base, the support foot is the inverse of the base in the foot's frame. */
  lemma FootSeenFromBase(foot: Pose, base: Pose, b: Pose)
    requires Rigid(foot) && Rigid(b) && base == Conc(foot, b)
    ensures RelativeTo(foot, base) == Invert(b)
    ensures RelativeTo(ORIGIN, base) == RelativeTo(RelativeTo(ORIGIN, foot), b)
  {
    hide Conc, Invert, Rigid, RelativeTo;
    RelativeIsConc(foot, base);
    InvertConc(foot, b);
    ConcAssoc(Invert(b), Invert(foot), foot);
    ConcInvert(foot);
    ConcOrigin(Invert(b));
    RelativeIsConc(ORIGIN, base);
    RelativeIsConc(ORIGIN, foot);
    RelativeIsConc(Conc(Invert(foot), ORIGIN), b);
    ConcAssoc(Invert(b), Invert(foot), ORIGIN);
  }

  lemma InverseStaysOnGround(a: Angle, x: real, y: real)
    ensures Invert(Pose(MatZ(a), Vec(x, y, 0.0))).trans.z == 0.0
  {
  }

  lemma LevelledX(a: Angle, z: real)
    ensures Apply(Transpose(MatZ(a)), Vec(0.0, 0.0, z)) == Vec(0.0, 0.0, z)
  {
  }

  lemma TurnedBack(a: Angle, h: real, v: Vec)
    requires Unit(a) && h >= 0.0 && v.x == h * a.c && v.y == h * a.s
    ensures Apply(Transpose(MatZ(a)), v).x == h && Apply(Transpose(MatZ(a)), v).y == 0.0
  {
    assert a.c * (h * a.c) + a.s * (h * a.s) == h * (a.c * a.c + a.s * a.s);
  }

  /** Seen from the base in the foot's frame, the torso is straight above and faces ahead. */
  lemma TorsoAboveBase(t: Pose, heading: Mat -> Angle)
    requires IsHeading(heading)
    ensures
      var seen := RelativeTo(t, BaseInFoot(t, heading));
      seen.trans.x == 0.0 && seen.trans.y == 0.0 && seen.rot.c0.y == 0.0 && seen.rot.c0.x >= 0.0
  {
    hide Apply, Transpose, RotateZ, Orthonormal;
    var a := heading(t.rot);
    BaseInFootRigid(t, heading);
    var h: real :| HeadingOf(t.rot, a, h);
    TurnedBack(a, h, t.rot.c0);
    LevelledX(a, t.trans.z);
  }

  /** What an upright robot's absolute poses promise. */
  ghost predicate Standing(rel: seq<Pose>, abs: seq<Pose>, foot: nat)
    requires |rel| == |abs| == NUM_PARTS && foot < NUM_PARTS
  {
    // every rotation is orthonormal
    && (forall p: nat | p < NUM_PARTS :: Rigid(rel[p]) && Rigid(abs[p]))
    // the support foot is on the ground
    && abs[foot].trans.z == 0.0
    // the torso is above the origin and faces ahead
    && abs[TORSO].trans.x == 0.0 && abs[TORSO].trans.y == 0.0
    && abs[TORSO].rot.c0.y == 0.0 && abs[TORSO].rot.c0.x >= 0.0
    // the base is the origin
    && abs[VIRTUAL_BASE] == ORIGIN
    // any two parts keep their relative pose
    && (forall p: nat, q: nat | p < NUM_PARTS && q < NUM_PARTS ::
        RelativeTo(abs[p], abs[q]) == RelativeTo(rel[p], rel[q]))
  }

  lemma UprightStands(rel: seq<Pose>, abs: seq<Pose>, foot: nat, heading: Mat -> Angle)
    requires |rel| == |abs| == NUM_PARTS && foot < TORSO && IsHeading(heading)
    requires forall p: nat | p <= TORSO :: Rigid(rel[p])
    requires rel[TORSO] == ORIGIN && rel[VIRTUAL_BASE] == BaseOf(ORIGIN, rel[foot], heading)
    requires forall p: nat | p < NUM_PARTS :: abs[p] == RelativeTo(rel[p], rel[VIRTUAL_BASE])
    ensures Standing(rel, abs, foot)
  {
    hide Conc, Invert, Rigid, RelativeTo, BaseInFoot, BaseOf, IsHeading;
    var base, t := rel[VIRTUAL_BASE], RelativeTo(ORIGIN, rel[foot]);
    var b := BaseInFoot(t, heading);
    assert Rigid(ORIGIN) && Rigid(rel[foot]);
    BaseIsConc(ORIGIN, rel[foot], heading);
    BaseNeedsUprightTorso(ORIGIN, rel[foot], heading);
    FootSeenFromBase(rel[foot], base, b);
    TorsoAboveBase(t, heading);
    FootOnGround(t, heading);
    forall p: nat | p < NUM_PARTS
      ensures Rigid(rel[p]) && Rigid(abs[p])
    {
      RelativeIsConc(rel[p], base);
      ConcInvert(base);
      ConcRigid(Invert(base), rel[p]);
    }
    RelativeIsConc(base, base);
    ConcInvert(base);
    forall p: nat, q: nat | p < NUM_PARTS && q < NUM_PARTS
      ensures RelativeTo(abs[p], abs[q]) == RelativeTo(rel[p], rel[q])
    {
      RelativePoseKept(rel[p], rel[q], base);
    }
  }

  lemma FootOnGround(t: Pose, heading: Mat -> Angle)
    requires IsHeading(heading)
    ensures Invert(BaseInFoot(t, heading)).trans.z == 0.0
  {
    hide Invert, RotateZ, Orthonormal;
    BaseInFootRigid(t, heading);
    InverseStaysOnGround(heading(t.rot), t.trans.x, t.trans.y);
  }

  // ----- calculateVirtualBase and calculateAbsolutePose

  /** The sum of a foot's four sensors, which are `first` and the three after it. */
  function ForceOn(sensors: seq<real>, first: nat): real
    requires first + 4 <= |sensors|
  {
    sensors[first] + sensors[first + 1] + sensors[first + 2] + sensors[first + 3]
  }

  /** The force on one foot: four sensors from `first` on. */
  method FootForce(sensors: seq<real>, first: nat) returns (force: real)
    requires first + 4 <= |sensors|
    ensures force == ForceOn(sensors, first)
  {
    force := 0.0;
    var i := first;
    while i < first + 4
      invariant first <= i <= first + 4
      invariant force == (if i > first then sensors[first] else 0.0)
                         + (if i > first + 1 then sensors[first + 1] else 0.0)
                         + (if i > first + 2 then sensors[first + 2] else 0.0)
                         + (if i > first + 3 then sensors[first + 3] else 0.0)
    {
      force := force + sensors[i];
      i := i + 1;
    }
  }

  method CalculateVirtualBase(sensors: seq<real>, rel: array<Pose>, heading: Mat -> Angle) returns (base: Pose,
      foot: nat)
    requires rel.Length == NUM_PARTS && FSR_END <= |sensors|
    ensures foot == SupportFoot(ForceOn(sensors, FSR_LFL) > ForceOn(sensors, FSR_RFL))
    ensures base == BaseOf(rel[TORSO], rel[foot], heading)
  {
    var leftForce := FootForce(sensors, FSR_LFL);
    var rightForce := FootForce(sensors, FSR_RFL);
    foot := SupportFoot(leftForce > rightForce);
    base := BaseOf(rel[TORSO], rel[foot], heading);
  }

  method CalculateAbsolutePose(base: Pose, rel: array<Pose>, abs: array<Pose>)
    requires rel != abs && rel.Length == abs.Length == NUM_PARTS
    modifies rel, abs
    ensures rel[..] == old(rel[..])[VIRTUAL_BASE := base]
    ensures forall p: nat | p < NUM_PARTS :: abs[p] == RelativeTo(rel[p], base)
  {
    rel[VIRTUAL_BASE] := base;
    for i := 0 to NUM_PARTS
      invariant rel[..] == old(rel[..])[VIRTUAL_BASE := base]
      invariant forall p: nat | p < i :: abs[p] == RelativeTo(rel[p], base)
    {
      abs[i] := RelativeTo(rel[i], base);
    }
  }

  /** The pose of the torso that `calculateRelativePose` starts from. */
  function Tilted(x: Angle, y: Angle): Pose {
    TurnedY(TurnedX(ORIGIN, x), y)
  }

  lemma Combined(u: Vec, v: Vec, f: real, g: real)
    requires u.x == 1.0 && v.x == 0.0
    ensures Add(Scale(u, f), Scale(v, g)).x == f && Add(Scale(u, f), Neg(Scale(v, g))).x == f
  {
    assert v.x * g == 0.0;
  }

  lemma Alone(u: Vec, v: Vec)
    ensures Add(Scale(u, 1.0), Scale(v, 0.0)) == u && Add(Scale(u, 1.0), Neg(Scale(v, 0.0))) == u
  {
    hide Scale;
    ScaleByOne(u);
    ScaleByZero(v);
  }

  lemma ScaleByOne(u: Vec)
    ensures Scale(u, 1.0) == u
  {
  }

  lemma ScaleByZero(u: Vec)
    ensures Scale(u, 0.0) == ZERO
  {
  }

  lemma AddCommutes(u: Vec, v: Vec)
    ensures Add(u, v) == Add(v, u)
  {
  }

  /** The torso is upright exactly for two angles with cosine one and sine zero. */
  lemma NoTilt(x: Angle, y: Angle)
    ensures Tilted(x, y) == ORIGIN <==> x == STRAIGHT && y == STRAIGHT
  {
    hide RotateX, RotateY, Add, Scale, Neg;
    AxisMatrices(x);
    var m := MatX(x);
    TiltedColumns(m, y);
    assert Tilted(x, y).rot == RotateY(m, y);
    if x == STRAIGHT && y == STRAIGHT {
      assert m == IDENTITY;
    }
  }

  lemma TiltedColumns(m: Mat, y: Angle)
    requires m.c0.x == 1.0 && m.c2.x == 0.0
    ensures RotateY(m, y).c1 == m.c1 && RotateY(m, y).c0.x == y.c && RotateY(m, y).c2.x == y.s
    ensures y == STRAIGHT ==> RotateY(m, y) == m
  {
    hide Add, Scale, Neg;
    Combined(m.c0, m.c2, y.c, y.s);
    Combined(m.c0, m.c2, y.s, y.c);
    AddCommutes(Scale(m.c2, y.c), Scale(m.c0, y.s));
    Alone(m.c0, m.c2);
    Alone(m.c2, m.c0);
  }

  lemma TiltedRigid(x: Angle, y: Angle)
    requires Unit(x) && Unit(y)
    ensures Rigid(Tilted(x, y))
  {
    hide Orthonormal, RotateX, RotateY, RotateZ;
    OriginRigid();
    RotateKeeps(IDENTITY, x);
    RotateKeeps(RotateX(IDENTITY, x), y);
  }

  /** The computed base is the foot's base exactly when the caller passes two angles without tilt. */
  lemma BaseNeedsNoTilt(angleX: real, angleY: real, foot: Pose, heading: Mat -> Angle, trig: real -> Angle)
    requires Rigid(foot) && IsHeading(heading) && IsTrig(trig)
    ensures
      var torso := Tilted(trig(angleX), trig(angleY));
      BaseOf(torso, foot, heading) == Conc(foot, BaseInFoot(RelativeTo(torso, foot), heading))
      <==> trig(angleX) == STRAIGHT && trig(angleY) == STRAIGHT
  {
    hide Conc, Rigid, RelativeTo, BaseInFoot, BaseOf, IsHeading, Tilted;
    var x, y := trig(angleX), trig(angleY);
    TiltedRigid(x, y);
    NoTilt(x, y);
    BaseNeedsUprightTorso(Tilted(x, y), foot, heading);
  }

  /**
   `KinematicsModule::calculatePose`, for all joint angles, dimensions and foot sensors: the torso is not
   tilted, so the robot stands.
   */
  method CalculatePose(joints: seq<real>, sensors: seq<real>, d: Dimensions, rel: array<Pose>, abs: array<Pose>,
                       trig: real -> Angle, heading: Mat -> Angle)
    returns (foot: nat)
    requires rel != abs && rel.Length == abs.Length == NUM_PARTS && |joints| == NUM_JOINTS && FSR_END <= |sensors|
    requires IsTrig(trig) && IsHeading(heading)
    modifies rel, abs
    ensures AllAttached(rel[..], joints, d, trig)
    ensures foot == SupportFoot(ForceOn(sensors, FSR_LFL) > ForceOn(sensors, FSR_RFL))
    ensures Standing(rel[..], abs[..], foot)
    // sensors 10 to 13 are under the left foot, part 20, and sensors 14 to 17 under the right one, part 27
    ensures sensors[10] + sensors[11] + sensors[12] + sensors[13]
            > sensors[14] + sensors[15] + sensors[16] + sensors[17] ==>
              foot == 20 && abs[20].trans.z == 0.0
    ensures sensors[10] + sensors[11] + sensors[12] + sensors[13]
            <= sensors[14] + sensors[15] + sensors[16] + sensors[17] ==>
              foot == 27 && abs[27].trans.z == 0.0
  {
    hide Rigid, Chain, MovesOf, IsTrig, IsHeading, BaseOf, RelativeTo, Standing, Tilted;
    CalculateRelativePose(joints, 0.0, 0.0, rel, d, trig);
    NoTilt(STRAIGHT, STRAIGHT);
    ZeroIsStraight(trig);
    OriginRigid();
    ghost var parts := rel[..];
    forall p: nat | p <= TORSO
      ensures Rigid(parts[p])
    {
      PartRigid(parts, p, joints, d, trig);
    }
    var base;
    base, foot := CalculateVirtualBase(sensors, rel, heading);
    CalculateAbsolutePose(base, rel, abs);
    forall p: nat | p < TORSO
      ensures Attached(rel[..], p, joints, d, trig)
    {
      assert Attached(parts, p, joints, d, trig);
    }
    UprightStands(rel[..], abs[..], foot, heading);
    StandsOnFoot(rel[..], abs[..], foot);
  }

  lemma StandsOnFoot(rel: seq<Pose>, abs: seq<Pose>, foot: nat)
    requires |rel| == |abs| == NUM_PARTS && foot < NUM_PARTS && Standing(rel, abs, foot)
    ensures abs[foot].trans.z == 0.0
  {
  }

  lemma ForceOfSlice(sensors: seq<real>, first: nat)
    requires first + 4 <= |sensors|
    ensures ForceOn(sensors, first) == ForceOn(sensors[first..first + 4], 0)
  {
  }

  /** With the loads of the feet exchanged, and not equal, the robot stands on the other foot. */
  lemma LoadsExchanged(sensors: seq<real>, sensors': seq<real>)
    requires |sensors| >= FSR_END && |sensors'| >= FSR_END
    requires sensors'[10..14] == sensors[14..18] && sensors'[14..18] == sensors[10..14]
    requires ForceOn(sensors, 10) != ForceOn(sensors, 14)
    ensures
      var foot := SupportFoot(ForceOn(sensors, FSR_LFL) > ForceOn(sensors, FSR_RFL));
      var foot' := SupportFoot(ForceOn(sensors', FSR_LFL) > ForceOn(sensors', FSR_RFL));
      {foot, foot'} == {20, 27} && (foot == 20 <==> ForceOn(sensors, 10) > ForceOn(sensors, 14))
  {
    ForceOfSlice(sensors, 10);
    ForceOfSlice(sensors, 14);
    ForceOfSlice(sensors', 10);
    ForceOfSlice(sensors', 14);
  }

  lemma ZeroIsStraight(trig: real -> Angle)
    requires IsTrig(trig)
    ensures trig(0.0) == STRAIGHT
  {
  }

  lemma OriginRigid()
    ensures Rigid(ORIGIN)
  {
  }
}
