/**
 The body that core/kinematics/ForwardKinematics.cpp describes, by numbers: which joint turns which part, how far
 a part is from the one it hangs on, where the hands and feet are, and what exchanging the sides does.
 */
module BodyModel {
  import opened Wrappers
  import opened Frames
  import opened Kinematics

  // ----- the links

  /** The part that a part hangs on: 28 is the torso. */
  function Above(p: nat): nat {
    match p
    case 0 => 28
    case 3 => 1
    case 4 => 28
    case 9 => 28
    case 14 => 28
    case 21 => 28
    case _ => p - 1
  }

  /** The tilt falls off from the middle to the side, where only the offset is left. */
  ghost function TiltAt(c: CameraMount, pan: real): real {
    c.tiltOffset + c.tiltFactor * (1.0 - Abs(pan) / 1.57079632679489661923)
  }

  ghost function RollAt(c: CameraMount, pan: real): real {
    c.rollOffset + c.rollFactor * pan
  }

  ghost function CameraLink(c: CameraMount, pan: real, trig: real -> Angle): Pose {
    Pose(Mul(Mul(MatY(trig(TiltAt(c, pan))), MatX(trig(RollAt(c, pan)))), MatZ(trig(c.yawOffset))), Vec(c.x, 0.0, c.z))
  }

  ghost function ArmLink(k: nat, q: seq<real>, d: Dimensions, trig: real -> Angle): Pose
    requires 4 <= k < 14 && |q| == 22
  {
    match k
    case 4 => Pose(MatY(trig(-q[14])), Vec(d.armOffset1, d.armOffset2, d.armOffset3))
    case 5 => Pose(MatZ(trig(q[15])), ZERO)
    case 6 => Pose(MatX(trig(q[16])), Vec(d.upperArmLength, d.elbowOffsetY, 0.0))
    case 7 => Pose(MatZ(trig(q[17])), ZERO)
    case 8 => Pose(IDENTITY, Vec(d.lowerArmLength, 0.0, 0.0))
    case 9 => Pose(MatY(trig(-q[18])), Vec(d.armOffset1, -d.armOffset2, d.armOffset3))
    case 10 => Pose(MatZ(trig(-q[19])), ZERO)
    case 11 => Pose(MatX(trig(-q[20])), Vec(d.upperArmLength, d.elbowOffsetY, 0.0))
    case 12 => Pose(MatZ(trig(-q[21])), ZERO)
    case _ => Pose(IDENTITY, Vec(d.lowerArmLength, 0.0, 0.0))
  }

  ghost function HipLink(roll: Angle, yaw: Angle, down: real): Pose {
    Pose(Mul(MatX(roll), MatZ(yaw)), Vec(0.0, roll.s * down, -(roll.c * down)))
  }

  ghost function LegLink(k: nat, q: seq<real>, d: Dimensions, trig: real -> Angle): Pose
    requires 14 <= k < 28 && |q| == 22
  {
    match k
    case 14 => HipLink(trig(d.torsoHipRoll), trig(-q[2]), d.torsoToHip)
    case 15 => Pose(MatX(trig(-(q[3] + d.torsoHipRoll))), ZERO)
    case 16 => Pose(MatY(trig(q[4])), ZERO)
    case 17 => Pose(MatY(trig(q[5])), Vec(0.0, 0.0, -d.upperLegLength))
    case 18 => Pose(MatY(trig(q[6])), Vec(0.0, 0.0, -d.lowerLegLength))
    case 19 => Pose(MatX(trig(-q[7])), ZERO)
    case 20 => Pose(IDENTITY, Vec(0.0, 0.0, -d.footHeight))
    case 21 => HipLink(trig(-d.torsoHipRoll), trig(q[8]), d.torsoToHip)
    case 22 => Pose(MatX(trig(q[9] + d.torsoHipRoll)), ZERO)
    case 23 => Pose(MatY(trig(q[10])), ZERO)
    case 24 => Pose(MatY(trig(q[11])), Vec(0.0, 0.0, -d.upperLegLength))
    case 25 => Pose(MatY(trig(q[12])), Vec(0.0, 0.0, -d.lowerLegLength))
    case 26 => Pose(MatX(trig(q[13])), ZERO)
    case _ => Pose(IDENTITY, Vec(0.0, 0.0, -d.footHeight))
  }

  /** A part's pose as seen from the part it hangs on: a rotation by its own joint, and an offset. */
  ghost function Link(p: nat, q: seq<real>, d: Dimensions, trig: real -> Angle): Pose
    requires p < 28 && |q| == 22
  {
    if p == 0 then Pose(MatZ(trig(q[0])), Vec(0.0, 0.0, d.torsoToHeadPan))
    else if p == 1 then Pose(MatY(trig(-q[1])), ZERO)
    else if p == 2 then CameraLink(d.topCamera, q[0], trig)
    else if p == 3 then CameraLink(d.bottomCamera, q[0], trig)
    else if p < 14 then ArmLink(p, q, d, trig)
    else LegLink(p, q, d, trig)
  }

  // ----- chains of moves at the origin

  lemma Turned(a: Angle)
    ensures RotateX(IDENTITY, a) == MatX(a) && RotateY(IDENTITY, a) == MatY(a) && RotateZ(IDENTITY, a) == MatZ(a)
  {
    AxisMatrices(a);
  }

  lemma Shifted(v: Vec)
    ensures Translate(ORIGIN, v) == Pose(IDENTITY, v)
  {
    MulIdentity(IDENTITY, v);
  }

  ghost function MatOf(m: Move, trig: real -> Angle): Mat
    requires !m.Shift?
  {
    match m
    case TurnX(a) => MatX(trig(a))
    case TurnY(a) => MatY(trig(a))
    case TurnZ(a) => MatZ(trig(a))
  }

  lemma StepTurns(p: Pose, m: Move, trig: real -> Angle)
    requires !m.Shift?
    ensures Step(p, m, trig) == Pose(Mul(p.rot, MatOf(m, trig)), p.trans)
    ensures p.rot == IDENTITY ==> Step(p, m, trig) == Pose(MatOf(m, trig), p.trans)
  {
    hide Mul, RotateX, RotateY, RotateZ;
    var a := trig(m.angle);
    RotateIsMul(p.rot, a);
    AxisMatrices(a);
  }

  lemma TurnChain(m: Move, trig: real -> Angle)
    requires !m.Shift?
    ensures Chain(ORIGIN, [m], trig) == Pose(MatOf(m, trig), ZERO)
  {
    hide Chain, Step;
    Chain1(ORIGIN, m, trig);
    StepTurns(ORIGIN, m, trig);
  }

  lemma ShiftChain(v: Vec, trig: real -> Angle)
    ensures Chain(ORIGIN, [Shift(v)], trig) == Pose(IDENTITY, v)
  {
    hide Chain, Translate;
    Chain1(ORIGIN, Shift(v), trig);
    Shifted(v);
  }

  lemma ShiftTurnChain(v: Vec, m: Move, trig: real -> Angle)
    requires !m.Shift?
    ensures Chain(ORIGIN, [Shift(v), m], trig) == Pose(MatOf(m, trig), v)
  {
    hide Chain, Translate;
    Chain2(ORIGIN, Shift(v), m, trig);
    Shifted(v);
    StepTurns(Pose(IDENTITY, v), m, trig);
  }

  lemma HipChain(roll: real, yaw: real, down: real, trig: real -> Angle)
    ensures Chain(ORIGIN, [TurnX(roll), Shift(Vec(0.0, 0.0, -down)), TurnZ(yaw)], trig) ==
        HipLink(trig(roll), trig(yaw), down)
  {
    hide Chain, Mul, RotateX, RotateY, RotateZ;
    var v := Vec(0.0, 0.0, -down);
    Chain3(ORIGIN, TurnX(roll), Shift(v), TurnZ(yaw), trig);
    StepTurns(ORIGIN, TurnX(roll), trig);
    HipOffset(trig(roll), down);
    StepTurns(Translate(Pose(MatX(trig(roll)), ZERO), v), TurnZ(yaw), trig);
  }

  lemma HipOffset(a: Angle, down: real)
    ensures Add(Apply(MatX(a), Vec(0.0, 0.0, -down)), ZERO) == Vec(0.0, a.s * down, -(a.c * down))
  {
    assert -a.s * -down == a.s * down && a.c * -down == -(a.c * down);
  }

  lemma MountChain(v: Vec, tilt: Move, roll: Move, yaw: Move, trig: real -> Angle)
    requires !tilt.Shift? && !roll.Shift? && !yaw.Shift?
    ensures Chain(ORIGIN, [Shift(v), tilt, roll, yaw], trig) ==
            Pose(Mul(Mul(MatOf(tilt, trig), MatOf(roll, trig)), MatOf(yaw, trig)), v)
  {
    hide Chain, Mul, Translate, MatOf;
    Chain4(ORIGIN, Shift(v), tilt, roll, yaw, trig);
    assert Step(ORIGIN, Shift(v), trig) == Pose(IDENTITY, v) by { Shifted(v); }
    hide Step;
    var p1 := Pose(MatOf(tilt, trig), v);
    StepTurns(Pose(IDENTITY, v), tilt, trig);
    StepTurns(p1, roll, trig);
    StepTurns(Pose(Mul(p1.rot, MatOf(roll, trig)), v), yaw, trig);
  }

  lemma CameraChain(c: CameraMount, pan: real, trig: real -> Angle)
    ensures Chain(ORIGIN, CameraMoves(c, pan), trig) == CameraLink(c, pan, trig)
  {
    hide Chain, Mul, CameraTilt, CameraRoll, TiltAt, RollAt, MatX, MatY, MatZ;
    var v, tilt, roll := Vec(c.x, 0.0, c.z), TurnY(CameraTilt(c, pan)), TurnX(CameraRoll(c, pan));
    MountChain(v, tilt, roll, TurnZ(c.yawOffset), trig);
    assert CameraMoves(c, pan) == [Shift(v), tilt, roll, TurnZ(c.yawOffset)];
    CameraAngles(c, pan);
  }

  lemma CameraAngles(c: CameraMount, pan: real)
    ensures CameraTilt(c, pan) == TiltAt(c, pan) && CameraRoll(c, pan) == RollAt(c, pan)
  {
    var h, x := 1.57079632679489661923, Abs(pan);
    assert (h - x) / h == 1.0 - x / h;
    Associate(c.tiltFactor, h - x, h);
  }

  lemma Associate(f: real, x: real, h: real)
    requires h != 0.0
    ensures f * x / h == f * (x / h)
  {
    assert f * (x / h) * h == f * x;
  }

  // ----- every part is placed by its link

  lemma Signs(x: real)
    ensures By(x, 1.0) == x && By(x, -1.0) == -x
  {
  }

  lemma ArmChain(p: nat, q: seq<real>, d: Dimensions, trig: real -> Angle)
    requires 4 <= p < 14 && |q| == 22
    ensures Chain(ORIGIN, MovesOf(p, q, d), trig) == ArmLink(p, q, d, trig)
  {
    hide Chain, MatX, MatY, MatZ, By;
    var k := if p < 9 then p - 4 else p - 9;
    var m, t := if p < 9 then 1.0 else -1.0, if p < 9 then q[14..18] else q[18..22];
    Signs(d.armOffset2);
    Signs(t[1]);
    Signs(t[2]);
    Signs(t[3]);
    if k == 0 {
      ShiftTurnChain(Vec(d.armOffset1, By(d.armOffset2, m), d.armOffset3), TurnY(-t[0]), trig);
    } else if k == 1 {
      TurnChain(TurnZ(By(t[1], m)), trig);
    } else if k == 2 {
      ShiftTurnChain(Vec(d.upperArmLength, d.elbowOffsetY, 0.0), TurnX(By(t[2], m)), trig);
    } else if k == 3 {
      TurnChain(TurnZ(By(t[3], m)), trig);
    } else {
      ShiftChain(Vec(d.lowerArmLength, 0.0, 0.0), trig);
    }
  }

  lemma LegChain(p: nat, q: seq<real>, d: Dimensions, trig: real -> Angle)
    requires 14 <= p < 28 && |q| == 22
    ensures Chain(ORIGIN, MovesOf(p, q, d), trig) == LegLink(p, q, d, trig)
  {
    hide Chain, MatX, MatY, MatZ, By, HipLink;
    var k := if p < 21 then p - 14 else p - 21;
    var m, t := if p < 21 then 1.0 else -1.0, if p < 21 then q[2..8] else q[8..14];
    Signs(d.torsoHipRoll);
    Signs(t[0]);
    Signs(t[1] + d.torsoHipRoll);
    Signs(t[5]);
    if k == 0 {
      HipChain(By(d.torsoHipRoll, m), By(t[0], -m), d.torsoToHip, trig);
    } else if k == 1 {
      TurnChain(TurnX(By(t[1] + d.torsoHipRoll, -m)), trig);
    } else if k == 2 {
      TurnChain(TurnY(t[2]), trig);
    } else if k == 3 {
      ShiftTurnChain(Vec(0.0, 0.0, -d.upperLegLength), TurnY(t[3]), trig);
    } else if k == 4 {
      ShiftTurnChain(Vec(0.0, 0.0, -d.lowerLegLength), TurnY(t[4]), trig);
    } else if k == 5 {
      TurnChain(TurnX(By(t[5], -m)), trig);
    } else {
      ShiftChain(Vec(0.0, 0.0, -d.footHeight), trig);
    }
  }

  lemma LinkChain(p: nat, q: seq<real>, d: Dimensions, trig: real -> Angle)
    requires p < 28 && |q| == 22
    ensures Chain(ORIGIN, MovesOf(p, q, d), trig) == Link(p, q, d, trig)
  {
    if p >= 14 {
      hide Chain, LegLink;
      LegChain(p, q, d, trig);
    } else if p >= 4 {
      hide Chain, ArmLink;
      ArmChain(p, q, d, trig);
    } else {
      hide Chain, CameraLink, CameraMoves, MatY, MatZ;
      ShiftTurnChain(Vec(0.0, 0.0, d.torsoToHeadPan), TurnZ(q[0]), trig);
      TurnChain(TurnY(-q[1]), trig);
      CameraChain(d.topCamera, q[0], trig);
      CameraChain(d.bottomCamera, q[0], trig);
    }
  }

  /** Every part is where its link puts it, in the frame of the part it hangs on. */
  lemma Placed(parts: seq<Pose>, p: nat, q: seq<real>, d: Dimensions, trig: real -> Angle)
    requires AllAttached(parts, q, d, trig) && p < 28
    ensures parts[p] == Conc(parts[Above(p)], Link(p, q, d, trig))
  {
    hide Chain, MovesOf, Link, Conc;
    assert Attached(parts, p, q, d, trig);
    ChainIsConc(parts[Parent(p)], MovesOf(p, q, d), trig);
    LinkChain(p, q, d, trig);
  }

  // ----- a joint moves its own limb, from its own part on

  /** Joint `j` turns part `p`, or a part that `p` hangs on. */
  predicate Drives(j: nat, p: nat) {
    || (j == 0 && p <= 3)
    || (j == 1 && 1 <= p <= 3)
    || (2 <= j < 8 && 12 + j <= p <= 20)
    || (8 <= j < 14 && 13 + j <= p <= 27)
    || (14 <= j < 18 && j - 10 <= p <= 8)
    || (18 <= j < 22 && j - 9 <= p <= 13)
  }

  /** The two vectors agree in every joint that drives part `p`. */
  ghost predicate AgreeFor(p: nat, q: seq<real>, q': seq<real>)
    requires |q| == |q'| == 22
  {
    forall j: nat | j < 22 && Drives(j, p) :: q[j] == q'[j]
  }

  lemma AgreeAbove(p: nat, q: seq<real>, q': seq<real>)
    requires |q| == |q'| == 22 && p < 28 && AgreeFor(p, q, q')
    ensures AgreeFor(Above(p), q, q')
  {
    forall j: nat | j < 22 && Drives(j, Above(p))
      ensures Drives(j, p)
    {
    }
  }

  lemma ArmLinkAgrees(p: nat, q: seq<real>, q': seq<real>, d: Dimensions, trig: real -> Angle)
    requires |q| == |q'| == 22 && 4 <= p < 14 && AgreeFor(p, q, q')
    ensures ArmLink(p, q, d, trig) == ArmLink(p, q', d, trig)
  {
    hide MatX, MatY, MatZ;
    var j := if p < 9 then p + 10 else p + 9;
    if p != 8 && p != 13 {
      assert Drives(j, p);
    }
  }

  lemma LegLinkAgrees(p: nat, q: seq<real>, q': seq<real>, d: Dimensions, trig: real -> Angle)
    requires |q| == |q'| == 22 && 14 <= p < 28 && AgreeFor(p, q, q')
    ensures LegLink(p, q, d, trig) == LegLink(p, q', d, trig)
  {
    hide MatX, MatY, MatZ, HipLink;
    var j := if p < 21 then p - 12 else p - 13;
    if p != 20 && p != 27 {
      assert Drives(j, p);
    }
  }

  lemma LinkAgrees(p: nat, q: seq<real>, q': seq<real>, d: Dimensions, trig: real -> Angle)
    requires |q| == |q'| == 22 && p < 28 && AgreeFor(p, q, q')
    ensures Link(p, q, d, trig) == Link(p, q', d, trig)
  {
    hide ArmLink, LegLink, CameraLink, MatY, MatZ;
    if p >= 14 {
      LegLinkAgrees(p, q, q', d, trig);
    } else if p >= 4 {
      ArmLinkAgrees(p, q, q', d, trig);
    } else {
      assert Drives(0, p) && (p >= 1 ==> Drives(1, p));
    }
  }

  /** A part stays where it is unless a joint that drives it changes. */
  lemma {:induction false} OnlyDrivenPartsMove(parts: seq<Pose>, parts': seq<Pose>, p: nat, q: seq<real>, q': seq<real>,
                                               d: Dimensions, trig: real -> Angle)
    requires AllAttached(parts, q, d, trig) && AllAttached(parts', q', d, trig) && parts'[28] == parts[28]
    requires p <= 28 && AgreeFor(p, q, q')
    ensures parts'[p] == parts[p]
  {
    if p < 28 {
      hide AllAttached, Link, Conc, AgreeFor;
      assert |q| == |q'| == 22 && |parts| == |parts'| == 30 by { Sizes(parts, q, d, trig); Sizes(parts', q', d, trig); }
      AgreeAbove(p, q, q');
      Placed(parts, p, q, d, trig);
      Placed(parts', p, q', d, trig);
      LinkAgrees(p, q, q', d, trig);
      if Above(p) != 28 {
        OnlyDrivenPartsMove(parts, parts', Above(p), q, q', d, trig);
      }
    }
  }

  lemma Sizes(parts: seq<Pose>, q: seq<real>, d: Dimensions, trig: real -> Angle)
    requires AllAttached(parts, q, d, trig)
    ensures |q| == 22 && |parts| == 30
  {
  }

  /** The joints of one limb leave all other parts alone. */
  lemma LimbsAreIndependent(parts: seq<Pose>, parts': seq<Pose>, p: nat, q: seq<real>, q': seq<real>, d: Dimensions,
                            trig: real -> Angle, first: nat, last: nat, lo: nat, hi: nat)
    requires (first, last, lo, hi) in {(2, 8, 14, 20), (8, 14, 21, 27), (14, 18, 4, 8), (18, 22, 9, 13), (0, 2, 0, 3)}
    requires AllAttached(parts, q, d, trig) && AllAttached(parts', q', d, trig) && parts'[28] == parts[28]
    requires forall j | 0 <= j < 22 && !(first <= j < last) :: q[j] == q'[j]
    requires p <= 28 && !(lo <= p <= hi)
    ensures parts'[p] == parts[p]
  {
    hide Attached;
    forall j: nat | j < 22 && Drives(j, p)
      ensures q[j] == q'[j]
    {
      assert !(first <= j < last);
    }
    OnlyDrivenPartsMove(parts, parts', p, q, q', d, trig);
  }

  /** In particular each part has, whatever the pose, its own joint's rotation and its own offset from its parent. */
  lemma LinkSeen(parts: seq<Pose>, p: nat, q: seq<real>, d: Dimensions, trig: real -> Angle)
    requires AllAttached(parts, q, d, trig) && p < 28 && Rigid(parts[Above(p)])
    ensures RelativeTo(parts[p], parts[Above(p)]) == Link(p, q, d, trig)
  {
    hide AllAttached, Conc, Link, Invert, RelativeTo, Rigid;
    Sizes(parts, q, d, trig);
    Placed(parts, p, q, d, trig);
    SeenThrough(parts[Above(p)], Link(p, q, d, trig));
  }

  lemma SeenThrough(parent: Pose, link: Pose)
    requires Rigid(parent)
    ensures RelativeTo(Conc(parent, link), parent) == link
  {
    hide Conc, Invert, RelativeTo, Rigid;
    RelativeIsConc(Conc(parent, link), parent);
    ConcAssoc(Invert(parent), parent, link);
    ConcInvert(parent);
    ConcOrigin(link);
  }

  // ----- where hands and feet are at rest

  ghost predicate IsOdd(trig: real -> Angle) {
    forall a {:trigger trig(-a)} :: trig(-a) == Opposite(trig(a))
  }

  lemma StraightIsIdentity()
    ensures MatX(STRAIGHT) == IDENTITY && MatY(STRAIGHT) == IDENTITY && MatZ(STRAIGHT) == IDENTITY
  {
  }

  lemma ConcShift(t: Vec, v: Vec)
    ensures Conc(Pose(IDENTITY, t), Pose(IDENTITY, v)) == Pose(IDENTITY, Add(v, t))
  {
    hide Mul, Apply;
    MulIdentity(IDENTITY, v);
  }

  /** A leg at rest hangs down from the hip. */
  lemma RestingLeg(parts: seq<Pose>, first: nat, q: seq<real>, d: Dimensions, trig: real -> Angle, roll: Angle)
    requires AllAttached(parts, q, d, trig) && parts[28] == ORIGIN && (first == 14 || first == 21) && Unit(roll)
    requires Link(first, q, d, trig) == HipLink(roll, STRAIGHT, d.torsoToHip)
    requires Link(first + 1, q, d, trig) == Pose(MatX(Opposite(roll)), ZERO) && Link(first + 2, q, d, trig) == ORIGIN
    requires Link(first + 3, q, d, trig) == Pose(IDENTITY, Vec(0.0, 0.0, -d.upperLegLength))
    requires Link(first + 4, q, d, trig) == Pose(IDENTITY, Vec(0.0, 0.0, -d.lowerLegLength))
    requires Link(first + 5, q, d, trig) == ORIGIN
    requires Link(first + 6, q, d, trig) == Pose(IDENTITY, Vec(0.0, 0.0, -d.footHeight))
    ensures parts[first + 6] ==
            Pose(IDENTITY, Vec(0.0, roll.s * d.torsoToHip,
                               -(roll.c * d.torsoToHip) - d.upperLegLength - d.lowerLegLength - d.footHeight))
  {
    hide AllAttached, Link, Conc, MatX, Unit;
    Sizes(parts, q, d, trig);
    var hip := Vec(0.0, roll.s * d.torsoToHip, -(roll.c * d.torsoToHip));
    Placed(parts, first, q, d, trig);
    Placed(parts, first + 1, q, d, trig);
    Placed(parts, first + 2, q, d, trig);
    Placed(parts, first + 3, q, d, trig);
    Placed(parts, first + 4, q, d, trig);
    Placed(parts, first + 5, q, d, trig);
    Placed(parts, first + 6, q, d, trig);
    assert parts[first] == Pose(MatX(roll), hip) by { HipAtRest(roll, d.torsoToHip); }
    assert parts[first + 1] == Pose(IDENTITY, hip) by { RollUndone(roll, hip); }
    ConcOrigin(parts[first + 1]);
    ConcShift(hip, Vec(0.0, 0.0, -d.upperLegLength));
    var knee := Add(Vec(0.0, 0.0, -d.upperLegLength), hip);
    ConcShift(knee, Vec(0.0, 0.0, -d.lowerLegLength));
    var ankle := Add(Vec(0.0, 0.0, -d.lowerLegLength), knee);
    ConcOrigin(parts[first + 4]);
    ConcShift(ankle, Vec(0.0, 0.0, -d.footHeight));
  }

  lemma HipAtRest(roll: Angle, down: real)
    ensures Conc(ORIGIN, HipLink(roll, STRAIGHT, down)) == Pose(MatX(roll), Vec(0.0, roll.s * down, -(roll.c * down)))
  {
    hide Conc, MatX, MatZ, Mul;
    ConcOrigin(HipLink(roll, STRAIGHT, down));
    StraightIsIdentity();
    MulIdentity(MatX(roll), ZERO);
  }

  lemma RollUndone(roll: Angle, hip: Vec)
    requires Unit(roll)
    ensures Conc(Pose(MatX(roll), hip), Pose(MatX(Opposite(roll)), ZERO)) == Pose(IDENTITY, hip)
  {
    hide Mul, Apply, MatX;
    TurnsBack(roll);
    MulIdentity(MatX(roll), hip);
  }

  /** With all joints at zero, both feet are under the hips, at the same height, as far left and right as each other. */
  lemma FeetAtRest(parts: seq<Pose>, q: seq<real>, d: Dimensions, trig: real -> Angle)
    requires AllAttached(parts, q, d, trig) && parts[28] == ORIGIN && IsTrig(trig) && IsOdd(trig)
    requires forall j | 0 <= j < 22 :: q[j] == 0.0
    ensures
      var a := trig(d.torsoHipRoll);
      var z := -(a.c * d.torsoToHip) - d.upperLegLength - d.lowerLegLength - d.footHeight;
      && parts[20] == Pose(IDENTITY, Vec(0.0, a.s * d.torsoToHip, z))
      && parts[27] == Pose(IDENTITY, Vec(0.0, -(a.s * d.torsoToHip), z))
  {
    hide AllAttached, HipLink, MatX, MatY, MatZ;
    Sizes(parts, q, d, trig);
    StraightIsIdentity();
    var a, b := trig(d.torsoHipRoll), trig(-d.torsoHipRoll);
    assert b == Opposite(a) && Opposite(b) == a && trig(-0.0) == STRAIGHT;
    RestingLeg(parts, 14, q, d, trig, a);
    RestingLeg(parts, 21, q, d, trig, b);
    assert b.s * d.torsoToHip == -(a.s * d.torsoToHip);
  }

  /** The hands are in front of the shoulders; the elbows' offset takes both to the left. */
  lemma HandsAtRest(parts: seq<Pose>, q: seq<real>, d: Dimensions, trig: real -> Angle)
    requires AllAttached(parts, q, d, trig) && parts[28] == ORIGIN && IsTrig(trig)
    requires forall j | 0 <= j < 22 :: q[j] == 0.0
    ensures
      var x := d.armOffset1 + d.upperArmLength + d.lowerArmLength;
      && parts[8] == Pose(IDENTITY, Vec(x, d.armOffset2 + d.elbowOffsetY, d.armOffset3))
      && parts[13] == Pose(IDENTITY, Vec(x, -d.armOffset2 + d.elbowOffsetY, d.armOffset3))
  {
    hide AllAttached, MatX, MatY, MatZ;
    Sizes(parts, q, d, trig);
    StraightIsIdentity();
    assert trig(-0.0) == STRAIGHT;
    RestingArm(parts, 4, q, d, trig, d.armOffset2);
    RestingArm(parts, 9, q, d, trig, -d.armOffset2);
  }

  lemma RestingArm(parts: seq<Pose>, first: nat, q: seq<real>, d: Dimensions, trig: real -> Angle, y: real)
    requires AllAttached(parts, q, d, trig) && parts[28] == ORIGIN && (first == 4 || first == 9)
    requires Link(first, q, d, trig) == Pose(IDENTITY, Vec(d.armOffset1, y, d.armOffset3))
    requires Link(first + 1, q, d, trig) == ORIGIN && Link(first + 3, q, d, trig) == ORIGIN
    requires Link(first + 2, q, d, trig) == Pose(IDENTITY, Vec(d.upperArmLength, d.elbowOffsetY, 0.0))
    requires Link(first + 4, q, d, trig) == Pose(IDENTITY, Vec(d.lowerArmLength, 0.0, 0.0))
    ensures parts[first + 4] ==
            Pose(IDENTITY, Vec(d.armOffset1 + d.upperArmLength + d.lowerArmLength, y + d.elbowOffsetY, d.armOffset3))
  {
    hide AllAttached, Link, Conc;
    Sizes(parts, q, d, trig);
    Placed(parts, first, q, d, trig);
    Placed(parts, first + 1, q, d, trig);
    Placed(parts, first + 2, q, d, trig);
    Placed(parts, first + 3, q, d, trig);
    Placed(parts, first + 4, q, d, trig);
    var shoulder, elbow := Vec(d.armOffset1, y, d.armOffset3), Vec(d.upperArmLength, d.elbowOffsetY, 0.0);
    ConcOrigin(Pose(IDENTITY, shoulder));
    ConcShift(shoulder, elbow);
    ConcOrigin(Pose(IDENTITY, Add(elbow, shoulder)));
    ConcShift(Add(elbow, shoulder), Vec(d.lowerArmLength, 0.0, 0.0));
  }

  // ----- exchanging the sides

  function FlipVec(v: Vec): Vec {
    Vec(v.x, -v.y, v.z)
  }

  /** Reflection in the plane between the sides. */
  function FlipMat(m: Mat): Mat {
    Mat(FlipVec(m.c0), Neg(FlipVec(m.c1)), FlipVec(m.c2))
  }

  function Flip(p: Pose): Pose {
    Pose(FlipMat(p.rot), FlipVec(p.trans))
  }

  lemma FlipApply(m: Mat, v: Vec)
    ensures Apply(FlipMat(m), FlipVec(v)) == FlipVec(Apply(m, v))
    ensures Apply(FlipMat(m), Neg(FlipVec(v))) == Neg(FlipVec(Apply(m, v)))
  {
    FlipRow(m.c0.x, m.c1.x, m.c2.x, v);
    FlipRow(m.c0.y, m.c1.y, m.c2.y, v);
    FlipRow(m.c0.z, m.c1.z, m.c2.z, v);
  }

  lemma FlipRow(a: real, b: real, c: real, v: Vec)
    ensures Row(a, -b, c, FlipVec(v)) == Row(a, b, c, v)
    ensures Row(-a, b, -c, FlipVec(v)) == -Row(a, b, c, v)
    ensures Row(a, -b, c, Neg(FlipVec(v))) == -Row(a, b, c, v)
    ensures Row(-a, b, -c, Neg(FlipVec(v))) == Row(a, b, c, v)
  {
  }

  lemma FlipConc(p: Pose, q: Pose)
    ensures Flip(Conc(p, q)) == Conc(Flip(p), Flip(q))
  {
    hide Apply;
    FlipApply(p.rot, q.rot.c0);
    FlipApply(p.rot, q.rot.c1);
    FlipApply(p.rot, q.rot.c2);
    FlipApply(p.rot, q.trans);
  }

  lemma FlipTurnX(a: Angle)
    ensures FlipMat(MatX(a)) == MatX(Opposite(a))
  {
  }

  lemma FlipTurnY(a: Angle)
    ensures FlipMat(MatY(a)) == MatY(a)
  {
  }

  lemma FlipTurnZ(a: Angle)
    ensures FlipMat(MatZ(a)) == MatZ(Opposite(a))
  {
  }

  lemma FlipIdentity()
    ensures FlipMat(IDENTITY) == IDENTITY && FlipVec(ZERO) == ZERO && Flip(ORIGIN) == ORIGIN
  {
    hide FlipMat, FlipVec, MatX, MatY, MatZ;
    StraightIsIdentity();
    FlipTurnY(STRAIGHT);
    FlipLevel(ZERO);
  }

  lemma FlipLevel(v: Vec)
    requires v.y == 0.0
    ensures FlipVec(v) == v
  {
  }

  lemma FlipMul(a: Mat, b: Mat)
    ensures FlipMat(Mul(a, b)) == Mul(FlipMat(a), FlipMat(b))
  {
    FlipConc(Pose(a, ZERO), Pose(b, ZERO));
  }

  function OtherSide(p: nat): nat {
    if 4 <= p < 9 then p + 5
    else if 9 <= p < 14 then p - 5
    else if 14 <= p < 21 then p + 7
    else if 21 <= p < 28 then p - 7
    else p
  }

  /** The left joints of one are the right joints of the other. */
  ghost predicate Exchanged(q: seq<real>, q': seq<real>) {
    && |q| == |q'| == 22 && q'[2..8] == q[8..14] && q'[8..14] == q[2..8]
    && q'[14..18] == q[18..22] && q'[18..22] == q[14..18]
  }

  lemma ExchangedJoint(q: seq<real>, q': seq<real>, k: nat)
    requires Exchanged(q, q')
    ensures k < 6 ==> q'[2 + k] == q[8 + k] && q'[8 + k] == q[2 + k]
    ensures k < 4 ==> q'[14 + k] == q[18 + k] && q'[18 + k] == q[14 + k]
  {
    if k < 6 {
      assert q'[2..8][k] == q[8..14][k] && q'[8..14][k] == q[2..8][k];
    }
    if k < 4 {
      assert q'[14..18][k] == q[18..22][k] && q'[18..22][k] == q[14..18][k];
    }
  }

  lemma FlipHip(roll: Angle, yaw: Angle, down: real)
    ensures Flip(HipLink(roll, yaw, down)) == HipLink(Opposite(roll), Opposite(yaw), down)
  {
    hide Mul, MatX, MatZ, FlipMat;
    FlipMul(MatX(roll), MatZ(yaw));
    FlipTurnX(roll);
    FlipTurnZ(yaw);
    assert -roll.s * down == -(roll.s * down);
  }

  /** A link of the left leg is the reflected link of the right leg with the same angles, and conversely. */
  lemma LegLinksFlip(p: nat, q: seq<real>, q': seq<real>, d: Dimensions, trig: real -> Angle)
    requires Exchanged(q, q') && 14 <= p < 28 && IsOdd(trig)
    ensures Link(OtherSide(p), q', d, trig) == Flip(Link(p, q, d, trig))
  {
    hide MatX, MatY, MatZ, FlipMat, HipLink, Opposite;
    var k := if p < 21 then p - 14 else p - 21;
    ExchangedJoint(q, q', k);
    FlipIdentity();
    var t := if p < 21 then q[2..8] else q[8..14];
    if k == 0 {
      FlipHip(trig(if p < 21 then d.torsoHipRoll else -d.torsoHipRoll), trig(if p < 21 then -t[0] else t[0]),
          d.torsoToHip);
      OddTwice(trig, d.torsoHipRoll);
      OddTwice(trig, t[0]);
    } else if k == 1 {
      FlipTurnX(trig(if p < 21 then -(t[1] + d.torsoHipRoll) else t[1] + d.torsoHipRoll));
      OddTwice(trig, t[1] + d.torsoHipRoll);
    } else if k == 5 {
      FlipTurnX(trig(if p < 21 then -t[5] else t[5]));
      OddTwice(trig, t[5]);
    } else if k < 5 {
      FlipTurnY(trig(t[k]));
    }
    FlipLevel(Vec(0.0, 0.0, -d.upperLegLength));
    FlipLevel(Vec(0.0, 0.0, -d.lowerLegLength));
    FlipLevel(Vec(0.0, 0.0, -d.footHeight));
  }

  lemma OddTwice(trig: real -> Angle, a: real)
    requires IsOdd(trig)
    ensures trig(-a) == Opposite(trig(a)) && trig(a) == Opposite(trig(-a))
  {
    assert trig(-a) == Opposite(trig(a));
  }

  /** The same for the arms, except that the elbow's offset is not reflected. */
  lemma ArmLinksFlip(p: nat, q: seq<real>, q': seq<real>, d: Dimensions, trig: real -> Angle)
    requires Exchanged(q, q') && 4 <= p < 14 && IsOdd(trig)
    ensures p != 6 && p != 11 ==> Link(OtherSide(p), q', d, trig) == Flip(Link(p, q, d, trig))
    ensures p == 6 || p == 11 ==>
        (Link(OtherSide(p), q', d, trig) == Flip(Link(p, q, d, trig)) <==> d.elbowOffsetY == 0.0)
  {
    hide MatX, MatY, MatZ, FlipMat, Opposite;
    var k := if p < 9 then p - 4 else p - 9;
    ExchangedJoint(q, q', k);
    FlipIdentity();
    var t := if p < 9 then q[14..18] else q[18..22];
    if k == 0 {
      FlipTurnY(trig(-t[0]));
    } else if k == 2 {
      FlipTurnX(trig(if p < 9 then t[2] else -t[2]));
      OddTwice(trig, t[2]);
    } else if k < 4 {
      FlipTurnZ(trig(if p < 9 then t[k] else -t[k]));
      OddTwice(trig, t[k]);
    }
    FlipLevel(Vec(d.lowerArmLength, 0.0, 0.0));
  }

  /** One part further down: reflected if its parent and its link are. */
  lemma FlipOneDown(parts: seq<Pose>, parts': seq<Pose>, p: nat, q: seq<real>, q': seq<real>, d: Dimensions,
                    trig: real -> Angle)
    requires AllAttached(parts, q, d, trig) && AllAttached(parts', q', d, trig) && 4 <= p < 28
    requires parts'[OtherSide(Above(p))] == Flip(parts[Above(p)])
    requires Link(OtherSide(p), q', d, trig) == Flip(Link(p, q, d, trig))
    ensures parts'[OtherSide(p)] == Flip(parts[p])
  {
    hide AllAttached, Link, Conc, Flip;
    Sizes(parts, q, d, trig);
    Sizes(parts', q', d, trig);
    Placed(parts, p, q, d, trig);
    Placed(parts', OtherSide(p), q', d, trig);
    FlipConc(parts[Above(p)], Link(p, q, d, trig));
  }

  /** Exchanging the sides' joints reflects the legs. */
  lemma {:induction false} LegsMirror(parts: seq<Pose>, parts': seq<Pose>, p: nat, q: seq<real>, q': seq<real>,
                                      d: Dimensions, trig: real -> Angle)
    requires AllAttached(parts, q, d, trig) && AllAttached(parts', q', d, trig) && parts'[28] == Flip(parts[28])
    requires Exchanged(q, q') && IsOdd(trig) && 14 <= p < 28
    ensures parts'[OtherSide(p)] == Flip(parts[p])
  {
    hide AllAttached, Link, Exchanged, IsOdd, Flip;
    Sizes(parts, q, d, trig);
    Sizes(parts', q', d, trig);
    if p != 14 && p != 21 {
      LegsMirror(parts, parts', p - 1, q, q', d, trig);
    }
    LegLinksFlip(p, q, q', d, trig);
    FlipOneDown(parts, parts', p, q, q', d, trig);
  }

  lemma CancelLeft(p: Pose, a: Pose, b: Pose)
    requires Rigid(p) && Conc(p, a) == Conc(p, b)
    ensures a == b
  {
    hide Conc, RelativeTo, Rigid;
    SeenThrough(p, a);
    SeenThrough(p, b);
  }

  lemma CancelRight(a: Pose, b: Pose, c: Pose)
    requires Rigid(c) && Conc(a, c) == Conc(b, c)
    ensures a == b
  {
    hide Conc, Invert, Rigid;
    ConcInvert(c);
    ConcAssoc(a, c, Invert(c));
    ConcAssoc(b, c, Invert(c));
    ConcOrigin(a);
    ConcOrigin(b);
  }

  lemma ForearmRigid(p: nat, q: seq<real>, d: Dimensions, trig: real -> Angle)
    requires p in {7, 8, 12, 13} && |q| == 22 && IsTrig(trig)
    ensures Rigid(Link(p, q, d, trig))
  {
    hide Orthonormal, MatX, MatY, MatZ;
    OriginRigid();
    var a := trig(if p < 9 then q[17] else -q[21]);
    RotationOrthonormal(a);
    AxisMatrices(a);
  }

  /** It reflects shoulders and upper arms, too, but the arms from the elbows on only if they have no offset. */
  lemma ArmsMirror(parts: seq<Pose>, parts': seq<Pose>, p: nat, q: seq<real>, q': seq<real>, d: Dimensions,
                   trig: real -> Angle)
    requires AllAttached(parts, q, d, trig) && AllAttached(parts', q', d, trig) && parts'[28] == Flip(parts[28])
    requires Exchanged(q, q') && IsOdd(trig) && IsTrig(trig) && Rigid(parts'[28]) && 4 <= p < 14
    ensures p in {4, 5, 9, 10} ==> parts'[OtherSide(p)] == Flip(parts[p])
    ensures p !in {4, 5, 9, 10} ==> (parts'[OtherSide(p)] == Flip(parts[p]) <==> d.elbowOffsetY == 0.0)
  {
    hide AllAttached, Link, Exchanged, IsOdd, IsTrig, Flip, Conc, Rigid;
    Sizes(parts, q, d, trig);
    Sizes(parts', q', d, trig);
    ArmLinksFlip(p, q, q', d, trig);
    if p in {4, 9} {
      FlipOneDown(parts, parts', p, q, q', d, trig);
    } else {
      ArmsMirror(parts, parts', p - 1, q, q', d, trig);
      if p in {5, 10} {
        FlipOneDown(parts, parts', p, q, q', d, trig);
      } else {
        Placed(parts, p, q, d, trig);
        Placed(parts', OtherSide(p), q', d, trig);
        FlipConc(parts[p - 1], Link(p, q, d, trig));
        if parts'[OtherSide(p)] == Flip(parts[p]) {
          if p in {6, 11} {
            PartRigid(parts', OtherSide(p - 1), q', d, trig);
            CancelLeft(parts'[OtherSide(p - 1)], Link(OtherSide(p), q', d, trig), Flip(Link(p, q, d, trig)));
          } else {
            ForearmRigid(OtherSide(p), q', d, trig);
            CancelRight(parts'[OtherSide(p - 1)], Flip(parts[p - 1]), Link(OtherSide(p), q', d, trig));
          }
        }
      }
    }
  }
}
