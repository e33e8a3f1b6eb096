/** Forward kinematics of the fingers of the hand. */
module Kinematics {
  import opened Rotations
  import opened Quaternion

  datatype Transform = Transform(r: Mat, p: Vec)

  const IDENTITY := Transform(UNIT, ORIGIN)

  function Apply(t: Transform, v: Vec): Vec {
    Plus(Times(t.r, v), t.p)
  }

  function Compose(a: Transform, b: Transform): Transform {
    Transform(Mul(a.r, b.r), Plus(Times(a.r, b.p), a.p))
  }

  /** Cosine and sine of an angle, by their one law. */
  ghost predicate IsTrig(cos: real -> real, sin: real -> real) {
    forall x :: cos(x) * cos(x) + sin(x) * sin(x) == 1.0
  }

  predicate Rigid(t: Transform) {
    Proper(t.r)
  }

  /** Rotation by roll, pitch and yaw, from their cosines and sines. */
  function RpyMatrix(cr: real, sr: real, cp: real, sp: real, cy: real, sy: real): Mat {
    Mat(Vec(cy * cp, cy * sp * sr - sy * cr, cy * sp * cr + sy * sr),
        Vec(sy * cp, sy * sp * sr + cy * cr, sy * sp * cr - cy * sr),
        Vec(-sp, cp * sr, cp * cr))
  }

  function MakeRpyXyz(cos: real -> real, sin: real -> real, roll: real, pitch: real, yaw: real, x: real, y: real,
                      z: real): Transform {
    Transform(RpyMatrix(cos(roll), sin(roll), cos(pitch), sin(pitch), cos(yaw), sin(yaw)), Vec(x, y, z))
  }

  function AxisRotation(cos: real -> real, sin: real -> real, a: Vec, q: real): Transform {
    Transform(AxisMatrix(a, cos(q), sin(q)), ORIGIN)
  }

  function FixedThenRevolute(cos: real -> real, sin: real -> real, roll: real, pitch: real, yaw: real,
                             x: real, y: real, z: real, a: Vec, q: real): Transform {
    Compose(MakeRpyXyz(cos, sin, roll, pitch, yaw, x, y, z), AxisRotation(cos, sin, a, q))
  }

  // ----- composition -----

  lemma DotPlus(u: Vec, v: Vec, w: Vec)
    ensures Dot(u, Plus(v, w)) == Dot(u, v) + Dot(u, w) && Dot(u, Minus(v, w)) == Dot(u, v) - Dot(u, w)
  {
  }

  /** A row of a product, applied to a vector. */
  lemma RowTimes(a: Vec, m: Mat, v: Vec)
    ensures Dot(Comb(a, m), v) == Dot(a, Times(m, v))
  {
    DotComb(a, m, v);
  }

  /** Composing transforms is applying one after the other. */
  lemma ComposeApplies(a: Transform, b: Transform, v: Vec)
    ensures Apply(Compose(a, b), v) == Apply(a, Apply(b, v))
  {
    hide Dot, Comb;
    RowTimes(a.r.r0, b.r, v);
    RowTimes(a.r.r1, b.r, v);
    RowTimes(a.r.r2, b.r, v);
    DotPlus(a.r.r0, Times(b.r, v), b.p);
    DotPlus(a.r.r1, Times(b.r, v), b.p);
    DotPlus(a.r.r2, Times(b.r, v), b.p);
  }

  lemma ComposeRigid(a: Transform, b: Transform)
    requires Rigid(a) && Rigid(b)
    ensures Rigid(Compose(a, b))
  {
    hide Proper, Mul;
    MulProper(a.r, b.r);
  }

  /** A rigid transform keeps distances. */
  lemma KeepsDistances(t: Transform, u: Vec, v: Vec)
    requires Rigid(t)
    ensures var d, e := Minus(u, v), Minus(Apply(t, u), Apply(t, v)); Dot(e, e) == Dot(d, d)
  {
    hide RightHanded, Dot;
    var d := Minus(u, v);
    DotPlus(t.r.r0, u, v);
    DotPlus(t.r.r1, u, v);
    DotPlus(t.r.r2, u, v);
    assert Minus(Apply(t, u), Apply(t, v)) == Times(t.r, d);
    ColumnForm(t.r, d);
    CombDot(d, d, Transpose(t.r));
  }

  lemma ColumnForm(m: Mat, v: Vec)
    ensures Times(m, v) == Comb(v, Transpose(m))
  {
  }

  // ----- the links -----

  /** The rotation of a link is yaw, pitch and roll, one after the other. */
  lemma RpyIsProduct(cr: real, sr: real, cp: real, sp: real, cy: real, sy: real)
    ensures Mul(Mul(RotZ(cy, sy), RotY(cp, sp)), RotX(cr, sr)) == RpyMatrix(cr, sr, cp, sp, cy, sy)
  {
    var m := Mul(RotZ(cy, sy), RotY(cp, sp));
    assert m == Mat(Vec(cy * cp, -sy, cy * sp), Vec(sy * cp, cy, sy * sp), Vec(-sp, 0.0, cp));
  }

  lemma RpyRigid(cos: real -> real, sin: real -> real, roll: real, pitch: real, yaw: real, x: real, y: real, z: real)
    requires IsTrig(cos, sin)
    ensures Rigid(MakeRpyXyz(cos, sin, roll, pitch, yaw, x, y, z))
  {
    hide Proper, Mul, RotX, RotY, RotZ, RpyMatrix;
    ElementaryProper(cos(roll), sin(roll));
    ElementaryProper(cos(pitch), sin(pitch));
    ElementaryProper(cos(yaw), sin(yaw));
    RpyIsProduct(cos(roll), sin(roll), cos(pitch), sin(pitch), cos(yaw), sin(yaw));
    MulProper(RotZ(cos(yaw), sin(yaw)), RotY(cos(pitch), sin(pitch)));
    MulProper(Mul(RotZ(cos(yaw), sin(yaw)), RotY(cos(pitch), sin(pitch))), RotX(cos(roll), sin(roll)));
  }

  lemma AxisRigid(cos: real -> real, sin: real -> real, a: Vec, q: real)
    requires IsTrig(cos, sin) && Dot(a, a) == 1.0
    ensures Rigid(AxisRotation(cos, sin, a, q))
  {
    hide Proper, AxisMatrix, Times;
    AxisProper(a, cos(q), sin(q));
  }

  // ----- where a point goes -----

  /** A point turned by roll, pitch and yaw about the fixed axes, then moved by p. */
  function Moved(cos: real -> real, sin: real -> real, roll: real, pitch: real, yaw: real, p: Vec, v: Vec): Vec {
    var rolled := Turned(X_AXIS, cos(roll), sin(roll), v);
    var pitched := Turned(Y_AXIS, cos(pitch), sin(pitch), rolled);
    Plus(Turned(Z_AXIS, cos(yaw), sin(yaw), pitched), p)
  }

  /** A point turned by a joint. */
  function Bent(cos: real -> real, sin: real -> real, a: Vec, q: real, v: Vec): Vec {
    Turned(a, cos(q), sin(q), v)
  }

  /** Main result.  A joint turns every point v about its axis a, right-handed, to
      cos q * v + sin q * (a cross v) + (1 - cos q) * (a . v) * a; a quarter turn about Z
      takes the X axis to the Y axis. */
  lemma JointTurns(cos: real -> real, sin: real -> real, a: Vec, q: real, v: Vec)
    ensures Apply(AxisRotation(cos, sin, a, q), v) == Turned(a, cos(q), sin(q), v)
    ensures cos(q) == 0.0 && sin(q) == 1.0 ==> Apply(AxisRotation(cos, sin, Z_AXIS, q), X_AXIS) == Y_AXIS
  {
    hide AxisMatrix, Times, Turned;
    AxisTurns(a, cos(q), sin(q), v);
    AxisTurns(Z_AXIS, cos(q), sin(q), X_AXIS);
    QuarterTurns();
  }

  lemma ProductTimes(a: Mat, b: Mat, v: Vec)
    ensures Times(Mul(a, b), v) == Times(a, Times(b, v))
  {
    hide Dot, Comb;
    RowTimes(a.r0, b, v);
    RowTimes(a.r1, b, v);
    RowTimes(a.r2, b, v);
  }

  /** A fixed link. */
  lemma FixedMoves(cos: real -> real, sin: real -> real, roll: real, pitch: real, yaw: real,
                   x: real, y: real, z: real, v: Vec)
    ensures Apply(MakeRpyXyz(cos, sin, roll, pitch, yaw, x, y, z), v)
      == Moved(cos, sin, roll, pitch, yaw, Vec(x, y, z), v)
  {
    hide Mul, RotX, RotY, RotZ, RpyMatrix, AxisMatrix, Times, Turned;
    var mx, my, mz := RotX(cos(roll), sin(roll)), RotY(cos(pitch), sin(pitch)), RotZ(cos(yaw), sin(yaw));
    RpyIsProduct(cos(roll), sin(roll), cos(pitch), sin(pitch), cos(yaw), sin(yaw));
    ProductTimes(Mul(mz, my), mx, v);
    ProductTimes(mz, my, Times(mx, v));
    ElementaryAxes(cos(roll), sin(roll));
    ElementaryAxes(cos(pitch), sin(pitch));
    ElementaryAxes(cos(yaw), sin(yaw));
    AxisTurns(X_AXIS, cos(roll), sin(roll), v);
    AxisTurns(Y_AXIS, cos(pitch), sin(pitch), Times(mx, v));
    AxisTurns(Z_AXIS, cos(yaw), sin(yaw), Times(my, Times(mx, v)));
  }

  /** A link with a joint bends first and is then placed by its fixed part. */
  lemma RevoluteMoves(cos: real -> real, sin: real -> real, roll: real, pitch: real, yaw: real,
                      x: real, y: real, z: real, a: Vec, q: real, v: Vec)
    ensures Apply(FixedThenRevolute(cos, sin, roll, pitch, yaw, x, y, z, a, q), v)
      == Moved(cos, sin, roll, pitch, yaw, Vec(x, y, z), Bent(cos, sin, a, q, v))
  {
    hide Compose, Apply, MakeRpyXyz, AxisRotation, Turned, Moved;
    ComposeApplies(MakeRpyXyz(cos, sin, roll, pitch, yaw, x, y, z), AxisRotation(cos, sin, a, q), v);
    JointTurns(cos, sin, a, q, v);
    FixedMoves(cos, sin, roll, pitch, yaw, x, y, z, Bent(cos, sin, a, q, v));
  }

  // ----- the chains -----

  /** A link of a chain: a fixed transform, or one followed by a joint. */
  datatype Link =
    | Fixed(roll: real, pitch: real, yaw: real, x: real, y: real, z: real)
    | Joint(jroll: real, jpitch: real, jyaw: real, jx: real, jy: real, jz: real, axis: Vec, q: real)

  function TransformOf(cos: real -> real, sin: real -> real, l: Link): Transform {
    match l
    case Fixed(roll, pitch, yaw, x, y, z) => MakeRpyXyz(cos, sin, roll, pitch, yaw, x, y, z)
    case Joint(roll, pitch, yaw, x, y, z, axis, q) => FixedThenRevolute(cos, sin, roll, pitch, yaw, x, y, z, axis, q)
  }

  predicate ValidLinks(links: seq<Link>) {
    forall l :: l in links ==> l.Joint? ==> Dot(l.axis, l.axis) == 1.0
  }

  /** The chain up to its tip. */
  function Chain(cos: real -> real, sin: real -> real, links: seq<Link>): Transform {
    if links == [] then IDENTITY
    else Compose(Chain(cos, sin, links[..|links| - 1]), TransformOf(cos, sin, links[|links| - 1]))
  }

  lemma LinkRigid(cos: real -> real, sin: real -> real, l: Link)
    requires IsTrig(cos, sin) && (l.Joint? ==> Dot(l.axis, l.axis) == 1.0)
    ensures Rigid(TransformOf(cos, sin, l))
  {
    hide Rigid, Compose, MakeRpyXyz, AxisRotation;
    match l
    case Fixed(roll, pitch, yaw, x, y, z) => RpyRigid(cos, sin, roll, pitch, yaw, x, y, z);
    case Joint(roll, pitch, yaw, x, y, z, axis, q) =>
      RpyRigid(cos, sin, roll, pitch, yaw, x, y, z);
      AxisRigid(cos, sin, axis, q);
      ComposeRigid(MakeRpyXyz(cos, sin, roll, pitch, yaw, x, y, z), AxisRotation(cos, sin, axis, q));
  }

  lemma {:induction false} ChainIsRigid(cos: real -> real, sin: real -> real, links: seq<Link>)
    requires IsTrig(cos, sin) && ValidLinks(links)
    ensures Rigid(Chain(cos, sin, links))
    decreases |links|
  {
    if links == [] {
      UnitProper();
    } else {
      hide Rigid, Compose, TransformOf;
      var n := |links| - 1;
      ChainIsRigid(cos, sin, links[..n]);
      LinkRigid(cos, sin, links[n]);
      ComposeRigid(Chain(cos, sin, links[..n]), TransformOf(cos, sin, links[n]));
    }
  }

  /** Main result.  Every chain of links about unit axes is a rigid transform: its
      matrix is orthonormal and has determinant 1. */
  lemma ChainRigid(cos: real -> real, sin: real -> real, links: seq<Link>)
    requires IsTrig(cos, sin) && ValidLinks(links)
    ensures var t := Chain(cos, sin, links); Rigid(t) && Det(t.r) == 1.0
  {
    hide Chain, Proper, Det, IsTrig, ValidLinks;
    ChainIsRigid(cos, sin, links);
    ProperDeterminant(Chain(cos, sin, links).r);
  }

  function ThumbLinks(q0: real, q1: real, q2: real, q3: real): seq<Link> {
    [Fixed(0.0, 0.0, 0.0, 0.0, 0.0, 0.071),
     Fixed(-0.0873, 0.0, 0.0, -0.02325, 0.01224, -0.02988),
     Joint(-1.5708, 0.0, 0.0, 0.0197, 0.002, 0.0, Y_AXIS, q0),
     Joint(0.0, 0.0, 0.0, -0.002, 0.0, 0.036, Z_AXIS, q1),
     Joint(0.0, 0.0, 0.0, 0.002, 0.0, 0.0102, Y_AXIS, q2),
     Joint(0.0, 0.0, 0.0, 0.0, 0.0, 0.0335, Y_AXIS, q3),
     Fixed(0.0, 0.0, 0.0, -0.002, 0.0, 0.010)]
  }

  function FingerLinks(roll: real, pitch: real, yaw: real, x: real, y: real, z: real, q0: real, q1: real, q2: real,
                       q3: real): seq<Link> {
    [Fixed(0.0, 0.0, 0.0, 0.0, 0.0, 0.071),
     Fixed(roll, pitch, yaw, x, y, z),
     Joint(0.0, 0.0, 0.0, 0.02325, 0.0, 0.0047, X_AXIS, q0),
     Joint(0.0, 0.0, 0.0, 0.002, 0.0, 0.0195, Y_AXIS, q1),
     Joint(0.0, 0.0, 0.0, 0.0, 0.0, 0.0335, Y_AXIS, q2),
     Fixed(0.0, 0.0, 0.0, 0.0, 0.0, 0.0267),
     Joint(0.0, 0.0, 0.0, 0.0, 0.0, 0.0, Y_AXIS, q3),
     Fixed(0.0, 0.0, 0.0, -0.002, 0.0, 0.010)]
  }

  lemma FingersValid(q0: real, q1: real, q2: real, q3: real)
    ensures ValidLinks(ThumbLinks(q0, q1, q2, q3))
    ensures forall roll, pitch, yaw, x, y, z :: ValidLinks(FingerLinks(roll, pitch, yaw, x, y, z, q0, q1, q2, q3))
  {
    hide Dot;
    CoordinateAxes();
  }

  /** Where a link takes a point. */
  function Move(cos: real -> real, sin: real -> real, l: Link, v: Vec): Vec {
    match l
    case Fixed(roll, pitch, yaw, x, y, z) => Moved(cos, sin, roll, pitch, yaw, Vec(x, y, z), v)
    case Joint(roll, pitch, yaw, x, y, z, axis, q) =>
      Moved(cos, sin, roll, pitch, yaw, Vec(x, y, z), Bent(cos, sin, axis, q, v))
  }

  /** Where the links take a point, the last one first. */
  function MoveAll(cos: real -> real, sin: real -> real, links: seq<Link>, v: Vec): Vec
    decreases |links|
  {
    if links == [] then v else Move(cos, sin, links[0], MoveAll(cos, sin, links[1..], v))
  }

  lemma LinkMoves(cos: real -> real, sin: real -> real, l: Link, v: Vec)
    ensures Apply(TransformOf(cos, sin, l), v) == Move(cos, sin, l, v)
  {
    hide Apply, MakeRpyXyz, FixedThenRevolute, Moved, Bent;
    match l
    case Fixed(roll, pitch, yaw, x, y, z) => FixedMoves(cos, sin, roll, pitch, yaw, x, y, z, v);
    case Joint(roll, pitch, yaw, x, y, z, axis, q) =>
      RevoluteMoves(cos, sin, roll, pitch, yaw, x, y, z, axis, q, v);
  }

  lemma {:induction false} MoveAppend(cos: real -> real, sin: real -> real, links: seq<Link>, l: Link, v: Vec)
    ensures MoveAll(cos, sin, links + [l], v) == MoveAll(cos, sin, links, Move(cos, sin, l, v))
    decreases |links|
  {
    hide Move;
    if links == [] {
      assert [] + [l] == [l] && [l][1..] == [];
    } else {
      assert (links + [l])[1..] == links[1..] + [l];
      MoveAppend(cos, sin, links[1..], l, v);
    }
  }

  /** Main result.  A chain takes every point where its links take it one after the other:
      each joint turns about its own axis, right-handed, by its own angle. */
  lemma {:induction false} ChainMoves(cos: real -> real, sin: real -> real, links: seq<Link>, v: Vec)
    ensures Apply(Chain(cos, sin, links), v) == MoveAll(cos, sin, links, v)
    decreases |links|
  {
    if links == [] {
      IdentityKeeps(v);
    } else {
      hide Apply, Compose, TransformOf, Move;
      var n := |links| - 1;
      var last := links[n];
      ComposeApplies(Chain(cos, sin, links[..n]), TransformOf(cos, sin, last), v);
      LinkMoves(cos, sin, last, v);
      ChainMoves(cos, sin, links[..n], Move(cos, sin, last, v));
      MoveAppend(cos, sin, links[..n], last, v);
      assert links[..n] + [last] == links;
    }
  }

  lemma IdentityKeeps(v: Vec)
    ensures Apply(IDENTITY, v) == v
  {
  }

  // ----- the fingers -----

  /** The thumb: where a point fixed to its tip goes, joint by joint. */
  function ThumbAt(cos: real -> real, sin: real -> real, q0: real, q1: real, q2: real, q3: real, v: Vec): Vec {
    var v3 := Bent(cos, sin, Y_AXIS, q3, Moved(cos, sin, 0.0, 0.0, 0.0, Vec(-0.002, 0.0, 0.010), v));
    var v2 := Bent(cos, sin, Y_AXIS, q2, Moved(cos, sin, 0.0, 0.0, 0.0, Vec(0.0, 0.0, 0.0335), v3));
    var v1 := Bent(cos, sin, Z_AXIS, q1, Moved(cos, sin, 0.0, 0.0, 0.0, Vec(0.002, 0.0, 0.0102), v2));
    var v0 := Bent(cos, sin, Y_AXIS, q0, Moved(cos, sin, 0.0, 0.0, 0.0, Vec(-0.002, 0.0, 0.036), v1));
    var palm := Moved(cos, sin, -1.5708, 0.0, 0.0, Vec(0.0197, 0.002, 0.0), v0);
    var base := Moved(cos, sin, -0.0873, 0.0, 0.0, Vec(-0.02325, 0.01224, -0.02988), palm);
    Moved(cos, sin, 0.0, 0.0, 0.0, Vec(0.0, 0.0, 0.071), base)
  }

  /** The other fingers, whose base is at (x, y, z). */
  function FingerAt(cos: real -> real, sin: real -> real, roll: real, pitch: real, yaw: real, x: real, y: real, z: real,
                    q0: real, q1: real, q2: real, q3: real, v: Vec): Vec {
    var v3 := Bent(cos, sin, Y_AXIS, q3, Moved(cos, sin, 0.0, 0.0, 0.0, Vec(-0.002, 0.0, 0.010), v));
    var middle := Moved(cos, sin, 0.0, 0.0, 0.0, Vec(0.0, 0.0, 0.0), v3);
    var v2 := Bent(cos, sin, Y_AXIS, q2, Moved(cos, sin, 0.0, 0.0, 0.0, Vec(0.0, 0.0, 0.0267), middle));
    var v1 := Bent(cos, sin, Y_AXIS, q1, Moved(cos, sin, 0.0, 0.0, 0.0, Vec(0.0, 0.0, 0.0335), v2));
    var v0 := Bent(cos, sin, X_AXIS, q0, Moved(cos, sin, 0.0, 0.0, 0.0, Vec(0.002, 0.0, 0.0195), v1));
    var knuckle := Moved(cos, sin, 0.0, 0.0, 0.0, Vec(0.02325, 0.0, 0.0047), v0);
    Moved(cos, sin, 0.0, 0.0, 0.0, Vec(0.0, 0.0, 0.071), Moved(cos, sin, roll, pitch, yaw, Vec(x, y, z), knuckle))
  }

  lemma SevenMoves(cos: real -> real, sin: real -> real, links: seq<Link>, v: Vec)
    requires |links| == 7
    ensures var v4 := Move(cos, sin, links[4], Move(cos, sin, links[5], Move(cos, sin, links[6], v)));
            var v2 := Move(cos, sin, links[2], Move(cos, sin, links[3], v4));
            MoveAll(cos, sin, links, v) == Move(cos, sin, links[0], Move(cos, sin, links[1], v2))
  {
    hide MoveAll, Move;
    MoveFirst(cos, sin, links, 0, v);
    MoveFirst(cos, sin, links, 1, v);
    MoveFirst(cos, sin, links, 2, v);
    MoveFirst(cos, sin, links, 3, v);
    MoveFirst(cos, sin, links, 4, v);
    MoveFirst(cos, sin, links, 5, v);
    MoveFirst(cos, sin, links, 6, v);
  }

  /** The links from number k on. */
  lemma MoveFirst(cos: real -> real, sin: real -> real, links: seq<Link>, k: nat, v: Vec)
    requires k < |links|
    ensures MoveAll(cos, sin, links[k..], v) == Move(cos, sin, links[k], MoveAll(cos, sin, links[k + 1..], v))
    ensures links[0..] == links && MoveAll(cos, sin, links[|links|..], v) == v
  {
    hide Move;
    assert links[k..][1..] == links[k + 1..];
  }

  /** Main result.  The thumb takes a point of its tip there. */
  lemma ThumbMoves(cos: real -> real, sin: real -> real, q0: real, q1: real, q2: real, q3: real, v: Vec)
    ensures Apply(Chain(cos, sin, ThumbLinks(q0, q1, q2, q3)), v) == ThumbAt(cos, sin, q0, q1, q2, q3, v)
  {
    hide Apply, Chain, MoveAll, Moved, Bent;
    ChainMoves(cos, sin, ThumbLinks(q0, q1, q2, q3), v);
    SevenMoves(cos, sin, ThumbLinks(q0, q1, q2, q3), v);
  }

  /** And the other fingers. */
  lemma FingerMoves(cos: real -> real, sin: real -> real, roll: real, pitch: real, yaw: real,
                    x: real, y: real, z: real, q0: real, q1: real, q2: real, q3: real, v: Vec)
    ensures Apply(Chain(cos, sin, FingerLinks(roll, pitch, yaw, x, y, z, q0, q1, q2, q3)), v)
      == FingerAt(cos, sin, roll, pitch, yaw, x, y, z, q0, q1, q2, q3, v)
  {
    hide Apply, Chain, MoveAll, Moved, Bent;
    var links := FingerLinks(roll, pitch, yaw, x, y, z, q0, q1, q2, q3);
    ChainMoves(cos, sin, links, v);
    MoveFirst(cos, sin, links, 0, v);
    SevenMoves(cos, sin, links[1..], v);
  }

  lemma ChainStart(cos: real -> real, sin: real -> real, links: seq<Link>)
    ensures Chain(cos, sin, links[..0]) == IDENTITY
  {
  }

  /** The chain up to link k + 1. */
  lemma ChainAt(cos: real -> real, sin: real -> real, links: seq<Link>, k: nat)
    requires k < |links|
    ensures Chain(cos, sin, links[..k + 1]) == Compose(Chain(cos, sin, links[..k]), TransformOf(cos, sin, links[k]))
    ensures k + 1 == |links| ==> links[..k + 1] == links
  {
    hide Compose, TransformOf;
    assert links[..k + 1][..k] == links[..k];
  }

  /** The tip of the chain is in the output arrays: position, and orientation as a unit
      quaternion. */
  ghost predicate Written(t: Transform, pos: array<real>, quat: array<real>)
    requires pos.Length == 3 && quat.Length == 4
    reads pos, quat
  {
    var q := Quat(quat[0], quat[1], quat[2], quat[3]);
    Vec(pos[0], pos[1], pos[2]) == t.p && NormSquare(q) == 1.0 && ToMatrix(q) == t.r
  }

  method WriteTip(t: Transform, pos: array<real>, quat: array<real>, sqrt: real -> real)
    requires Rigid(t) && IsSqrt(sqrt) && pos.Length == 3 && quat.Length == 4 && pos != quat
    modifies pos, quat
    ensures Written(t, pos, quat)
  {
    hide Proper, ToMatrix, NormSquare, IsSqrt;
    pos[0] := t.p.x;
    pos[1] := t.p.y;
    pos[2] := t.p.z;
    RotmatToQuat(t.r, quat, sqrt);
  }

  method SolveThumb(q: seq<real>, pos: array<real>, quat: array<real>, cos: real -> real, sin: real -> real,
                    sqrt: real -> real)
    requires |q| == 4 && IsTrig(cos, sin) && IsSqrt(sqrt) && pos.Length == 3 && quat.Length == 4 && pos != quat
    modifies pos, quat
    ensures Written(Chain(cos, sin, ThumbLinks(q[0], q[1], q[2], q[3])), pos, quat)
  {
    hide Compose, MakeRpyXyz, AxisRotation, FixedThenRevolute, Rigid, IsTrig, IsSqrt, Chain, Written, ValidLinks;
    ghost var links := ThumbLinks(q[0], q[1], q[2], q[3]);
    ChainStart(cos, sin, links);
    ChainAt(cos, sin, links, 0);
    ChainAt(cos, sin, links, 1);
    ChainAt(cos, sin, links, 2);
    ChainAt(cos, sin, links, 3);
    ChainAt(cos, sin, links, 4);
    ChainAt(cos, sin, links, 5);
    ChainAt(cos, sin, links, 6);
    var t := IDENTITY;
    t := Compose(t, MakeRpyXyz(cos, sin, 0.0, 0.0, 0.0, 0.0, 0.0, 0.071));
    t := Compose(t, MakeRpyXyz(cos, sin, -0.0873, 0.0, 0.0, -0.02325, 0.01224, -0.02988));
    t := Compose(t, FixedThenRevolute(cos, sin, -1.5708, 0.0, 0.0, 0.0197, 0.002, 0.0, Y_AXIS, q[0]));
    t := Compose(t, FixedThenRevolute(cos, sin, 0.0, 0.0, 0.0, -0.002, 0.0, 0.036, Z_AXIS, q[1]));
    t := Compose(t, FixedThenRevolute(cos, sin, 0.0, 0.0, 0.0, 0.002, 0.0, 0.0102, Y_AXIS, q[2]));
    t := Compose(t, FixedThenRevolute(cos, sin, 0.0, 0.0, 0.0, 0.0, 0.0, 0.0335, Y_AXIS, q[3]));
    t := Compose(t, MakeRpyXyz(cos, sin, 0.0, 0.0, 0.0, -0.002, 0.0, 0.010));
    FingersValid(q[0], q[1], q[2], q[3]);
    ChainRigid(cos, sin, links);
    WriteTip(t, pos, quat, sqrt);
  }

  method SolveFingerCommon(roll: real, pitch: real, yaw: real, x: real, y: real, z: real, q: seq<real>,
                           pos: array<real>, quat: array<real>, cos: real -> real, sin: real -> real,
                           sqrt: real -> real)
    requires |q| == 4 && IsTrig(cos, sin) && IsSqrt(sqrt) && pos.Length == 3 && quat.Length == 4 && pos != quat
    modifies pos, quat
    ensures Written(Chain(cos, sin, FingerLinks(roll, pitch, yaw, x, y, z, q[0], q[1], q[2], q[3])), pos, quat)
  {
    hide Compose, MakeRpyXyz, AxisRotation, FixedThenRevolute, Rigid, IsTrig, IsSqrt, Chain, Written, ValidLinks;
    ghost var links := FingerLinks(roll, pitch, yaw, x, y, z, q[0], q[1], q[2], q[3]);
    ChainStart(cos, sin, links);
    ChainAt(cos, sin, links, 0);
    ChainAt(cos, sin, links, 1);
    ChainAt(cos, sin, links, 2);
    ChainAt(cos, sin, links, 3);
    ChainAt(cos, sin, links, 4);
    ChainAt(cos, sin, links, 5);
    ChainAt(cos, sin, links, 6);
    ChainAt(cos, sin, links, 7);
    var t := IDENTITY;
    t := Compose(t, MakeRpyXyz(cos, sin, 0.0, 0.0, 0.0, 0.0, 0.0, 0.071));
    t := Compose(t, MakeRpyXyz(cos, sin, roll, pitch, yaw, x, y, z));
    t := Compose(t, FixedThenRevolute(cos, sin, 0.0, 0.0, 0.0, 0.02325, 0.0, 0.0047, X_AXIS, q[0]));
    t := Compose(t, FixedThenRevolute(cos, sin, 0.0, 0.0, 0.0, 0.002, 0.0, 0.0195, Y_AXIS, q[1]));
    t := Compose(t, FixedThenRevolute(cos, sin, 0.0, 0.0, 0.0, 0.0, 0.0, 0.0335, Y_AXIS, q[2]));
    t := Compose(t, MakeRpyXyz(cos, sin, 0.0, 0.0, 0.0, 0.0, 0.0, 0.0267));
    t := Compose(t, FixedThenRevolute(cos, sin, 0.0, 0.0, 0.0, 0.0, 0.0, 0.0, Y_AXIS, q[3]));
    t := Compose(t, MakeRpyXyz(cos, sin, 0.0, 0.0, 0.0, -0.002, 0.0, 0.010));
    FingersValid(q[0], q[1], q[2], q[3]);
    ChainRigid(cos, sin, links);
    WriteTip(t, pos, quat, sqrt);
  }

  // ----- the hand -----

  const PI: real := 3.14159265358979323846

  /** An encoder count as an angle: 8192 counts are half a turn. */
  function ToRadian(enc: int): real {
    enc as real * (PI / 8192.0)
  }

  /** The chain of finger k of the hand at these encoder counts: the thumb, and three
      fingers whose bases are spread by five degrees each. */
  function HandLinks(k: nat, joint: seq<int>): seq<Link>
    requires k < 4 && |joint| == 16
  {
    var q0, q1, q2 := ToRadian(joint[4 * k]), ToRadian(joint[4 * k + 1]), ToRadian(joint[4 * k + 2]);
    var q3 := ToRadian(joint[4 * k + 3]);
    match k
    case 0 => ThumbLinks(q0, q1, q2, q3)
    case 1 => FingerLinks(-0.0873, 0.0, 0.0, -0.02325, 0.02935, -0.0004, q0, q1, q2, q3)
    case 2 => FingerLinks(0.0, 0.0, 0.0, -0.02325, 0.0, 0.0, q0, q1, q2, q3)
    case _ => FingerLinks(0.0873, 0.0, 0.0, -0.02325, -0.02935, -0.0004, q0, q1, q2, q3)
  }

  /** All arrays of the result are there, and none is used twice. */
  ghost predicate TipArrays(pos: seq<array<real>>, quat: seq<array<real>>) {
    && |pos| == |quat| == 4
    && (forall k :: 0 <= k < 4 ==> pos[k].Length == 3 && quat[k].Length == 4)
    && (forall j, k :: 0 <= j < 4 && 0 <= k < 4 ==> pos[j] != quat[k])
    && forall j, k :: 0 <= j < k < 4 ==> pos[j] != pos[k] && quat[j] != quat[k]
  }

  method HandFk(joint: seq<int>, pos: seq<array<real>>, quat: seq<array<real>>, cos: real -> real, sin: real -> real,
                sqrt: real -> real)
    requires |joint| == 16 && TipArrays(pos, quat) && IsTrig(cos, sin) && IsSqrt(sqrt)
    modifies pos, quat
    ensures forall k :: 0 <= k < 4 ==> Written(Chain(cos, sin, HandLinks(k, joint)), pos[k], quat[k])
  {
    hide Written, Chain, ThumbLinks, FingerLinks, IsTrig, IsSqrt;
    var q := seq(16, i requires 0 <= i < 16 => ToRadian(joint[i]));
    SolveThumb(q[0..4], pos[0], quat[0], cos, sin, sqrt);
    SolveFingerCommon(-0.0873, 0.0, 0.0, -0.02325, 0.02935, -0.0004, q[4..8], pos[1], quat[1], cos, sin, sqrt);
    SolveFingerCommon(0.0, 0.0, 0.0, -0.02325, 0.0, 0.0, q[8..12], pos[2], quat[2], cos, sin, sqrt);
    SolveFingerCommon(0.0873, 0.0, 0.0, -0.02325, -0.02935, -0.0004, q[12..16], pos[3], quat[3], cos, sin, sqrt);
  }
}
