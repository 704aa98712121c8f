// Axis-aligned faces of a 3D cube (`ui/src/face.rs`): their normals, the
// axes of their planes, and the flattening of a cuboid onto one of its faces.
// Coordinates are integers here (the source's cuboids have real coordinates;
// only comparisons and copies are made of them).
module Faces {
  import opened Wrappers

  /** The axes of the core's vectors; axes past Z exist there but have no
      faces. */
  datatype Axis = X | Y | Z | Beyond(index: nat)

  datatype Sign = Minus | NoSign | Plus

  datatype Face = PosX | PosY | PosZ | NegX | NegY | NegZ

  /** All faces, in the source's order. */
  const FACES: seq<Face> := [PosX, PosY, PosZ, NegX, NegY, NegZ]

  /** `FACES` lists every face exactly once. */
  lemma {:induction false} FacesComplete(f: Face)
    ensures |FACES| == 6
    ensures f in FACES
    ensures forall i, j :: 0 <= i < j < |FACES| ==> FACES[i] != FACES[j]
  {
  }

  function Display(f: Face): string
  {
    match f
    case PosX => "+X"
    case PosY => "+Y"
    case PosZ => "+Z"
    case NegX => "-X"
    case NegY => "-Y"
    case NegZ => "-Z"
  }

  /** The rendering is a sign followed by the normal axis, so it tells the
      faces apart. */
  lemma {:induction false} DisplaySpec(f: Face, g: Face)
    ensures |Display(f)| == 2
    ensures Display(f)[0] == (if SignOf(f) == Plus then '+' else '-')
    ensures Display(f)[1] == (match NormalAxis(f) case X => 'X' case Y => 'Y' case _ => 'Z')
    ensures Display(f) == Display(g) <==> f == g
  {
    if Display(f) == Display(g) {
      assert Display(f)[0] == Display(g)[0] && Display(f)[1] == Display(g)[1];
    }
  }

  /** The face with a positive normal along an axis; `None` where the source
      panics (axes past Z). */
  function Positive(axis: Axis): (r: Option<Face>)
    ensures r.Some? <==> !axis.Beyond?
    ensures r.Some? ==> NormalAxis(r.value) == axis && SignOf(r.value) == Plus
  {
    match axis
    case X => Some(PosX)
    case Y => Some(PosY)
    case Z => Some(PosZ)
    case Beyond(_) => None
  }

  /** The face with a negative normal along an axis. */
  function Negative(axis: Axis): (r: Option<Face>)
    ensures r.Some? <==> !axis.Beyond?
    ensures r.Some? ==> NormalAxis(r.value) == axis && SignOf(r.value) == Minus
  {
    match axis
    case X => Some(NegX)
    case Y => Some(NegY)
    case Z => Some(NegZ)
    case Beyond(_) => None
  }

  /** The sign of the normal's nonzero component. */
  function SignOf(f: Face): Sign
  {
    match f
    case PosX => Plus
    case PosY => Plus
    case PosZ => Plus
    case NegX => Minus
    case NegY => Minus
    case NegZ => Minus
  }

  function NormalAxis(f: Face): Axis
  {
    match f
    case PosX => X
    case NegX => X
    case PosY => Y
    case NegY => Y
    case PosZ => Z
    case NegZ => Z
  }

  /** A face is fixed by its normal axis and its sign. */
  lemma {:induction false} FaceFromAxisAndSign(f: Face)
    ensures SignOf(f) != NoSign
    ensures SignOf(f) == Plus ==> Positive(NormalAxis(f)) == Some(f)
    ensures SignOf(f) == Minus ==> Negative(NormalAxis(f)) == Some(f)
  {
  }

  /** The two axes of the face's plane, in order. */
  function PlaneAxes(f: Face): (Axis, Axis)
  {
    match f
    case PosX => (Y, Z)
    case PosY => (Z, X)
    case PosZ => (X, Y)
    case NegX => (Z, Y)
    case NegY => (X, Z)
    case NegZ => (Y, X)
  }

  /** The plane axes are two distinct axes other than the normal axis, so
      with it they are X, Y and Z; the two faces of one axis list them in
      opposite orders. */
  lemma {:induction false} PlaneAxesSpec(f: Face, a: Axis)
    ensures PlaneAxes(f).0 != PlaneAxes(f).1
    ensures PlaneAxes(f).0 != NormalAxis(f) && PlaneAxes(f).1 != NormalAxis(f)
    ensures !a.Beyond? <==> a in {NormalAxis(f), PlaneAxes(f).0, PlaneAxes(f).1}
    ensures !a.Beyond? ==> PlaneAxes(Negative(a).value) == (PlaneAxes(Positive(a).value).1, PlaneAxes(Positive(a).value).0)
  {
  }

  type Vec3 = v: seq<int> | |v| == 3 witness [0, 0, 0]

  function AxisIndex(a: Axis): nat
    requires !a.Beyond?
  {
    match a
    case X => 0
    case Y => 1
    case Z => 2
  }

  /** The normal vector: one component is nonzero. */
  function Normal(f: Face): Vec3
  {
    match f
    case PosX => [1, 0, 0]
    case PosY => [0, 1, 0]
    case PosZ => [0, 0, 1]
    case NegX => [-1, 0, 0]
    case NegY => [0, -1, 0]
    case NegZ => [0, 0, -1]
  }

  /** The unit vector along an axis. */
  function Unit(a: Axis): Vec3
    requires !a.Beyond?
  {
    match a
    case X => [1, 0, 0]
    case Y => [0, 1, 0]
    case Z => [0, 0, 1]
  }

  function Cross(u: Vec3, v: Vec3): Vec3
  {
    [u[1] * v[2] - u[2] * v[1], u[2] * v[0] - u[0] * v[2], u[0] * v[1] - u[1] * v[0]]
  }

  /** The normal's only nonzero component is at the normal axis and is +1
      for a positive face, -1 for a negative one; and the plane axes, in
      order, make a right-handed frame with the normal. */
  lemma {:induction false} NormalSpec(f: Face, i: nat)
    requires i < 3
    ensures Normal(f)[i] == (if i == AxisIndex(NormalAxis(f)) then (if SignOf(f) == Plus then 1 else -1) else 0)
    ensures Cross(Unit(PlaneAxes(f).0), Unit(PlaneAxes(f).1)) == Normal(f)
  {
  }

  /** A cuboid given by its least and greatest corners. */
  datatype Cuboid = Cuboid(min: Vec3, max: Vec3)

  predicate ValidCuboid(c: Cuboid)
  {
    forall i :: 0 <= i < 3 ==> c.min[i] <= c.max[i]
  }

  function Min(a: int, b: int): int
  {
    if a <= b then a else b
  }

  function Max(a: int, b: int): int
  {
    if a <= b then b else a
  }

  /** The cuboid holds the point on every axis. */
  predicate InCuboid(p: Vec3, c: Cuboid)
  {
    forall i :: 0 <= i < 3 ==> c.min[i] <= p[i] <= c.max[i]
  }

  /** `FRect3D::span`: the least cuboid holding both points. */
  function Span(a: Vec3, b: Vec3): (r: Cuboid)
    ensures ValidCuboid(r) && InCuboid(a, r) && InCuboid(b, r)
    ensures forall s: Cuboid :: InCuboid(a, s) && InCuboid(b, s) ==>
      forall i :: 0 <= i < 3 ==> s.min[i] <= r.min[i] && r.max[i] <= s.max[i]
  {
    Cuboid(seq(3, i requires 0 <= i < 3 => Min(a[i], b[i])), seq(3, i requires 0 <= i < 3 => Max(a[i], b[i])))
  }

  /** The cuboid flattened onto this face of itself: on the normal axis both
      corners move to the cuboid's max (positive face) or min (negative). */
  function Of(f: Face, c: Cuboid): Cuboid
  {
    var axis := AxisIndex(NormalAxis(f));
    match SignOf(f)
    case Minus => Span(c.min, c.max[axis := c.min[axis]])
    case Plus => Span(c.min[axis := c.max[axis]], c.max)
    case NoSign => c
  }

  /** The flattened cuboid keeps the extent on both plane axes and is flat
      on the normal axis, at the max for positive faces and the min for
      negative ones; flattening twice is flattening once. */
  lemma {:induction false} OfSpec(f: Face, c: Cuboid, i: nat)
    requires ValidCuboid(c) && i < 3
    ensures var r := Of(f, c);
      && (i != AxisIndex(NormalAxis(f)) ==> r.min[i] == c.min[i] && r.max[i] == c.max[i])
      && (i == AxisIndex(NormalAxis(f)) ==> r.min[i] == r.max[i] == (if SignOf(f) == Plus then c.max[i] else c.min[i]))
    ensures ValidCuboid(Of(f, c)) && Of(f, Of(f, c)) == Of(f, c)
  {
    var axis := AxisIndex(NormalAxis(f));
    var r := Of(f, c);
    var rr := Of(f, r);
    forall j | 0 <= j < 3
      ensures rr.min[j] == r.min[j] && rr.max[j] == r.max[j]
    {
    }
    assert rr.min == r.min && rr.max == r.max;
  }
}
