/** Pixel-to-point deprojection of `RsDeviceHandCatch.Rs2_Deproject_Pixel_to_Point`.

    A pixel (in image coordinates) and a depth (in metres) are mapped to a point
    in the camera's coordinate frame through the pinhole model given by the
    stream's intrinsics, with an optional Brown-Conrady correction of the
    normalised coordinates. All arithmetic is over `real`; single-precision
    rounding is not modelled. */
module Deprojection {

  /** The distortion models a RealSense stream can report. */
  datatype Distortion =
    | None
    | ModifiedBrownConrady
    | InverseBrownConrady
    | Ftheta
    | BrownConrady
    | KannalaBrandt4

  /** The five distortion coefficients k1, k2, p1, p2, k3 (in that order). */
  type Coeffs = c: seq<real> | |c| == 5 witness [0.0, 0.0, 0.0, 0.0, 0.0]

  /** Calibration of one video stream, read-only once streaming has started. */
  datatype Intrinsics = Intrinsics(
    width: int,
    height: int,
    ppx: real,
    ppy: real,
    fx: real,
    fy: real,
    model: Distortion,
    coeffs: Coeffs)

  datatype Pixel = Pixel(x: real, y: real)

  datatype Point3 = Point3(x: real, y: real, z: real)

  function Scale(p: Point3, k: real): (q: Point3)
  {
    Point3(k * p.x, k * p.y, k * p.z)
  }

  /** The two assertions at the top of the deprojection, read as
      preconditions: a forward-distorted image and an f-theta image cannot be
      deprojected. */
  predicate Supported(intr: Intrinsics)
  {
    intr.model != ModifiedBrownConrady && intr.model != Ftheta
  }

  /** The focal lengths are divisors; over the reals they must be non-zero. */
  predicate Invertible(intr: Intrinsics)
  {
    intr.fx != 0.0 && intr.fy != 0.0
  }

  /** True when every distortion coefficient is zero. */
  predicate Undistorted(intr: Intrinsics)
  {
    forall k :: 0 <= k < 5 ==> intr.coeffs[k] == 0.0
  }

  /** Coordinates of `p` on the normalised image plane (unit focal length,
      origin at the principal point). */
  function Normalize(intr: Intrinsics, p: Pixel): (n: Pixel)
    requires Invertible(intr)
    ensures n.x * intr.fx + intr.ppx == p.x
    ensures n.y * intr.fy + intr.ppy == p.y
  {
    Pixel((p.x - intr.ppx) / intr.fx, (p.y - intr.ppy) / intr.fy)
  }

  /** The radial-tangential correction: radial factor
      1 + k1 r^2 + k2 r^4 + k3 r^6 and the two tangential terms. */
  function Correct(c: Coeffs, n: Pixel): (u: Pixel)
    ensures (forall k :: 0 <= k < 5 ==> c[k] == 0.0) ==> u == n
    ensures n == Pixel(0.0, 0.0) ==> u == n
  {
    var r2 := n.x * n.x + n.y * n.y;
    var f := 1.0 + c[0] * r2 + c[1] * r2 * r2 + c[4] * r2 * r2 * r2;
    var ux := n.x * f + 2.0 * c[2] * n.x * n.y + c[3] * (r2 + 2.0 * n.x * n.x);
    var uy := n.y * f + 2.0 * c[3] * n.x * n.y + c[2] * (r2 + 2.0 * n.y * n.y);
    Pixel(ux, uy)
  }

  /** The point at `depth` along the ray through normalised coordinates `u`. */
  function AtDepth(u: Pixel, depth: real): Point3
  {
    Point3(depth * u.x, depth * u.y, depth)
  }

  /** The point along a ray is linear in the depth. */
  lemma AtDepthLinear(u: Pixel, depth: real, k: real)
    ensures AtDepth(u, k * depth) == Scale(AtDepth(u, depth), k)
  {
  }

  /** Along the ray through a pixel's normalised coordinates, the offsets
      from the principal point scale with the depth: the pinhole model. */
  lemma AtDepthPinhole(intr: Intrinsics, p: Pixel, depth: real)
    requires Invertible(intr)
    ensures AtDepth(Normalize(intr, p), depth).x * intr.fx == depth * (p.x - intr.ppx)
    ensures AtDepth(Normalize(intr, p), depth).y * intr.fy == depth * (p.y - intr.ppy)
  {
  }

  /** The deprojection as written: the correction is guarded by the very model
      that `Supported` excludes, so it never runs while the assertions hold. */
  function DeprojectAsWritten(intr: Intrinsics, p: Pixel, depth: real): (r: Point3)
    requires Supported(intr)
    requires Invertible(intr)
    ensures r.z == depth
    ensures r.x * intr.fx == depth * (p.x - intr.ppx)
    ensures r.y * intr.fy == depth * (p.y - intr.ppy)
    ensures p == Pixel(intr.ppx, intr.ppy) ==> r == Point3(0.0, 0.0, depth)
  {
    var n := Normalize(intr, p);
    AtDepthPinhole(intr, p, depth);
    var u := if intr.model == ModifiedBrownConrady then Correct(intr.coeffs, n) else n;
    AtDepth(u, depth)
  }

  /** The as-written deprojection never reads the distortion coefficients:
      two calibrations that differ only in their coefficients deproject every
      pixel to the same point. */
  lemma AsWrittenIgnoresCoefficients(intr: Intrinsics, c: Coeffs, p: Pixel, depth: real)
    requires Supported(intr)
    requires Invertible(intr)
    ensures DeprojectAsWritten(intr.(coeffs := c), p, depth) == DeprojectAsWritten(intr, p, depth)
  {
  }

  /** Whether the corrected deprojection applies the distortion correction. */
  predicate Distorts(intr: Intrinsics)
  {
    intr.model == InverseBrownConrady
  }

  /** The deprojection with the correction guarded by the inverse
      Brown-Conrady model, the one model whose coefficients undo the lens
      distortion in the deprojection direction. */
  function Deproject(intr: Intrinsics, p: Pixel, depth: real): (r: Point3)
    requires Supported(intr)
    requires Invertible(intr)
    ensures r.z == depth
    ensures !Distorts(intr) || Undistorted(intr) ==>
      r.x * intr.fx == depth * (p.x - intr.ppx) && r.y * intr.fy == depth * (p.y - intr.ppy)
    ensures p == Pixel(intr.ppx, intr.ppy) ==> r == Point3(0.0, 0.0, depth)
  {
    var n := Normalize(intr, p);
    AtDepthPinhole(intr, p, depth);
    var u := if Distorts(intr) then Correct(intr.coeffs, n) else n;
    AtDepth(u, depth)
  }

  /** Where the correction is off or has nothing to correct, the corrected
      deprojection and the one as written give the same point. */
  lemma CorrectedAgreesWithAsWritten(intr: Intrinsics, p: Pixel, depth: real)
    requires Supported(intr)
    requires Invertible(intr)
    requires !Distorts(intr) || Undistorted(intr)
    ensures Deproject(intr, p, depth) == DeprojectAsWritten(intr, p, depth)
  {
  }

  /** The correction is reachable: with an inverse Brown-Conrady calibration
      whose first radial coefficient is 1, the corrected deprojection of pixel
      (1, 0) at depth 1 lands at x = 2, where the as-written one stays at x = 1. */
  lemma CorrectionTakesEffect()
    ensures var intr := Intrinsics(640, 480, 0.0, 0.0, 1.0, 1.0, InverseBrownConrady, [1.0, 0.0, 0.0, 0.0, 0.0]);
            && Deproject(intr, Pixel(1.0, 0.0), 1.0) == Point3(2.0, 0.0, 1.0)
            && DeprojectAsWritten(intr, Pixel(1.0, 0.0), 1.0) == Point3(1.0, 0.0, 1.0)
  {
  }

  /** For a fixed pixel and calibration the deprojected point is linear in the
      depth: scaling the depth by k scales every coordinate by k. */
  lemma DepthLinear(intr: Intrinsics, p: Pixel, depth: real, k: real)
    requires Supported(intr)
    requires Invertible(intr)
    ensures Deproject(intr, p, k * depth) == Scale(Deproject(intr, p, depth), k)
    ensures DeprojectAsWritten(intr, p, k * depth) == Scale(DeprojectAsWritten(intr, p, depth), k)
  {
    var n := Normalize(intr, p);
    var u := if Distorts(intr) then Correct(intr.coeffs, n) else n;
    assert Deproject(intr, p, depth) == AtDepth(u, depth);
    assert Deproject(intr, p, k * depth) == AtDepth(u, k * depth);
    AtDepthLinear(u, depth, k);
    assert DeprojectAsWritten(intr, p, depth) == AtDepth(n, depth);
    assert DeprojectAsWritten(intr, p, k * depth) == AtDepth(n, k * depth);
    AtDepthLinear(n, depth, k);
  }

  /** Pinhole projection of a point in front of the camera onto the image. */
  function Project(intr: Intrinsics, pt: Point3): (p: Pixel)
    requires pt.z != 0.0
    ensures (p.x - intr.ppx) * pt.z == pt.x * intr.fx
    ensures (p.y - intr.ppy) * pt.z == pt.y * intr.fy
  {
    Pixel(pt.x / pt.z * intr.fx + intr.ppx, pt.y / pt.z * intr.fy + intr.ppy)
  }

  /** Without distortion, projecting a deprojected pixel gives the pixel back. */
  lemma ProjectDeproject(intr: Intrinsics, p: Pixel, depth: real)
    requires Supported(intr)
    requires Invertible(intr)
    requires !Distorts(intr) || Undistorted(intr)
    requires depth != 0.0
    ensures Project(intr, Deproject(intr, p, depth)) == p
  {
  }

  /** Without distortion, deprojecting the projection of a point at its own
      depth gives the point back. */
  lemma DeprojectProject(intr: Intrinsics, pt: Point3)
    requires Supported(intr)
    requires Invertible(intr)
    requires !Distorts(intr) || Undistorted(intr)
    requires pt.z != 0.0
    ensures Deproject(intr, Project(intr, pt), pt.z) == pt
  {
  }
}
