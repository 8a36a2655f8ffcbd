/**
 * Rectangles as annotated, and `adjust_roi`, which turns a rectangle whose
 * signed width and height encode the anchor corner into a top-left-anchored
 * rectangle of non-negative size.
 */
module Roi {
  import opened Wrappers

  /** A rectangle: anchor `(x, y)` and signed extents. */
  datatype Rect = Rect(x: int, y: int, width: int, height: int)

  /**
   * `adjust_roi` takes none of its four branches when an extent is zero and
   * then fails on the unbound `new_x` (Python's UnboundLocalError).
   */
  datatype RoiError = UnboundCorner(width: int, height: int)

  function Abs(v: int): nat { if v < 0 then -v else v }
  function Min(a: int, b: int): int { if a <= b then a else b }
  function Max(a: int, b: int): int { if a <= b then b else a }

  /** Top-left anchored with a positive size. */
  predicate IsNormal(r: Rect) {
    r.width > 0 && r.height > 0
  }

  /** Neither extent is zero, so one of the sign branches applies. */
  predicate HasCorner(r: Rect) {
    r.width != 0 && r.height != 0
  }

  /** The four corners the signed rectangle spans. */
  function Corners(r: Rect): set<(int, int)> {
    {(r.x, r.y), (r.x + r.width, r.y), (r.x, r.y + r.height), (r.x + r.width, r.y + r.height)}
  }

  /** `adjust_roi`: the sign table on (width, height). */
  function AdjustRoi(roi: Rect): (res: Result<Rect, RoiError>)
    ensures res.Success? <==> HasCorner(roi)
    ensures res.Failure? ==> res.error == UnboundCorner(roi.width, roi.height)
    ensures res.Success? ==>
      && res.value.x == Min(roi.x, roi.x + roi.width)
      && res.value.y == Min(roi.y, roi.y + roi.height)
      && res.value.width == Abs(roi.width)
      && res.value.height == Abs(roi.height)
  {
    var x, y, w, h := roi.x, roi.y, roi.width, roi.height;
    if w > 0 && h > 0 then Success(Rect(x, y, Abs(w), Abs(h)))
    else if w < 0 && h > 0 then Success(Rect(x + w, y, Abs(w), Abs(h)))
    else if w > 0 && h < 0 then Success(Rect(x, y + h, Abs(w), Abs(h)))
    else if w < 0 && h < 0 then Success(Rect(x + w, y + h, Abs(w), Abs(h)))
    else Failure(UnboundCorner(w, h))
  }

  /** The result is top-left anchored and spans the same interval on each axis. */
  lemma AdjustRoiKeepsExtent(roi: Rect)
    requires HasCorner(roi)
    ensures IsNormal(AdjustRoi(roi).value)
    ensures AdjustRoi(roi).value.x + AdjustRoi(roi).value.width == Max(roi.x, roi.x + roi.width)
    ensures AdjustRoi(roi).value.y + AdjustRoi(roi).value.height == Max(roi.y, roi.y + roi.height)
    ensures AdjustRoi(roi).value.width * AdjustRoi(roi).value.height == Abs(roi.width * roi.height)
  {
    AbsMul(roi.width, roi.height);
  }

  /** The size of a product is the product of the sizes. */
  lemma AbsMul(a: int, b: int)
    ensures Abs(a * b) == Abs(a) * Abs(b)
  {
    if a < 0 && b >= 0 {
      assert a * b == -((-a) * b);
    } else if a >= 0 && b < 0 {
      assert a * b == -(a * (-b));
    } else if a < 0 && b < 0 {
      assert a * b == (-a) * (-b);
    }
  }

  /** The result has the same four corners as the annotated rectangle. */
  lemma AdjustRoiKeepsCorners(roi: Rect)
    requires HasCorner(roi)
    ensures Corners(AdjustRoi(roi).value) == Corners(roi)
  {
    var a := AdjustRoi(roi).value;
    var x, y, w, h := roi.x, roi.y, roi.width, roi.height;
    if w < 0 && h > 0 {
      assert a == Rect(x + w, y, -w, h);
    } else if w > 0 && h < 0 {
      assert a == Rect(x, y + h, w, -h);
    } else if w < 0 && h < 0 {
      assert a == Rect(x + w, y + h, -w, -h);
    }
  }

  /** A rectangle that is already top-left anchored is left as it is. */
  lemma AdjustRoiIdentityOnNormal(roi: Rect)
    requires IsNormal(roi)
    ensures AdjustRoi(roi) == Success(roi)
  {
  }

  /** Adjusting twice is adjusting once. */
  lemma AdjustRoiIdempotent(roi: Rect)
    requires HasCorner(roi)
    ensures AdjustRoi(AdjustRoi(roi).value) == AdjustRoi(roi)
  {
    AdjustRoiKeepsExtent(roi);
    AdjustRoiIdentityOnNormal(AdjustRoi(roi).value);
  }

  /**
   * The worked cases of the sign table, including the one where the code
   * moves y, not x, for a positive width and negative height.
   */
  lemma AdjustRoiExamples()
    ensures AdjustRoi(Rect(100, 100, -50, 30)) == Success(Rect(50, 100, 50, 30))
    ensures AdjustRoi(Rect(100, 100, -50, -40)) == Success(Rect(50, 60, 50, 40))
    ensures AdjustRoi(Rect(100, 100, 50, -40)) == Success(Rect(100, 60, 50, 40))
    ensures AdjustRoi(Rect(100, 100, 0, 30)) == Failure(UnboundCorner(0, 30))
  {
  }
}
