/**
 * `crop_region` up to the slide library: the read request it passes to the
 * whole-slide reader. Opening the slide, the pixels and the RGB conversion
 * belong to the external library and are not part of this model.
 */
module Crop {
  import opened Wrappers
  import opened Roi

  /** The arguments of `read_region((x, y), level, (width, height))`. */
  datatype ReadRequest = ReadRequest(location: (int, int), level: int, size: (nat, nat))

  /** `crop_region(svs_path, roi, level)`: adjust the ROI, then request it. */
  function CropRegion(roi: Rect, level: int): (res: Result<ReadRequest, RoiError>)
    ensures res.Success? <==> HasCorner(roi)
    ensures res.Failure? ==> res == Failure(UnboundCorner(roi.width, roi.height))
    ensures res.Success? ==>
      && res.value.level == level
      && res.value.location == (Min(roi.x, roi.x + roi.width), Min(roi.y, roi.y + roi.height))
      && res.value.size == (Abs(roi.width), Abs(roi.height))
  {
    match AdjustRoi(roi)
    case Failure(e) => Failure(e)
    case Success(a) => Success(ReadRequest((a.x, a.y), level, (a.width, a.height)))
  }

  /** The request reads exactly the span the annotated rectangle covers on each axis. */
  lemma CropRegionCoversAnnotation(roi: Rect, level: int)
    requires HasCorner(roi)
    ensures CropRegion(roi, level).value.location.0 + CropRegion(roi, level).value.size.0 == Max(roi.x, roi.x + roi.width)
    ensures CropRegion(roi, level).value.location.1 + CropRegion(roi, level).value.size.1 == Max(roi.y, roi.y + roi.height)
    ensures CropRegion(roi, level).value.size.0 > 0 && CropRegion(roi, level).value.size.1 > 0
  {
    AdjustRoiKeepsExtent(roi);
  }

  /** Requesting an already adjusted ROI gives the same request. */
  lemma CropRegionOfAdjusted(roi: Rect, level: int)
    requires HasCorner(roi)
    ensures CropRegion(AdjustRoi(roi).value, level) == CropRegion(roi, level)
  {
    AdjustRoiIdempotent(roi);
  }
}
