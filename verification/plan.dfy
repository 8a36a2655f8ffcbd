/**
 * Output planning shared by both scripts: for the blue ROIs of one slide, in
 * order, the read request of each crop and the names of the two files it is
 * saved as; and `main` of the single-image script.
 *
 * A zero width or height makes `adjust_roi` raise, which ends the script: the
 * crops before it have been saved, nothing after it is.
 */
module Plan {
  import opened Wrappers
  import opened Roi
  import opened Crop
  import opened Annotations
  import opened Strings
  import opened Naming
  import opened Colour

  /** One crop: the slide it reads, the request, and its PNG and SVS (TIFF) output files. */
  datatype CropJob = CropJob(slide: string, request: ReadRequest, png: OutputFile, svs: OutputFile)

  /** The crops performed, in order, and the error that ended the run, if any. */
  datatype Run = Run(jobs: seq<CropJob>, failure: Option<RoiError>)

  /** The crop of `roi` named with index `idx`, once its request has been built. */
  function JobFor(slide: string, base: string, roi: Rect, level: int, idx: nat): CropJob
    requires HasCorner(roi)
  {
    CropJob(slide, CropRegion(roi, level).value, OutputFile(Png, base, idx), OutputFile(Svs, base, idx))
  }

  /**
   * The loop `for idx, roi in enumerate(rois, start=first)`: crop each ROI at
   * `level` and name it `{base}-roi{idx}`, stopping at the first ROI whose
   * request cannot be built.
   */
  function PlanCrops(slide: string, base: string, rois: seq<Rect>, level: int, first: nat): (run: Run)
    ensures |run.jobs| <= |rois|
    ensures forall k :: 0 <= k < |run.jobs| ==> HasCorner(rois[k])
    ensures forall k :: 0 <= k < |run.jobs| ==> run.jobs[k] == JobFor(slide, base, rois[k], level, first + k)
    ensures run.failure.None? <==> |run.jobs| == |rois|
    ensures run.failure.Some? ==>
      && !HasCorner(rois[|run.jobs|])
      && run.failure.value == UnboundCorner(rois[|run.jobs|].width, rois[|run.jobs|].height)
    decreases |rois|
  {
    if rois == [] then Run([], None)
    else
      match CropRegion(rois[0], level)
      case Failure(e) => Run([], Some(e))
      case Success(req) =>
        var rest := PlanCrops(slide, base, rois[1..], level, first + 1);
        Run([CropJob(slide, req, OutputFile(Png, base, first), OutputFile(Svs, base, first))] + rest.jobs, rest.failure)
  }

  /** A run fails exactly when some ROI has a zero extent, and stops at the first one. */
  lemma PlanCropsFailsAtFirstDegenerate(slide: string, base: string, rois: seq<Rect>, level: int, first: nat)
    ensures PlanCrops(slide, base, rois, level, first).failure.None? <==> forall k :: 0 <= k < |rois| ==> HasCorner(rois[k])
  {
    var run := PlanCrops(slide, base, rois, level, first);
    if run.failure.Some? {
      assert !HasCorner(rois[|run.jobs|]);
    }
  }

  /** Within one run, no two files share a name. */
  lemma PlanCropsNamesDistinct(slide: string, base: string, rois: seq<Rect>, level: int, first: nat, k: nat, l: nat)
    requires k < l < |PlanCrops(slide, base, rois, level, first).jobs|
    ensures
      var jobs := PlanCrops(slide, base, rois, level, first).jobs;
      && Text(jobs[k].png) != Text(jobs[l].png)
      && Text(jobs[k].svs) != Text(jobs[l].svs)
      && Text(jobs[k].png) != Text(jobs[l].svs)
      && Text(jobs[k].svs) != Text(jobs[l].png)
  {
    var jobs := PlanCrops(slide, base, rois, level, first).jobs;
    assert jobs[k].png.index == first + k && jobs[l].png.index == first + l;
    TextInjective(jobs[k].png, jobs[l].png);
    TextInjective(jobs[k].svs, jobs[l].svs);
    TextInjective(jobs[k].png, jobs[l].svs);
    TextInjective(jobs[k].svs, jobs[l].png);
  }

  /** `main(json_file, svs_path, out_path)`: the crops of the single-image script. */
  function ExtractSingle(svsPath: string, anns: seq<Annotation>): (run: Run)
    ensures FindBlueRois(anns) == [] ==> run == Run([], None)
    ensures |run.jobs| <= |FindBlueRois(anns)|
    ensures run.failure.None? ==> |run.jobs| == |FindBlueRois(anns)|
    ensures run.failure.None? <==> forall k :: 0 <= k < |FindBlueRois(anns)| ==> HasCorner(FindBlueRois(anns)[k])
    ensures run.failure.Some? ==>
      && |run.jobs| < |FindBlueRois(anns)|
      && !HasCorner(FindBlueRois(anns)[|run.jobs|])
      && run.failure.value == UnboundCorner(FindBlueRois(anns)[|run.jobs|].width, FindBlueRois(anns)[|run.jobs|].height)
    ensures forall k :: 0 <= k < |run.jobs| ==> HasCorner(FindBlueRois(anns)[k])
    ensures forall k :: 0 <= k < |run.jobs| ==>
      && run.jobs[k].slide == svsPath
      && run.jobs[k].request == CropRegion(FindBlueRois(anns)[k], 0).value
      && run.jobs[k].png == OutputFile(Png, Root(BaseName(svsPath)), k + 1)
      && run.jobs[k].svs == OutputFile(Svs, Root(BaseName(svsPath)), k + 1)
  {
    var baseName := Root(BaseName(svsPath));
    var blueRois := FindBlueRois(anns);
    if blueRois == [] then Run([], None)
    else PlanCrops(svsPath, baseName, blueRois, 0, 1)
  }

  /** Every crop of the single-image script reads at level 0 and covers its annotation. */
  lemma ExtractSingleRequest(svsPath: string, anns: seq<Annotation>, k: nat)
    requires k < |ExtractSingle(svsPath, anns).jobs|
    ensures k < |FindBlueRois(anns)|
    ensures
      var roi := FindBlueRois(anns)[k];
      var req := ExtractSingle(svsPath, anns).jobs[k].request;
      && req.level == 0
      && req.location == (Min(roi.x, roi.x + roi.width), Min(roi.y, roi.y + roi.height))
      && req.size == (Abs(roi.width), Abs(roi.height))
  {
    var roi := FindBlueRois(anns)[k];
    assert HasCorner(roi);
    assert ExtractSingle(svsPath, anns).jobs[k].request == CropRegion(roi, 0).value;
  }

  /** The single-image script never writes two files under one name. */
  lemma ExtractSingleNamesDistinct(svsPath: string, anns: seq<Annotation>, k: nat, l: nat)
    requires k < l < |ExtractSingle(svsPath, anns).jobs|
    ensures
      var jobs := ExtractSingle(svsPath, anns).jobs;
      && Text(jobs[k].png) != Text(jobs[l].png)
      && Text(jobs[k].svs) != Text(jobs[l].svs)
      && Text(jobs[k].png) != Text(jobs[l].svs)
      && Text(jobs[k].svs) != Text(jobs[l].png)
  {
    var jobs := ExtractSingle(svsPath, anns).jobs;
    assert jobs[k].png.index == k + 1 && jobs[l].png.index == l + 1;
    TextInjective(jobs[k].png, jobs[l].png);
    TextInjective(jobs[k].svs, jobs[l].svs);
    TextInjective(jobs[k].png, jobs[l].svs);
    TextInjective(jobs[k].svs, jobs[l].png);
  }

  /** One blue and one red rectangle give exactly one crop, named with index 1. */
  lemma ExtractSingleOneBlueOneRed(svsPath: string, blue: Rect, red: Rect)
    requires HasCorner(blue)
    ensures
      var run := ExtractSingle(svsPath, [Annotation(0xFF00_00FF, blue), Annotation(0xFFFF_0000, red)]);
      && run.failure == None
      && |run.jobs| == 1
      && Text(run.jobs[0].png) == Root(BaseName(svsPath)) + "-roi1.png"
      && Text(run.jobs[0].svs) == Root(BaseName(svsPath)) + "-roi1.svs"
  {
    var anns := [Annotation(0xFF00_00FF, blue), Annotation(0xFFFF_0000, red)];
    assert IsBlue(0xFF00_00FF) && !IsBlue(0xFFFF_0000);
    assert anns[1..] == [Annotation(0xFFFF_0000, red)];
    assert FindBlueRois(anns[1..][1..]) == [];
    assert FindBlueRois(anns) == [blue];
    TextExample(Root(BaseName(svsPath)));
  }
}
