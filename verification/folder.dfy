/**
 * `process_folder` of the folder-mode script: every `.svs` file of the slide
 * folder is paired with `{stem}_kfb/Annotations/1.json` under the annotation
 * folder and cropped like the single-image script, at the caller's level.
 *
 * The directory listing is an input sequence (its order is whatever
 * `os.listdir` returns), and the annotation folder is a map from relative
 * path to the parsed annotation list; a path that is not a key is a missing
 * file.
 */
module Folder {
  import opened Wrappers
  import opened Roi
  import opened Crop
  import opened Annotations
  import opened Strings
  import opened Naming
  import opened Plan

  /** Parsed annotation files by path relative to the annotation folder. */
  type AnnotationStore = map<string, seq<Annotation>>

  /** `filename.lower().endswith('.svs')` */
  predicate IsSlideName(filename: string) {
    EndsWith(Lower(filename), ".svs")
  }

  /** `os.path.splitext(filename)[0].lower()`, the base of the annotation folder and of the outputs. */
  function SlideStem(filename: string): string {
    Lower(Root(filename))
  }

  /**
   * `os.path.join(f'{stem}_kfb', 'Annotations', '1.json')`, spelled with `/`:
   * the store is keyed by relative paths in this spelling, whichever separator
   * the platform inserts.
   */
  function AnnotationPath(stem: string): string {
    stem + "_kfb/Annotations/1.json"
  }

  /** A slide whose annotation file exists. */
  predicate Paired(filename: string, store: AnnotationStore) {
    IsSlideName(filename) && AnnotationPath(SlideStem(filename)) in store
  }

  /** One iteration of the loop over the listing. */
  function ProcessImage(filename: string, store: AnnotationStore, level: int): Run {
    if !IsSlideName(filename) then Run([], None)
    else
      var baseName := SlideStem(filename);
      var jsonFile := AnnotationPath(baseName);
      if jsonFile !in store then Run([], None)
      else
        var blueRois := FindBlueRois(store[jsonFile]);
        if blueRois == [] then Run([], None)
        else PlanCrops(filename, baseName, blueRois, level, 1)
  }

  /** The blue ROIs of a paired slide. */
  function SlideRois(filename: string, store: AnnotationStore): seq<Rect>
    requires Paired(filename, store)
  {
    FindBlueRois(store[AnnotationPath(SlideStem(filename))])
  }

  /** A file that is not a slide, or whose annotation file is missing, gives no crops and no error. */
  lemma ProcessImageUnpaired(filename: string, store: AnnotationStore, level: int)
    requires !Paired(filename, store)
    ensures ProcessImage(filename, store, level) == Run([], None)
  {
  }

  /** A paired slide without blue ROIs gives no crops and no error. */
  lemma ProcessImageNoBlue(filename: string, store: AnnotationStore, level: int)
    requires Paired(filename, store) && SlideRois(filename, store) == []
    ensures ProcessImage(filename, store, level) == Run([], None)
  {
  }

  /**
   * A paired slide crops its blue ROIs in order. It fails exactly when one of
   * them has a zero extent, and then stops at the first such ROI.
   */
  lemma ProcessImageRuns(filename: string, store: AnnotationStore, level: int)
    requires Paired(filename, store)
    ensures |ProcessImage(filename, store, level).jobs| <= |SlideRois(filename, store)|
    ensures ProcessImage(filename, store, level).failure.None? <==> |ProcessImage(filename, store, level).jobs| == |SlideRois(filename, store)|
    ensures ProcessImage(filename, store, level).failure.None? <==>
      forall k :: 0 <= k < |SlideRois(filename, store)| ==> HasCorner(SlideRois(filename, store)[k])
    ensures
      var run, rois := ProcessImage(filename, store, level), SlideRois(filename, store);
      run.failure.Some? ==>
        && |run.jobs| < |rois|
        && !HasCorner(rois[|run.jobs|])
        && run.failure.value == UnboundCorner(rois[|run.jobs|].width, rois[|run.jobs|].height)
  {
    var rois := SlideRois(filename, store);
    if rois != [] {
      PlanCropsFailsAtFirstDegenerate(filename, SlideStem(filename), rois, level, 1);
    }
  }

  /** Crop `k` of a paired slide reads ROI `k` at the caller's level and is named `{stem}-roi{k+1}`. */
  lemma ProcessImageJob(filename: string, store: AnnotationStore, level: int, k: nat)
    requires k < |ProcessImage(filename, store, level).jobs|
    ensures Paired(filename, store)
    ensures k < |SlideRois(filename, store)| && HasCorner(SlideRois(filename, store)[k])
    ensures
      var job := ProcessImage(filename, store, level).jobs[k];
      && job.slide == filename
      && job.request == CropRegion(SlideRois(filename, store)[k], level).value
      && job.request.level == level
      && job.png == OutputFile(Png, SlideStem(filename), k + 1)
      && job.svs == OutputFile(Svs, SlideStem(filename), k + 1)
  {
    var run := ProcessImage(filename, store, level);
    assert Paired(filename, store);
    assert run == PlanCrops(filename, SlideStem(filename), SlideRois(filename, store), level, 1);
  }

  /** Runs one after another, as the loop performs them: the first error ends the batch. */
  function Batch(runs: seq<Run>): Run
    decreases |runs|
  {
    if runs == [] then Run([], None)
    else
      var first := runs[0];
      if first.failure.Some? then first
      else
        var rest := Batch(runs[1..]);
        Run(first.jobs + rest.jobs, rest.failure)
  }

  /** Crop `k` of a batch is crop `j` of run `i`. */
  lemma {:induction false} BatchJob(runs: seq<Run>, k: nat) returns (i: nat, j: nat)
    requires k < |Batch(runs).jobs|
    ensures i < |runs| && j < |runs[i].jobs| && Batch(runs).jobs[k] == runs[i].jobs[j]
    decreases |runs|
  {
    var first := runs[0];
    if first.failure.Some? || k < |first.jobs| {
      i, j := 0, k;
    } else {
      var rest := Batch(runs[1..]);
      assert Batch(runs).jobs == first.jobs + rest.jobs;
      var i', j' := BatchJob(runs[1..], k - |first.jobs|);
      i, j := i' + 1, j';
    }
  }

  /** Two crops of a batch come, in the same order, from one run or from an earlier and a later run. */
  lemma {:induction false} BatchJobPair(runs: seq<Run>, k: nat, l: nat) returns (i: nat, j: nat, i2: nat, j2: nat)
    requires k < l < |Batch(runs).jobs|
    ensures i <= i2 < |runs| && j < |runs[i].jobs| && j2 < |runs[i2].jobs|
    ensures i == i2 ==> j < j2
    ensures Batch(runs).jobs[k] == runs[i].jobs[j] && Batch(runs).jobs[l] == runs[i2].jobs[j2]
    decreases |runs|
  {
    var first := runs[0];
    var n := |first.jobs|;
    if first.failure.Some? || l < n {
      i, j, i2, j2 := 0, k, 0, l;
    } else {
      var rest := Batch(runs[1..]);
      assert Batch(runs).jobs == first.jobs + rest.jobs;
      if k < n {
        var i', j' := BatchJob(runs[1..], l - n);
        i, j, i2, j2 := 0, k, i' + 1, j';
      } else {
        var a, b, c, d := BatchJobPair(runs[1..], k - n, l - n);
        i, j, i2, j2 := a + 1, b, c + 1, d;
      }
    }
  }

  /** A batch of two parts is the first part's batch followed by the second's. */
  lemma {:induction false} BatchAppend(a: seq<Run>, b: seq<Run>)
    ensures
      var ra, rb := Batch(a), Batch(b);
      Batch(a + b) == if ra.failure.Some? then ra else Run(ra.jobs + rb.jobs, rb.failure)
    decreases |a|
  {
    var rb := Batch(b);
    if a == [] {
      assert a + b == b;
      assert rb.jobs == [] + rb.jobs;
    } else {
      assert (a + b)[0] == a[0];
      assert (a + b)[1..] == a[1..] + b;
      BatchAppend(a[1..], b);
      var tail := Batch(a[1..]);
      if a[0].failure.None? && tail.failure.None? {
        assert a[0].jobs + (tail.jobs + rb.jobs) == (a[0].jobs + tail.jobs) + rb.jobs;
      }
    }
  }

  /** `f` applied to each element, in order. */
  function MapSeq<T, U>(f: T -> U, xs: seq<T>): seq<U> {
    seq(|xs|, i requires 0 <= i < |xs| => f(xs[i]))
  }

  /** Mapping distributes over concatenation. */
  lemma MapSeqAppend<T, U>(f: T -> U, a: seq<T>, b: seq<T>)
    ensures MapSeq(f, a + b) == MapSeq(f, a) + MapSeq(f, b)
  {
    forall i | 0 <= i < |a + b|
      ensures MapSeq(f, a + b)[i] == (MapSeq(f, a) + MapSeq(f, b))[i]
    {
      if i < |a| {
        assert (a + b)[i] == a[i];
      } else {
        assert (a + b)[i] == b[i - |a|];
      }
    }
  }

  /** One iteration of the loop, as a function of the file name. */
  function ImageRun(store: AnnotationStore, level: int): string -> Run {
    filename => ProcessImage(filename, store, level)
  }

  /** The whole loop over the listing; an error raised for one image ends the batch. */
  function ProcessFolder(listing: seq<string>, store: AnnotationStore, level: int): Run {
    Batch(MapSeq(ImageRun(store, level), listing))
  }

  /** Every crop of the batch is crop `j` of the paired slide at position `i`, and is named `{stem}-roi{j+1}`. */
  lemma ProcessFolderJob(listing: seq<string>, store: AnnotationStore, level: int, k: nat) returns (i: nat, j: nat)
    requires k < |ProcessFolder(listing, store, level).jobs|
    ensures i < |listing|
    ensures
      var job := ProcessFolder(listing, store, level).jobs[k];
      && Paired(listing[i], store)
      && j < |SlideRois(listing[i], store)|
      && HasCorner(SlideRois(listing[i], store)[j])
      && job.slide == listing[i]
      && job.request == CropRegion(SlideRois(listing[i], store)[j], level).value
      && job.request.level == level
      && job.png == OutputFile(Png, SlideStem(listing[i]), j + 1)
      && job.svs == OutputFile(Svs, SlideStem(listing[i]), j + 1)
  {
    i, j := BatchJob(MapSeq(ImageRun(store, level), listing), k);
    ProcessImageJob(listing[i], store, level, j);
  }

  /** Processing two listings in a row is processing their concatenation. */
  lemma ProcessFolderAppend(a: seq<string>, b: seq<string>, store: AnnotationStore, level: int)
    ensures
      var ra := ProcessFolder(a, store, level);
      ProcessFolder(a + b, store, level) ==
        if ra.failure.Some? then ra
        else Run(ra.jobs + ProcessFolder(b, store, level).jobs, ProcessFolder(b, store, level).failure)
  {
    var f := ImageRun(store, level);
    MapSeqAppend(f, a, b);
    BatchAppend(MapSeq(f, a), MapSeq(f, b));
  }

  /** The batch of a listing is its first entry's run followed by the batch of the rest. */
  lemma ProcessFolderCons(filename: string, rest: seq<string>, store: AnnotationStore, level: int)
    ensures
      var r, rb := ProcessImage(filename, store, level), ProcessFolder(rest, store, level);
      ProcessFolder([filename] + rest, store, level) ==
        if r.failure.Some? then r else Run(r.jobs + rb.jobs, rb.failure)
  {
    var f, r := ImageRun(store, level), ProcessImage(filename, store, level);
    assert f(filename) == r;
    assert MapSeq(f, [filename]) == [r];
    assert Batch([r][1..]) == Run([], None);
    assert r.jobs + [] == r.jobs;
    ProcessFolderAppend([filename], rest, store, level);
  }

  /** Every blue ROI of `rois` has a non-zero width and height. */
  predicate AllCorners(rois: seq<Rect>) {
    forall k :: 0 <= k < |rois| ==> HasCorner(rois[k])
  }

  /** The batch fails exactly when some paired slide of the listing has a blue ROI with a zero extent. */
  lemma {:induction false} ProcessFolderFailure(listing: seq<string>, store: AnnotationStore, level: int)
    ensures ProcessFolder(listing, store, level).failure.None? <==>
      forall i :: 0 <= i < |listing| && Paired(listing[i], store) ==> AllCorners(SlideRois(listing[i], store))
    decreases |listing|
  {
    if listing == [] {
      assert MapSeq(ImageRun(store, level), listing) == [];
    } else {
      var f, rest := listing[0], listing[1..];
      assert listing == [f] + rest;
      ProcessFolderCons(f, rest, store, level);
      ProcessFolderFailure(rest, store, level);
      var r := ProcessImage(f, store, level);
      if Paired(f, store) {
        ProcessImageRuns(f, store, level);
      } else {
        ProcessImageUnpaired(f, store, level);
      }
      assert r.failure.None? <==> (Paired(f, store) ==> AllCorners(SlideRois(f, store)));
      assert forall i :: 0 < i < |listing| ==> listing[i] == rest[i - 1];
    }
  }

  /**
   * When the batch does not fail, every blue ROI `j` of every paired slide
   * `i` of the listing is cropped, named `{stem}-roi{j+1}`.
   */
  lemma {:induction false} ProcessFolderCovers(listing: seq<string>, store: AnnotationStore, level: int, i: nat, j: nat) returns (k: nat)
    requires ProcessFolder(listing, store, level).failure.None?
    requires i < |listing| && Paired(listing[i], store) && j < |SlideRois(listing[i], store)|
    ensures HasCorner(SlideRois(listing[i], store)[j])
    ensures
      var jobs := ProcessFolder(listing, store, level).jobs;
      && k < |jobs|
      && jobs[k].slide == listing[i]
      && jobs[k].request == CropRegion(SlideRois(listing[i], store)[j], level).value
      && jobs[k].png == OutputFile(Png, SlideStem(listing[i]), j + 1)
      && jobs[k].svs == OutputFile(Svs, SlideStem(listing[i]), j + 1)
    decreases |listing|
  {
    var f, rest := listing[0], listing[1..];
    assert listing == [f] + rest;
    ProcessFolderCons(f, rest, store, level);
    var r, rb := ProcessImage(f, store, level), ProcessFolder(rest, store, level);
    assert r.failure.None?;
    assert ProcessFolder(listing, store, level).jobs == r.jobs + rb.jobs;
    if i == 0 {
      ProcessImageRuns(f, store, level);
      ProcessImageJob(f, store, level, j);
      k := j;
    } else {
      assert listing[i] == rest[i - 1];
      var k' := ProcessFolderCovers(rest, store, level, i - 1, j);
      k := |r.jobs| + k';
    }
  }

  /**
   * The batch keeps listing order: of two crops, the earlier comes from an
   * earlier entry, or from the same entry with a smaller index.
   */
  lemma ProcessFolderOrder(listing: seq<string>, store: AnnotationStore, level: int, k: nat, l: nat)
    returns (i: nat, j: nat, i2: nat, j2: nat)
    requires k < l < |ProcessFolder(listing, store, level).jobs|
    ensures i <= i2 < |listing| && (i == i2 ==> j < j2)
    ensures
      var jobs := ProcessFolder(listing, store, level).jobs;
      && jobs[k].slide == listing[i] && jobs[k].png == OutputFile(Png, SlideStem(listing[i]), j + 1)
      && jobs[l].slide == listing[i2] && jobs[l].png == OutputFile(Png, SlideStem(listing[i2]), j2 + 1)
  {
    i, j, i2, j2 := BatchJobPair(MapSeq(ImageRun(store, level), listing), k, l);
    ProcessImageJob(listing[i], store, level, j);
    ProcessImageJob(listing[i2], store, level, j2);
  }

  /**
   * A file that gives no crops and no error (not a slide, a missing
   * annotation file, or no blue ROI) does not change the rest of the batch.
   */
  lemma ProcessFolderSkips(a: seq<string>, filename: string, b: seq<string>, store: AnnotationStore, level: int)
    requires ProcessImage(filename, store, level) == Run([], None)
    ensures ProcessFolder(a + [filename] + b, store, level) == ProcessFolder(a + b, store, level)
  {
    var f := ImageRun(store, level);
    var ra, rb := MapSeq(f, a), MapSeq(f, b);
    var skip := [Run([], None)];
    assert a + [filename] + b == a + ([filename] + b);
    MapSeqAppend(f, a, [filename] + b);
    MapSeqAppend(f, [filename], b);
    assert MapSeq(f, [filename]) == skip;
    MapSeqAppend(f, a, b);
    BatchAppend(ra, skip + rb);
    BatchAppend(ra, rb);
    assert (skip + rb)[1..] == rb;
    assert Batch(skip + rb).jobs == [] + Batch(rb).jobs;
  }

  /** No two paired slides of the listing share a stem. */
  predicate DistinctStems(listing: seq<string>, store: AnnotationStore) {
    forall i, j :: 0 <= i < j < |listing| && Paired(listing[i], store) && Paired(listing[j], store) ==>
      SlideStem(listing[i]) != SlideStem(listing[j])
  }

  /** When stems are distinct, no two crops of the batch share an output file. */
  lemma ProcessFolderOutputsDistinct(listing: seq<string>, store: AnnotationStore, level: int, k: nat, l: nat)
    requires DistinctStems(listing, store)
    requires k < l < |ProcessFolder(listing, store, level).jobs|
    ensures ProcessFolder(listing, store, level).jobs[k].png != ProcessFolder(listing, store, level).jobs[l].png
    ensures ProcessFolder(listing, store, level).jobs[k].svs != ProcessFolder(listing, store, level).jobs[l].svs
  {
    var runs := MapSeq(ImageRun(store, level), listing);
    var i, j, i2, j2 := BatchJobPair(runs, k, l);
    ProcessImageJob(listing[i], store, level, j);
    ProcessImageJob(listing[i2], store, level, j2);
    if i < i2 {
      assert SlideStem(listing[i]) != SlideStem(listing[i2]);
    }
  }

  /** When stems are distinct, the batch never writes two files under one name. */
  lemma ProcessFolderNamesDistinct(listing: seq<string>, store: AnnotationStore, level: int, k: nat, l: nat)
    requires DistinctStems(listing, store)
    requires k < l < |ProcessFolder(listing, store, level).jobs|
    ensures
      var jobs := ProcessFolder(listing, store, level).jobs;
      && Text(jobs[k].png) != Text(jobs[l].png)
      && Text(jobs[k].svs) != Text(jobs[l].svs)
  {
    var jobs := ProcessFolder(listing, store, level).jobs;
    ProcessFolderOutputsDistinct(listing, store, level, k, l);
    TextInjective(jobs[k].png, jobs[l].png);
    TextInjective(jobs[k].svs, jobs[l].svs);
  }

  /** The stem of a slide file name is its lowercased name without the extension. */
  lemma SlideStemOfSlide(filename: string)
    requires NoSep(filename) && IsSlideName(filename)
    requires HasNonDot(filename, 0, |filename| - 4)
    ensures SlideStem(filename) == Lower(filename[..|filename| - 4])
  {
    var prefix, ext := filename[..|filename| - 4], filename[|filename| - 4..];
    assert filename == prefix + ext;
    LowerAppend(prefix, ext);
    LowerSpec(prefix);
    LowerSpec(ext);
    assert Lower(ext) == Lower(filename)[|filename| - 4..] == ".svs";
    assert LowerChar(ext[0]) == '.' && LowerChar(ext[1]) == 's';
    assert LowerChar(ext[2]) == 'v' && LowerChar(ext[3]) == 's';
    assert '.' !in ext[1..];
    SplitExtOfSuffix(filename, ext);
  }

  /** `Sample.svs` is a slide name with stem `sample`. */
  lemma SampleStem(name: string)
    requires name == "Sample.svs"
    ensures IsSlideName(name)
    ensures SlideStem(name) == "sample"
  {
    var prefix, ext := "Sample", ".svs";
    assert name == prefix + ext;
    LowerAppend(prefix, ext);
    assert Lower(prefix) == "sample";
    assert Lower(ext) == ".svs";
    assert HasNonDot(name, 0, 6) by { assert name[0] != '.'; }
    SlideStemOfSlide(name);
    assert name[..6] == prefix;
  }

  /** `Sample.svs` is paired with `sample_kfb/Annotations/1.json`; a missing file gives no crops. */
  lemma PairingExample(name: string, store: AnnotationStore, level: int)
    requires name == "Sample.svs"
    ensures AnnotationPath(SlideStem(name)) == "sample_kfb/Annotations/1.json"
    ensures "sample_kfb/Annotations/1.json" !in store ==> ProcessImage(name, store, level) == Run([], None)
  {
    SampleStem(name);
    var stem := SlideStem(name);
    assert AnnotationPath(stem) == "sample_kfb/Annotations/1.json";
    if AnnotationPath(stem) !in store {
      ProcessImageUnpaired(name, store, level);
    }
  }
}
