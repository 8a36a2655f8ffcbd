# Slide2Patch ROI pipeline — Dafny model

Slide2Patch extracts annotated regions of interest (ROIs) from whole-slide
microscopy images. Two near-identical scripts do this. `2_roi_extractor.py`
handles one slide and one annotation file. `2_roi_extractor_floder.py` handles a
folder of slides, each paired with its own annotation file. This project models
the part of both scripts that is not plumbing:

- the ARGB colour classifier `is_blue` (module `Colour`);
- the order-preserving filter `find_blue_rois` (module `Annotations`);
- the sign-table normaliser `adjust_roi` (module `Roi`);
- the read request built by `crop_region` (module `Crop`);
- the file-name operations the scripts use: `str.lower`, `str.endswith`,
  `os.path.basename`, `os.path.splitext` and `f"{idx}"` (modules `Strings` and `Naming`);
- the crop plan of the single-image `main` (module `Plan`);
- the pairing and crop plan of `process_folder` (module `Folder`).

Colours are unbounded `int`s. Python's `(c >> k) & 0xff` is written as
`(c / 2^k) % 256`. Dafny's Euclidean division by a positive constant is
Python's floor division, so signed 32-bit colours are handled as the scripts
handle them.

A zero width or height makes `adjust_roi` fall through its four branches, and
Python then raises `UnboundLocalError` on the unbound `new_x`. A zero extent is
therefore not a valid ROI here, and the model returns
`Failure(UnboundCorner(w, h))` instead. Because the exception ends the script,
a run is modelled as `Run(jobs, failure)`: the crops done before the first
degenerate ROI, followed by the error. In folder mode that error also ends the
whole batch.

The slide reader is not modelled. A crop is represented by its
`read_region((x, y), level, (w, h))` request and its two output file names.
Output names are `OutputFile(format, base, index)` values. `Naming.Text`
renders one as `{base}-roi{index}.png` or `.svs`, and is proved injective.

The `adjust_roi` docstrings describe other corner rules than the branches
compute, and the model computes what the branches compute.

## Model

| member | source | states |
|---|---|---|
| Colour.LowByte | 2_roi_extractor.py:49-52 | `v & 0xff` is the byte in 0..255 congruent to `v` modulo 256, also for negative `v` |
| Colour.UnpackPack | 2_roi_extractor.py:49-52 | unpacking a colour built from channels r, g, b and high part hi gives back r, g, b, and alpha hi mod 256 |
| Colour.PackUnpack | 2_roi_extractor.py:49-52 | every integer colour equals the packing of its unpacked red, green and blue bytes and its bits from 24 up |
| Colour.IsBlue | 2_roi_extractor.py:49-54 | `is_blue` on the channels cut out by shift and mask; specified by IsBlueOfPack, IsBlueBoundary, IsBlueIgnoresAlpha and IsBlueSignedAsUnsigned |
| Colour.IsBlueOfPack | 2_roi_extractor.py:49-54 | `is_blue` holds exactly when blue > red, blue > green and blue > 128 (the copy at 2_roi_extractor_floder.py:49-54 is identical) |
| Colour.IsBlueBoundary | 2_roi_extractor.py:54 | a blue channel of 128 is never blue; 129 is blue when red and green are at most 128 |
| Colour.IsBlueIgnoresAlpha | 2_roi_extractor.py:49-54 | adding any multiple of 2^24 (the alpha byte and every bit above) does not change `is_blue` |
| Colour.IsBlueSignedAsUnsigned | 2_roi_extractor.py:49-54 | a colour read as a signed 32-bit value classifies like its unsigned reading |
| Annotations.FindBlueRois | 2_roi_extractor.py:73-83 | the output is no longer than the input, and a rectangle is in it exactly when some blue annotation has it as region |
| Annotations.FindBlueRoisSelects | 2_roi_extractor.py:73-83 | the output lists the regions, copied unchanged, of exactly the blue annotations, in increasing input position (same code at 2_roi_extractor_floder.py:73-83) |
| Annotations.FindBlueRoisEmpty | 2_roi_extractor.py:73-83 | the output is empty exactly when no annotation is blue |
| Annotations.FindBlueRoisAppend | 2_roi_extractor.py:74-82 | filtering a concatenation is concatenating the filtered parts |
| Roi.AdjustRoi | 2_roi_extractor.py:109-132 | succeeds exactly when width and height are non-zero, else reports the unbound corner; on success gives top-left (min(x, x+w), min(y, y+h)) and size (abs(w), abs(h)) |
| Roi.AdjustRoiKeepsExtent | 2_roi_extractor.py:114-132 | the result has positive size, ends at max(x, x+w) and max(y, y+h), and has area abs(w*h) |
| Roi.AdjustRoiKeepsCorners | 2_roi_extractor_floder.py:110-128 | the result has the same four corners as the signed rectangle |
| Roi.AdjustRoiIdentityOnNormal | 2_roi_extractor.py:114-116 | a rectangle with positive width and height is returned unchanged |
| Roi.AdjustRoiIdempotent | 2_roi_extractor.py:114-132 | adjusting an adjusted rectangle changes nothing |
| Roi.AdjustRoiExamples | 2_roi_extractor.py:117-126 | the worked cases: (100,100,-50,30) gives (50,100,50,30); (100,100,-50,-40) gives (50,60,50,40); positive width with negative height moves y; zero width fails |
| Crop.CropRegion | 2_roi_extractor_floder.py:148-151 | the request exists exactly when the ROI has a corner; it reads at the caller's level from the adjusted top-left with size (abs(w), abs(h)) |
| Crop.CropRegionCoversAnnotation | 2_roi_extractor.py:153-156 | the requested area spans exactly the annotated rectangle on each axis, with positive size |
| Crop.CropRegionOfAdjusted | 2_roi_extractor.py:154-156 | requesting the adjusted ROI gives the same request as requesting the raw one |
| Strings.Lower | 2_roi_extractor_floder.py:197-199 | `str.lower` on ASCII letters; specified by LowerSpec, LowerAppend and LowerIdempotent |
| Strings.LowerSpec | 2_roi_extractor_floder.py:197-199 | `lower()` keeps the length, maps each character on its own, and leaves no upper-case ASCII letter |
| Strings.LowerAppend | 2_roi_extractor_floder.py:197 | `lower()` distributes over concatenation |
| Strings.LowerIdempotent | 2_roi_extractor_floder.py:199 | lowercasing twice is lowercasing once |
| Strings.BaseName | 2_roi_extractor.py:201 | `os.path.basename`; specified by BaseNameSpec |
| Strings.BaseNameSpec | 2_roi_extractor.py:201 | `basename` is the longest suffix without a separator |
| Strings.RFindSpec | 2_roi_extractor.py:201 | `rfind` returns the last position of the character, or -1 when it does not occur |
| Strings.SplitExt | 2_roi_extractor.py:201 | `os.path.splitext`, with its leading-dots rule; specified by SplitExtSpec and SplitExtOfSuffix |
| Strings.SplitExtSpec | 2_roi_extractor.py:201 | `splitext` parts concatenate to the path; the extension is non-empty exactly when the last component has a dot after some non-dot character, and is then one dot followed by no dot and no separator, so it starts at the last dot |
| Strings.SplitExtOfSuffix | 2_roi_extractor_floder.py:199 | for a separator-free name ending in a four-character extension, with something other than dots before it, the root is the name without that extension |
| Naming.Decimal | 2_roi_extractor.py:210-211 | `f"{n}"` is a non-empty string of digits with no leading zero |
| Naming.ParseDecimalOfDecimal | 2_roi_extractor.py:210-211 | reading back a rendered index gives the index |
| Naming.DecimalInjective | 2_roi_extractor.py:209-211 | distinct indices render differently |
| Naming.RoiName | 2_roi_extractor.py:210-211 | the stem `{base}-roi{idx}` shared by both output files of a crop; specified by RoiNameInjective |
| Naming.RoiNameInjective | 2_roi_extractor.py:210-211 | `{base}-roi{idx}` determines both base and idx |
| Naming.Text | 2_roi_extractor_floder.py:214-215 | the output file name `{base}-roi{idx}.png` or `.svs`; specified by TextInjective and TextExample |
| Naming.TextInjective | 2_roi_extractor_floder.py:214-215 | distinct output files (format, base, index) have distinct file names |
| Naming.TextExample | 2_roi_extractor.py:210-211 | crop 1 of base b is named `b-roi1.png` and `b-roi1.svs` |
| Plan.PlanCrops | 2_roi_extractor.py:209-215 | crop k reads ROI k and is named with index first+k; the run covers every ROI exactly when it has no failure, otherwise it stops at the first ROI with a zero extent and reports it |
| Plan.PlanCropsFailsAtFirstDegenerate | 2_roi_extractor.py:209-215 | the loop completes without error exactly when every ROI has non-zero width and height |
| Plan.PlanCropsNamesDistinct | 2_roi_extractor_floder.py:213-218 | within one slide, no two output files share a name |
| Plan.ExtractSingle | 2_roi_extractor.py:201-215 | no blue ROI gives no crop and no error; the run fails exactly when some blue ROI has a zero width or height, and then stops at the first such ROI and reports it; crop k reads blue ROI k at level 0 from the given slide and is named `{root of basename}-roi{k+1}`, so n valid blue ROIs give n crops |
| Plan.ExtractSingleRequest | 2_roi_extractor.py:213 | each crop reads at level 0 from min(x, x+w), min(y, y+h) with size (abs(w), abs(h)) of its ROI |
| Plan.ExtractSingleNamesDistinct | 2_roi_extractor.py:209-211 | the single-image script writes every output under its own name |
| Plan.ExtractSingleOneBlueOneRed | 2_roi_extractor.py:203-215 | one blue and one red rectangle give exactly one crop, named `-roi1.png` and `-roi1.svs` |
| Folder.IsSlideName | 2_roi_extractor_floder.py:197 | the `.svs` test in any case; specified by SlideStemOfSlide and SampleStem |
| Folder.SlideStem | 2_roi_extractor_floder.py:199 | the lowercased root of the file name; specified by SlideStemOfSlide and SampleStem |
| Folder.AnnotationPath | 2_roi_extractor_floder.py:201 | the relative annotation path `{stem}_kfb/Annotations/1.json`; specified by PairingExample |
| Folder.ProcessImage | 2_roi_extractor_floder.py:197-218 | one pass of the loop; specified by ProcessImageUnpaired, ProcessImageNoBlue, ProcessImageRuns and ProcessImageJob |
| Folder.ProcessImageUnpaired | 2_roi_extractor_floder.py:196-204 | a non-`.svs` file, or one whose annotation file is missing, gives no crop and no error |
| Folder.ProcessImageNoBlue | 2_roi_extractor_floder.py:206-211 | a paired slide without blue ROIs gives no crop and no error |
| Folder.ProcessImageRuns | 2_roi_extractor_floder.py:206-218 | a paired slide gives at most one crop per blue ROI; it fails exactly when some blue ROI has a zero extent, stops at the first such ROI and reports it, and otherwise crops every blue ROI |
| Folder.ProcessImageJob | 2_roi_extractor_floder.py:196-218 | crop k comes from a paired slide, reads blue ROI k at the caller's level, and is named `{lowercased stem}-roi{k+1}` |
| Folder.ProcessFolder | 2_roi_extractor_floder.py:196-218 | `process_folder` over a listing; specified by ProcessFolderCons, ProcessFolderFailure, ProcessFolderCovers, ProcessFolderJob, ProcessFolderOrder and ProcessFolderAppend |
| Folder.BatchAppend | 2_roi_extractor_floder.py:196-218 | running two lists of per-image runs in a row is running their concatenation: an error in the first part ends the batch, otherwise the crops of both parts follow one another |
| Folder.ProcessFolderJob | 2_roi_extractor_floder.py:196-218 | every crop of the batch is crop j of some listed `.svs` file whose annotation file exists: it reads that file's blue ROI j at the caller's level and is named `{stem}-roi{j+1}` |
| Folder.ProcessFolderAppend | 2_roi_extractor_floder.py:196-218 | processing a listing in two parts is processing it whole; an error in the first part ends the batch |
| Folder.ProcessFolderCons | 2_roi_extractor_floder.py:196-218 | the batch of a listing is its first entry's run followed by the batch of the rest; an error in the first entry ends it |
| Folder.ProcessFolderFailure | 2_roi_extractor_floder.py:196-218 | the batch fails exactly when some paired slide has a blue ROI with a zero width or height (`adjust_roi` raises when `crop_region` calls it at :149) |
| Folder.ProcessFolderCovers | 2_roi_extractor_floder.py:213-218 | when the batch does not fail, every blue ROI j of every paired slide is cropped at the caller's level and named `{stem}-roi{j+1}` |
| Folder.ProcessFolderOrder | 2_roi_extractor_floder.py:196-218 | of two crops of the batch, the earlier comes from an earlier listing entry, or from the same entry with a smaller ROI index |
| Folder.ProcessFolderSkips | 2_roi_extractor_floder.py:202-211 | a file giving no crop and no error (missing annotation file, no blue ROI, not a slide) leaves the rest of the batch unchanged |
| Folder.ProcessFolderOutputsDistinct | 2_roi_extractor_floder.py:213-218 | when the paired slides have distinct stems, no two crops of the batch share an output file |
| Folder.ProcessFolderNamesDistinct | 2_roi_extractor_floder.py:214-215 | under the same condition, no two crops of the batch share a file name |
| Folder.SlideStemOfSlide | 2_roi_extractor_floder.py:197-199 | a `.svs` file name (any case) with something other than dots before the extension has as stem its lowercased name without the extension |
| Folder.SampleStem | 2_roi_extractor_floder.py:197-199 | `Sample.svs` is a slide name and its stem is `sample` |
| Folder.PairingExample | 2_roi_extractor_floder.py:199-204 | `Sample.svs` is paired with `sample_kfb/Annotations/1.json`, and is skipped without crops when that file is missing |

## Left out

- `1_kfb2svs_converter.py` is not part of this model. It shells out to a vendor converter. Its only logic is a level range check and a file-name rewrite.
- `load_annotations` and JSON decoding are file I/O. Annotations are taken already parsed, with integer fields. The `int()` truncation of float JSON values is not modelled.
- Slide reading is not modelled: `openslide.OpenSlide`, the pixels of `read_region` and `convert("RGB")` belong to an external library. Its errors are not modelled either (bad path, out-of-bounds region, unsupported level). Only the request is modelled.
- Saving images is not modelled: `save_region`, `image.save` and its PNG/TIFF encoders are external I/O.
- These side effects are left out: `print`, `os.makedirs` of `out/png` and `out/svs`, argparse defaults, and the DLL directory set-up at import time.
- Output directories and `os.path.join` prefixes are not modelled (`out/png`, `out/svs`, `svs_folder`, `json_folder`). Jobs record file names, and folder-mode slides are named by their listing entry.
- The order of `os.listdir` is not modelled: the listing is an input sequence in whatever order it arrives.
- Exceptions other than the zero-extent failure are not modelled, such as a missing `color` or `region` key, or an annotation file that exists but cannot be read.
- Strings.Lower: lowercases ASCII letters only; Python's `str.lower` also lowercases non-ASCII letters.
- Strings.BaseName: splits on `\` and `/` as Windows does; a drive prefix such as `C:` and the POSIX rule (only `/` separates) are not modelled.
- Strings.SplitExt: follows the Windows rule, where both `\` and `/` end the last component.
- Folder.ProcessFolderNamesDistinct: assumes the paired slides have distinct stems. Distinct listed names can share a stem: `a.svs` and `A.SVS` differ only in case, and `.svs` and `.svs.svs` both have stem `.svs`, because `splitext` leaves `.svs` whole. A later slide with the same stem replaces only the earlier files whose index it also produces.
