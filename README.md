# NudeNet detection core in Dafny

This project models the deterministic core of the NudeNet Ruby gem, which wraps an
ONNX object detector. Five parts are modelled:

- **Post-processing of the detector's output** (`process_yolov8_detections`). For
  each anchor of a `[1, 4 + C, N]` tensor it takes the best class score. It keeps
  the anchor when that score reaches the confidence floor and the first class index
  attaining it is below the length of the class list. The class name at that index
  must then be a label's wire string; any other name aborts the whole call. The
  centre-format box is converted to corners in original-image pixels, divided by
  the resize scale and rounded.
- **Greedy class-aware non-maximum suppression** (`apply_nms`) and the integer-box
  **IoU** (`calculate_iou`) it uses.
- **The class-name list** (`load_classes`): the class file's lines, stripped, with
  empty lines dropped.
- **Image preprocessing**:
  - the size policy of the two modes
  - the uniform resize scale
  - the interleaved-to-planar tensor layout (`to_rgb_nchw`)
  - the division by 255
- **The result types**: the eighteen-label enum with its wire strings, the
  immutable `Detection` record, and its `to_h` and `to_s` renderings.

Files, one module each:

| file | module | what it models |
|---|---|---|
| `wrappers.dfy` | `Wrappers` | `Option` and `Result` |
| `detection.dfy` | `Detections` | labels, `Detection`, `to_h`, `to_s` |
| `iou.dfy` | `Iou` | `calculate_iou` |
| `nms.dfy` | `Nms` | `apply_nms` |
| `decoder.dfy` | `Decoder` | `min_prob` default, `process_yolov8_detections` |
| `classes.dfy` | `ClassList` | the filter in `load_classes` |
| `preprocessor.dfy` | `Preprocessor` | `resize_image` scale, `to_rgb_nchw`, `preprocess` |

How Ruby constructs are modelled:

- Floats are Dafny `real`s.
- Ruby's `Float#round` is written out as round-half-away-from-zero.
- Two of the places where Ruby raises are error results:
  - an unknown class name in `DetectionLabel.deserialize` gives `Failure(UnknownLabel(name))`
  - a pixel buffer of the wrong size in `reshape` gives `Failure(ShapeMismatch)`
- `Float#round` also raises on an infinite or NaN coordinate. The model excludes
  that case: it requires a positive scale and uses reals (see the scale and
  float lines under "## Left out").
- `apply_nms` and `process_yolov8_detections` are methods with loops. Each is
  proved against a specification function:
  - `Nms.Greedy` over `Nms.SortByScore`
  - `Decoder.DecodeAll`
- `to_rgb_nchw` allocates a `[3, H, W]` `array3` and fills each plane in place.

Ruby's `sort_by` is not stable, so the source leaves the order of equal scores
open. `Nms.SortByScore` is one stable sort: equal scores keep their input order,
which fixes which of two tied, overlapping detections is kept
(`Nms.TiedOverlapKeepsFirst`). The lemmas about the result of `apply_nms`
(`Nms.NmsKeepsOnlyInput`, `Nms.NmsOrder`, `Nms.NmsSuppression`) are stated for
every score-descending permutation of the input, so they hold for whatever order
Ruby's sort produces.

In fast mode a 1000 x 500 image gets scale 0.32 = 320 / 1000, because 1000 * 0.64
exceeds 320 (`image_preprocessor.rb:62-66`, `Preprocessor.FastScaleExample`).

## Model

| member | source | states |
|---|---|---|
| `Detections.Serialize` | lib/nudenet/detection.rb:7-26 | each label's wire string as the enum declares it; pairwise distinct (`SerializeInjective`) and inverted by `Deserialize` (`DeserializeSerialize`, `DeserializeIff`) |
| `Detections.Deserialize` | lib/nudenet/detection.rb:7-26 | the label whose wire string is given, or none where the enum raises; characterised by `DeserializeIff` |
| `Detections.ToH` | lib/nudenet/detection.rb:48-50 | the hash keeps box and score and carries the label's wire string; nothing is lost (`ToHInjective`) |
| `Detections.ToS` | lib/nudenet/detection.rb:43-45 | the inspection text: its frame and quoted label by `ToSShowsLabel`, its coordinates by `IntToStringValue` |
| `Detections.FindLabel` | lib/nudenet/detection.rb:7-26 | a label is found only if its wire string is the given one; none is found only if no label in the list has that wire string |
| `Detections.Coords` | lib/nudenet/detection.rb:33-34 | a box is stored as four integer coordinates |
| `Detections.NatToString` | lib/nudenet/detection.rb:44 | the decimal rendering of a coordinate is non-empty, made of digits only, and starts with '0' only for 0 (no leading zero) |
| `Detections.NatToStringValue` | lib/nudenet/detection.rb:44 | the digits of that rendering denote the number rendered |
| `Detections.IntToStringValue` | lib/nudenet/detection.rb:44 | `Integer#to_s` of a coordinate starts with a minus sign exactly when it is negative, followed by digits denoting its magnitude, with no leading zero |
| `Detections.AllLabelsComplete` | lib/nudenet/detection.rb:7-26 | the enum has exactly eighteen values and the list of all labels contains each of them |
| `Detections.SerializeInjective` | lib/nudenet/detection.rb:7-26 | the eighteen wire strings are pairwise distinct |
| `Detections.DeserializeSerialize` | lib/nudenet/detection.rb:7-26 | deserializing a label's wire string gives back that label |
| `Detections.DeserializeIff` | lib/nudenet/detector.rb:208 | deserialization yields label l exactly for l's wire string, so every other string is rejected |
| `Detections.ToHInjective` | lib/nudenet/detection.rb:48-50 | `to_h` loses nothing: detections with equal hashes are equal (box and score are kept, the label becomes its wire string) |
| `Detections.ToSShowsLabel` | lib/nudenet/detection.rb:43-45 | `to_s` starts with `#<NudeNet::Detection box=` and ends with the label's wire string in quotes followed by `>` |
| `Detections.InspectFrame` | lib/nudenet/detection.rb:44 | the inspection string has that prefix and suffix whatever the box and score texts are |
| `Iou.CalculateIou` | lib/nudenet/detector.rb:257-285 | the IoU of two integer boxes with the zero-union guard; symmetric, 1 for a box with itself, 0 for separated boxes, within [0, 1] (`IouSymmetric`, `IouSelf`, `IouDisjoint`, `IouBounds`, `UnionZeroIff`) |
| `Iou.IouSymmetric` | lib/nudenet/detector.rb:257-285 | IoU does not depend on argument order |
| `Iou.IouSelf` | lib/nudenet/detector.rb:257-285 | a well-formed box with positive area has IoU 1 with itself |
| `Iou.IouSelfInverted` | lib/nudenet/detector.rb:278-282 | because the area is signed, a box inverted on both axes has positive area yet IoU 0 with itself |
| `Iou.IouDisjoint` | lib/nudenet/detector.rb:258-266 | boxes apart on either axis (touching edges included) have IoU 0, because the intersection width and height are clamped at zero |
| `Iou.IntersectionWithin` | lib/nudenet/detector.rb:258-266 | the clamped intersection area never exceeds the area of a well-formed box |
| `Iou.IouBounds` | lib/nudenet/detector.rb:264-284 | IoU lies in [0, 1] for every pair of boxes, inverted ones from a negative width or height included |
| `Iou.UnionZeroIff` | lib/nudenet/detector.rb:278-282 | for well-formed boxes the zero-union guard fires exactly when both boxes have zero area |
| `Nms.Suppresses` | lib/nudenet/detector.rb:243-249 | the `reject!` test: same label and IoU strictly above the threshold; symmetric (`SuppressesSymmetric`) |
| `Nms.Greedy` | lib/nudenet/detector.rb:237-252 | what the `while` loop computes from a candidate list; proved a sub-multiset (`GreedySubset`), sorted (`GreedySorted`), free of suppressible pairs (`GreedyNoSuppressedPair`) and accounting for every drop (`GreedyAccountsForDrops`) |
| `Nms.Insert` | lib/nudenet/detector.rb:234 | inserting into a score-descending run keeps it descending and adds exactly that detection |
| `Nms.SortByScore` | lib/nudenet/detector.rb:234 | the sorted candidates are score-descending and a permutation of the input |
| `Nms.Survivors` | lib/nudenet/detector.rb:243-249 | `reject!` leaves a sub-multiset of the candidates, no longer than they were |
| `Nms.SurvivorsNotSuppressed` | lib/nudenet/detector.rb:243-249 | no survivor has the kept detection's label together with IoU above the threshold |
| `Nms.SurvivorsKeepOthers` | lib/nudenet/detector.rb:243-249 | every candidate with another label, or with IoU at most the threshold, survives |
| `Nms.SurvivorsSorted` | lib/nudenet/detector.rb:243-249 | rejecting in place keeps the score order of what remains |
| `Nms.GreedySubset` | lib/nudenet/detector.rb:237-252 | the loop keeps only candidates it was given, each at most as often, so it keeps no more than it had |
| `Nms.GreedySorted` | lib/nudenet/detector.rb:237-252 | kept detections come out score-descending when the candidates are sorted |
| `Nms.SuppressesSymmetric` | lib/nudenet/detector.rb:245-248 | suppression between two detections does not depend on which one is kept |
| `Nms.GreedyNoSuppressedPair` | lib/nudenet/detector.rb:237-252 | no two kept detections of the same label have IoU above the threshold |
| `Nms.GreedyAccountsForDrops` | lib/nudenet/detector.rb:237-252 | a sorted candidate is missing from the result only when a kept detection of its label, scoring at least as high, overlaps it by more than the threshold |
| `Nms.NmsKeepsOnlyInput` | lib/nudenet/detector.rb:234-252 | for every score-descending permutation of the input, the result is a sub-multiset of the input and no longer than it |
| `Nms.NmsOrder` | lib/nudenet/detector.rb:234-240 | for every score-descending permutation of the input, the result is score-descending and, for a non-empty input, opens with the highest input score |
| `Nms.NmsSuppression` | lib/nudenet/detector.rb:243-249 | for every score-descending permutation of the input, no suppressible pair is kept, and every dropped input detection was suppressed by a kept one of its label scoring at least as high |
| `Nms.ApplyNms` | lib/nudenet/detector.rb:230-253 | returns an empty input unchanged; otherwise the loop computes the greedy selection over the score-sorted input, which is sorted, a sub-multiset, led by the maximum score, free of suppressible pairs and accounts for every drop |
| `Nms.HalfOverlapPair` | lib/nudenet/detector.rb:234 | the example pair, scores 0.8 then 0.9, sorts to 0.9 first |
| `Nms.HalfOverlapIou` | lib/nudenet/detector.rb:257-285 | the example boxes [0,0,4,1] and [0,0,2,1] have IoU exactly 0.5 |
| `Nms.HalfOverlapSuppressedAt045` | lib/nudenet/detector.rb:225 | at the decoder's threshold 0.45 an IoU of 0.5 drops the lower-scoring box |
| `Nms.HalfOverlapKeptAt06` | lib/nudenet/detector.rb:248 | at threshold 0.6 the same pair is kept, since only IoU strictly above the threshold suppresses |
| `Nms.TiedOverlapKeepsFirst` | lib/nudenet/detector.rb:234-249 | the model's sort keeps equal scores in input order, so of two tied boxes with IoU 0.75 the first one given is kept |
| `Decoder.EffectiveMinProb` | lib/nudenet/detector.rb:31-32 | an absent confidence floor means 0.25; a given one is used as it is |
| `Decoder.Round` | lib/nudenet/detector.rb:212-215 | Ruby's `Float#round`; nearest integer (`RoundIsNearest`), halves away from zero (`RoundHalfAwayFromZero`), monotone (`RoundMonotone`) |
| `Decoder.RoundIsNearest` | lib/nudenet/detector.rb:212-215 | the rounded coordinate is within half a pixel of its argument |
| `Decoder.RoundHalfAwayFromZero` | lib/nudenet/detector.rb:212-215 | exact halves round away from zero, as Ruby's `Float#round` does |
| `Decoder.RoundMonotone` | lib/nudenet/detector.rb:212-215 | rounding never reverses the order of two values |
| `Decoder.MaxOf` | lib/nudenet/detector.rb:199 | the maximum class score is one of the scores and no score exceeds it |
| `Decoder.FirstIndexOf` | lib/nudenet/detector.rb:202 | the index found holds the value and no earlier position does; no index means the value is absent |
| `Decoder.FirstIndexOfMax` | lib/nudenet/detector.rb:199-202 | looking up the maximum always succeeds and gives the first position of the maximum, so the nil branch never fires |
| `Decoder.FirstArgMaxUnique` | lib/nudenet/detector.rb:199-202 | ties are broken one way only: the first arg-max is unique |
| `Decoder.CornerBox` | lib/nudenet/detector.rb:210-215 | centre format to rescaled, rounded corners; ordered corners for non-negative sizes (`CornerBoxWellFormed`), each within half a pixel (`CornerBoxWithinHalfPixel`) |
| `Decoder.CornerBoxWellFormed` | lib/nudenet/detector.rb:212-215 | non-negative width and height with a positive scale give x1 <= x2 and y1 <= y2 |
| `Decoder.CornerBoxWithinHalfPixel` | lib/nudenet/detector.rb:212-215 | each corner is within half a pixel of the exact rescaled corner |
| `Decoder.DecodeAnchor` | lib/nudenet/detector.rb:188-221 | the loop body for one anchor; its three outcomes are characterised by `DecodeAnchorEmitIff`, `DecodeAnchorSkipIff` and `DecodeAnchorUnknownClass` |
| `Decoder.DecodeAnchorEmitIff` | lib/nudenet/detector.rb:196-221 | an anchor yields detection d exactly when d's score is the anchor's maximum class score, at the first index k attaining it, with k inside the class list, the score at least the floor, d's label the one named `classes[k]` and d's box the rescaled corners |
| `Decoder.DecodeAnchorSkipIff` | lib/nudenet/detector.rb:199-203 | an anchor is skipped exactly when its best score is below the floor or its first arg-max index is past the end of the class list |
| `Decoder.DecodeAnchorUnknownClass` | lib/nudenet/detector.rb:205-208 | an anchor aborts the call only on a listed class name that is no label's wire string |
| `Decoder.AnchorRow` | lib/nudenet/detector.rb:182-196 | row i of the transposed tensor holds feature f of anchor i at position f |
| `Decoder.AnchorOutcomes` | lib/nudenet/detector.rb:188-222 | there is one outcome per anchor, the anchor's own |
| `Decoder.CollectFailureSticks` | lib/nudenet/detector.rb:208 | once an anchor has raised, later anchors do not change the outcome |
| `Decoder.Collect` | lib/nudenet/detector.rb:188-222 | the candidates the loop accumulates, or the error of the anchor that raised; related to the filter `Emitted` by `CollectCandidates` and `CollectFailure` |
| `Decoder.DecodeAll` | lib/nudenet/detector.rb:188-222 | the candidates of the whole tensor before suppression; described by `DecodeAllProperties` |
| `Decoder.EmittedAppend` | lib/nudenet/detector.rb:188-222 | the emitted detections of two runs of anchors are those of the first followed by those of the second |
| `Decoder.EmittedMembers` | lib/nudenet/detector.rb:188-222 | there are no more emitted detections than anchors; a detection is emitted exactly when some anchor emits it |
| `Decoder.CollectCandidates` | lib/nudenet/detector.rb:188-222 | the loop over anchors completes exactly when no anchor raises, and its candidates are then the emitted detections, one per emitting anchor, in anchor order |
| `Decoder.CollectFailure` | lib/nudenet/detector.rb:208 | a failure carries the name of the first anchor that raises |
| `Decoder.DecodeAllProperties` | lib/nudenet/detector.rb:188-222 | decoding fails exactly when some anchor raises, and then with the first such anchor's name, a listed class that is no label; otherwise the candidates are the emitted detections in anchor order, at most as many as anchors |
| `Decoder.ProcessYolov8Detections` | lib/nudenet/detector.rb:177-226 | fails exactly when some anchor's class name is not a label, with the first such name; otherwise returns the greedy suppression at threshold 0.45 of the emitted detections in anchor order |
| `Decoder.EmittedCandidateFacts` | lib/nudenet/detector.rb:199-221 | an emitted candidate's score is the anchor's maximum and at least the floor, and its label's wire string is in the class list |
| `Decoder.ResultsMeetFloor` | lib/nudenet/detector.rb:199-225 | every detection a successful call returns reaches the floor and has a label named in the class list |
| `ClassList.Strip` | lib/nudenet/detector.rb:131 | `String#strip`; characterised by `StripSpec` |
| `ClassList.RejectEmpty` | lib/nudenet/detector.rb:131 | `reject(&:empty?)`; keeps order (`RejectEmptyAppend`) and exactly the non-empty strings (`RejectEmptyMembers`) |
| `ClassList.ParseClasses` | lib/nudenet/detector.rb:131 | the class list from the file's lines; described by `ParseClassesMembers`, `ParseClassesTrimmed` and `ParseClassesAppend` |
| `ClassList.StripAll` | lib/nudenet/detector.rb:131 | one stripped string per line, in line order |
| `ClassList.StripLeadingSpec` | lib/nudenet/detector.rb:131 | the leading strip removes exactly the whitespace prefix |
| `ClassList.StripTrailingSpec` | lib/nudenet/detector.rb:131 | the trailing strip removes exactly the whitespace suffix |
| `ClassList.StripSpec` | lib/nudenet/detector.rb:131 | `strip` keeps a contiguous stretch with only whitespace outside it and, unless empty, no whitespace at its ends |
| `ClassList.RejectEmptyAppend` | lib/nudenet/detector.rb:131 | dropping empty strings distributes over concatenation, so the file order is kept |
| `ClassList.ParseClassesAppend` | lib/nudenet/detector.rb:131 | the class list of two stretches of lines is the first's list followed by the second's |
| `ClassList.RejectEmptyMembers` | lib/nudenet/detector.rb:131 | dropping empties keeps exactly the non-empty strings and never lengthens the list |
| `ClassList.ParseClassesMembers` | lib/nudenet/detector.rb:131 | a name is a class exactly when it is non-empty and is the stripped form of some line; there are never more classes than lines |
| `ClassList.ParseClassesTrimmed` | lib/nudenet/detector.rb:131 | no class name is empty or begins or ends with whitespace |
| `Preprocessor.SizePolicy` | lib/nudenet/image_preprocessor.rb:57 | (min_side, max_side) = (320, 320) for fast mode and (800, 1333) for every other mode; used by `ResizeScaleIsMinOfRatios` and `FastScaleFromLongerSide` |
| `Preprocessor.ResizeScale` | lib/nudenet/image_preprocessor.rb:56-66 | the conditional reassignment of `scale`; characterised by `ResizeScaleIsMinOfRatios`, `ResizeScaleBounds` and `ResizeScaleIsLargestAllowed` |
| `Preprocessor.ResizeScaleIsMinOfRatios` | lib/nudenet/image_preprocessor.rb:57-66 | the scale is the smaller of min_side / smallest_side and max_side / largest_side for the mode's policy: 320/320 for fast, 800/1333 otherwise |
| `Preprocessor.ResizeScaleBounds` | lib/nudenet/image_preprocessor.rb:62-66 | for positive sizes the scale is positive, the longer side ends at most max_side and the shorter side at most min_side |
| `Preprocessor.ResizeScaleIsLargestAllowed` | lib/nudenet/image_preprocessor.rb:62-66 | any larger factor breaks one of the two limits |
| `Preprocessor.FastScaleFromLongerSide` | lib/nudenet/image_preprocessor.rb:57-66 | in fast mode the scale is 320 over the longer side |
| `Preprocessor.FastScaleExample` | lib/nudenet/image_preprocessor.rb:57-66 | a 1000 x 500 image in fast mode is scaled by 0.32 |
| `Preprocessor.HwcIndex` | lib/nudenet/image_preprocessor.rb:84-85 | the flat position (y * W + x) * 3 + c of a sample after `reshape(H, W, 3)`; a bijection onto the buffer (`HwcIndexInRange`, `HwcIndexInjective`, `HwcIndexOnto`) |
| `Preprocessor.HwcIndexInRange` | lib/nudenet/image_preprocessor.rb:84-85 | every sample (y, x, c) of an H x W x 3 image lies inside the buffer |
| `Preprocessor.RowStart` | lib/nudenet/image_preprocessor.rb:84-85 | pixel rows of the interleaved buffer do not overlap |
| `Preprocessor.HwcIndexInjective` | lib/nudenet/image_preprocessor.rb:84-85 | distinct samples sit at distinct buffer positions |
| `Preprocessor.HwcIndexOnto` | lib/nudenet/image_preprocessor.rb:84-85 | every buffer position holds some sample, so the reshape is a bijection |
| `Preprocessor.Sample` | lib/nudenet/image_preprocessor.rb:84-86 | a sample cast from an unsigned byte lies in [0, 255] |
| `Preprocessor.CopyPlane` | lib/nudenet/image_preprocessor.rb:91-93 | plane c of the tensor receives sample c of every pixel, and the other planes are unchanged |
| `Preprocessor.ToRgbNchw` | lib/nudenet/image_preprocessor.rb:74-96 | fails exactly when the buffer is not H x W x 3 bytes; otherwise returns a new [3, H, W] tensor with chw[c][y][x] == hwc[y][x][c] |
| `Preprocessor.Normalize` | lib/nudenet/image_preprocessor.rb:37 | a new tensor of the same shape with every element divided by 255 |
| `Preprocessor.Preprocess` | lib/nudenet/image_preprocessor.rb:28-40 | returns the resize scale of the original size and the planar tensor divided by 255, every element in [0, 1]; fails only on a buffer of the wrong size |

## Left out

- The thread-local session cache and the double-checked locking around the class
  list (`detector.rb:82-135`, apart from line 131). Their point is concurrency.
- ONNX session creation, `session.run` and the batch `reshape` in `run_inference`
  (`detector.rb:100-111`, `145-167`). These are foreign calls. The output tensor is
  an input of `Decoder.ProcessYolov8Detections`.
- Image loading, decoding and the bilinear resize of the image library
  (`image_preprocessor.rb:18-26`, `45-53`, `69`, `80`). The resized width, height
  and pixel bytes are inputs of `Preprocessor.Preprocess`.
- Reading the class file and checking that it exists. The lines are given to
  `ClassList.ParseClasses`.
- Timing and debug logging in `detect_from_path` and `detect_from_binary`.
- Floating-point arithmetic, NaN and its ordering: Numo's 32-bit `SFloat` tensors
  and Ruby's 64-bit `Float` (the `to_f` division in `calculate_iou`, the corner
  arithmetic of `process_yolov8_detections`, the scale of `resize_image`). All
  values are reals.
- The text of `score.round(3)` in `to_s`. That text is a parameter of
  `Detections.ToS`.
- Decoder.ProcessYolov8Detections requires `scale > 0`. With a zero scale the
  source divides by 0.0 and `round` raises on the infinite or NaN result; that path is
  not modelled.
- Decoder.ProcessYolov8Detections requires at least one class channel (five
  feature rows or more). The behaviour of `max` over an empty score vector is not
  modelled.
- Nms.ApplyNms commits to a stable sort, with equal scores in input order. Ruby's
  `sort_by` is not stable, so the source may order ties, and choose between tied
  overlapping boxes, differently. The lemmas about the result hold for every
  score-descending order.
- `lib/nudenet.rb` only delegates to the detector. `lib/nudenet/types.rb` only
  declares the two modes, which appear here as `Preprocessor.Mode`. Neither is
  part of this model.
- Ruby's `strip` removes NUL only at the end of a string in some Ruby versions.
  The model strips NUL at both ends, like the other whitespace characters.
