# Face overlay: a Dafny model of its core

This project models the integer and geometric bookkeeping of a face-overlay
pipeline written in Python with OpenCV, and proves properties of that
model. It also models the pipeline's two small data tools. The parts
modelled are:

- **Box suppression** (`face.py`): greedy non-maximum suppression of
  detector boxes, the dlib rectangle conversion, and the padding and
  clamping of a kept box.
- **Face selection and rescaling** (`faceLandmarkPredictor.py`): picking one
  face among the detected boxes and rescaling the landmark network's output
  into frame coordinates.
- **Batch overlay** (`backend/overlay_processor.py`): the frame-rate
  fallback and the codec search. For every frame it places the rotated mask
  relative to the eyes and the nose tip, clips it to the frame and
  alpha-blends it in place.
- **Interactive preview** (`overlay.py`): the same overlay with the
  landmark-dot mode, the warning path and the `m`/`q` keys.
- **Evaluation** (`evaluate.py`): parsing the CelebA landmark list, pairing
  annotations with predictions, counting detection failures and computing
  the failure rate.
- **Manual annotation** (`landmarks_detection.py`): the click and key
  session that collects five landmarks per image.

Layout: one module per source file (`Face`, `LandmarkPredictor`,
`OverlayProcessor`, `OverlayPreview`, `Evaluate`, `Annotation`), plus three
shared modules:

- `Common`: option and result types, Python's truncating `int()` on a float,
  and ratio and pigeonhole lemmas.
- `Text`: `str.split()`, `int()` on a token, `str.endswith` with a tuple,
  and `sorted` on names.
- `Compositing`: the placement, clipping and blending block that both
  overlay scripts contain.

Mutable state keeps the form it has in the source:

- A video frame is an `array2<Bgr>` that the blend and the drawing calls
  overwrite in place.
- The network's output is an `array<Point>` rescaled in place.
- The annotation tool's globals are the fields of a `Session` class.
- Each loop is a `while`/`for` loop whose contract ties its result to a
  specification:
  - Recursive specification functions, with lemmas stating the source's
    promises about them, for `Face.PickLoop` (`Picks`),
    `OverlayProcessor.ChooseCodec` (`FirstOpening`) and
    `OverlayProcessor.ProcessFrames` (`Rendered`). The same holds for
    `OverlayPreview.RunPreview` (`RunFor`), `Evaluate.ParseLandmarkFile`
    (`Parsed`, that is `FoldLines` over the body lines) and the failure
    count of `Evaluate.EvaluateModel` (`CountFailures`).
  - `Annotation.KeyLoop` against the replay function `Clicked` and the
    predicate `LoopEnds`, which fixes the first event that stops the loop.
  - Direct quantified postconditions over every element for
    `Face.DlibBoxes`, `Evaluate.GtPredPairs`,
    `LandmarkPredictor.RescaleInPlace` and the NME list of
    `Evaluate.EvaluateModel`.
  - Non-recursive functions on frame values for the two in-place pixel
    loops: `Compositing.CompositeFrame` for `Compositing.BlendRegion`, and
    `OverlayPreview.Painted` for `OverlayPreview.PaintInPlace`.
  - The predicate `Committed` and the loop ends `LoopEnds` for
    `Annotation.VisitFiles`.

Everything outside the program's own logic is a parameter:

- the video decoder (frames as values);
- the codec availability (`opens`);
- the landmark predictor (`predict`);
- the resize-and-rotate of the mask (`warp`);
- the text and circle rasterisers (`glyph`, `disk`);
- the file system (`onDisk`, the directory listing);
- the NME of one sample (`nme`);
- the Euclidean norm (`norm`);
- the landmark network (`estimate`);
- the window events (a stream of `Event`s).

## Model

| member | source | states |
|---|---|---|
| Common.Trunc | face.py:121-124 | `int()` on a float rounds toward zero: at most the value and within one of it for non-negative values, at least the value and within one of it for negative ones |
| Common.TruncAboveFloorForNegatives | backend/overlay_processor.py:93-95 | for a negative non-integer anchor, `int()` gives one more than the floor |
| Common.InjectiveCovers | face.py:25 | a permutation of `0..n-1` (what `argsort` returns) contains every index below `n` |
| Text.Words | evaluate.py:86 | every word `split()` yields is non-empty and contains no whitespace |
| Text.WordsJoinSpaced | evaluate.py:86 | `split()` undoes joining non-empty whitespace-free words with single spaces |
| Text.ParseInt | evaluate.py:88 | `int(token)` succeeds exactly on an optional sign followed by one or more decimal digits |
| Text.ParseIntShowInt | evaluate.py:88 | every integer written in decimal parses back to itself |
| Text.KeepSuffixed | evaluate.py:66 | the filter keeps exactly the names with one of the suffixes, adds none and introduces no duplicates |
| Text.LexTotal | evaluate.py:66 | any two names are comparable under Python's string order |
| Text.LexTransitive | evaluate.py:66 | Python's string order is transitive |
| Text.Insert | evaluate.py:66 | inserting into a sorted list keeps it sorted and adds exactly that element |
| Text.Sort | evaluate.py:66 | `sorted` returns a sorted permutation of its input |
| Text.ImageFiles | evaluate.py:66 | the evaluated files are exactly the listed names ending in a suffix, sorted, and without duplicates when the listing has none |
| Face.Intersection | face.py:31-37 | the overlap area is non-negative and never exceeds the second box's area |
| Face.IntersectionSymmetric | face.py:31-37 | the overlap area of two boxes does not depend on their order |
| Face.Overlap | face.py:39 | the ratio (overlap over the other box's own area, not the union) lies in [0, 1] |
| Face.Suppresses | face.py:39-42 | holds exactly when the overlap ratio of `other` under `keep` exceeds the threshold, the `overlap > overlapThresh` that deletes an entry |
| Face.SuppressionThresholds | face.py:39-42 | nothing is suppressed at a threshold of 1 or more, and everything is suppressed at a negative threshold |
| Face.ContainedBoxSuppressed | face.py:39-42 | a box inside the kept box is always suppressed for a threshold below 1, whatever their size ratio |
| Face.Survivors | face.py:41-42 | a deletion round never grows the pool and keeps its indices valid |
| Face.SurvivorsMembers | face.py:39-42 | a pool entry survives a round exactly when the picked box does not suppress it |
| Face.SurvivorsDistinct | face.py:41-42 | deletion keeps the pool duplicate-free |
| Face.SurvivorsSorted | face.py:41-42 | deletion keeps the pool ordered by `y2` |
| Face.SurvivorsKeepOrder | face.py:41-42 | deletion keeps the surviving entries in their pool order |
| Face.Picks | face.py:25-42 | the greedy picks of a pool in pick order: the pool's last index, then the picks of the pool left once that index and every entry it suppresses are deleted |
| Face.PicksInPool | face.py:28-29 | every pick is an index of the pool |
| Face.PicksDistinct | face.py:28-29 | no index is picked twice, and there are at most as many picks as boxes |
| Face.LastHasLargestY2 | face.py:25-28 | the entry taken from a `y2`-sorted pool has the pool's largest `y2` |
| Face.PicksNonIncreasingY2 | face.py:25-29 | picks come out in non-increasing `y2` order |
| Face.PicksReversePoolOrder | face.py:25-42 | picks come out in the reverse of the pool order: of two picked entries, the one later in the pool is picked first, so among equal `y2` the later `argsort` index wins |
| Face.PicksNotSuppressed | face.py:39-42 | no later pick is suppressed by an earlier pick |
| Face.UnpickedAreSuppressed | face.py:39-42 | every pool entry that is not picked was suppressed by some pick |
| Face.EveryBoxUnpickedIsSuppressed | face.py:25-42 | over the whole `argsort` order, every input box that is not kept is suppressed by a kept box |
| Face.PickLoop | face.py:27-42 | the shrinking-pool loop collects exactly the picks of the specification; the pool strictly shrinks each round, so the loop terminates |
| Face.Gather | face.py:44 | `boxes[pick]` has one box per index, the box at that index, in index order |
| Face.KeptBoxes | face.py:27-44 | the kept boxes number exactly the picks |
| Face.KeptBoxesProperties | face.py:25-44 | at most one kept box per input box, each the box of its pick. Picks never repeat and come in non-increasing `y2` order, in the reverse of the `argsort` order, so among equal `y2` the later index is picked first. No kept box suppresses a later one, and every box not picked is suppressed by a kept box |
| Face.NonMaxSuppression | face.py:10-48 | empty input gives no boxes and zero counts. The result is exactly the kept boxes of the greedy specification, and `kept + removed` equals the input count |
| Face.DlibBoxes | face.py:61-70 | one box per rectangle, in order, with the rectangle's four edges |
| Face.PaddedBox | face.py:118-128 | the stored box starts at non-negative coordinates and ends inside the image. It is never wider or taller than 1.2 times the face, and its size is non-negative when its corner is inside the image |
| Face.PaddedBoxCovers | face.py:119-128 | a face of at least 20 pixels per side that lies in the image is fully covered by its padded box |
| LandmarkPredictor.Score | faceLandmarkPredictor.py:29-33 | `face_score`: the distance of the box centre from the image centre (integer-halved), minus 0.01 times the box area |
| LandmarkPredictor.SelectFaceIndex | faceLandmarkPredictor.py:25-35 | `min` returns a box with the smallest score, and the first one among equal minima |
| LandmarkPredictor.SelectFace | faceLandmarkPredictor.py:35 | the chosen box is one of the detected boxes, and no other box scores lower |
| LandmarkPredictor.EqualAreaCloserWins | faceLandmarkPredictor.py:29-35 | of two boxes with equal area, the one farther from the image centre is never the one chosen |
| LandmarkPredictor.ToFrame | faceLandmarkPredictor.py:52-54 | a network point scaled by the box's width and height, then shifted by its corner |
| LandmarkPredictor.ToFrameInsideBox | faceLandmarkPredictor.py:52-54 | a landmark the network puts inside its crop lands inside the selected box |
| LandmarkPredictor.ToFrameInvertible | faceLandmarkPredictor.py:52-54 | the rescaling is invertible for a box of positive size |
| LandmarkPredictor.RescaleInPlace | faceLandmarkPredictor.py:52-54 | `output *= [w, h]; output += [x, y]` turns every point into `p * (w, h) + (x, y)` |
| LandmarkPredictor.Predict | faceLandmarkPredictor.py:37-55 | no face is returned exactly when nothing was detected. Otherwise the box is the selected face and every landmark is the network's point rescaled into it |
| Compositing.Mix | backend/overlay_processor.py:114-117 | alpha 255 gives the mask value and alpha 0 the frame value; the result always lies between the two |
| Compositing.BlendPixel | backend/overlay_processor.py:114-117 | corrected blend: an opaque mask pixel shows its own colour in BGR order, and a transparent one leaves the frame pixel |
| Compositing.BlendPixelAsWritten | backend/overlay_processor.py:114-117 | blend as written: an opaque mask pixel's red lands in the frame's blue channel and its blue in the red |
| Compositing.AsWrittenSwapsRedAndBlue | overlay.py:119-122 | the blend as written equals the corrected blend of the mask with red and blue exchanged |
| Compositing.SwapMask | backend/overlay_processor.py:114-117 | the mask of the same size with red and blue exchanged in every pixel |
| Compositing.CompositeFrameAsWrittenSwapsMask | backend/overlay_processor.py:114-117 | a whole frame blended as written equals the intended composite of the red/blue-exchanged mask |
| Compositing.OpaqueRedComesOutBlue | backend/overlay_processor.py:20-21 | an opaque red mask pixel comes out pure blue as written, and pure red in the corrected blend |
| Compositing.Place | backend/overlay_processor.py:93-99 | the placement has the rotated mask's size, is centred on the eyes' midpoint (half a column off for an odd width), and has its top edge within one pixel of 80% of the mask height above the nose |
| Compositing.NoseInsideMask | backend/overlay_processor.py:95-99 | a mask at least five rows tall covers the nose tip's row |
| Compositing.ClipToFrame | backend/overlay_processor.py:102-107 | the clipped rectangle holds exactly the frame pixels under the mask and lies inside the frame. It is non-empty exactly when the mask overlaps the frame, and the mask crop starts at `(x1c - x1, y1c - y1)` within the mask |
| Compositing.CompositeFrame | backend/overlay_processor.py:111-117 | the blended frame has the same shape, and each pixel is blended exactly where the clip covers it |
| Compositing.CompositeKeepsUncovered | backend/overlay_processor.py:111-117 | pixels outside the clip, and pixels under fully transparent mask pixels, keep their colour |
| Compositing.BlendRegion | backend/overlay_processor.py:111-117 | the in-place slice assignment blends exactly the clipped rectangle of the frame array and leaves every other pixel |
| Compositing.Snapshot | backend/overlay_processor.py:45 | the value of a frame array has its shape and its pixels |
| Compositing.Load | backend/overlay_processor.py:45 | a decoded frame arrives in a fresh array holding exactly that frame |
| Compositing.PlanOverlay | backend/overlay_processor.py:93-110 | there is nothing to blend exactly when the placed mask misses the frame. Otherwise the mask is the warp of the two eyes and the clip fits both the mask and the frame |
| Compositing.ApplyPlan | backend/overlay_processor.py:110-117 | the frame array becomes the composited frame, or stays unchanged when there is nothing to blend |
| OverlayProcessor.Fps | backend/overlay_processor.py:26 | the frame rate is the reported one when it is non-zero and 24 when it is 0, so it is never 0 |
| OverlayProcessor.FirstOpening | backend/overlay_processor.py:32-39 | the first codec that opens is found, with every earlier codec failing to open; there is none exactly when no codec opens |
| OverlayProcessor.ChooseCodec | backend/overlay_processor.py:32-41 | the loop binds the first codec that opens, never tries a later one, and tries all five when none opens |
| OverlayProcessor.ThirdCodecChosen | backend/overlay_processor.py:32-39 | when only `H264` opens, it is chosen at position 2 after `avc1` and `mp4v` fail |
| OverlayProcessor.FrameResult | backend/overlay_processor.py:50-117 | the written frame: the decoded frame when there are no landmarks, fewer than three, or the placed mask misses the frame; otherwise the frame composited with the warped mask over the clip |
| OverlayProcessor.FrameResultChangesOnlyUnderMask | backend/overlay_processor.py:50-119 | a written frame has the decoded frame's shape. Pixels outside the placed mask keep their colour, as do all pixels of a frame with no landmarks or fewer than three |
| OverlayProcessor.ProcessFrame | backend/overlay_processor.py:49-117 | the loop body leaves the frame array as the specified result for its landmarks |
| OverlayProcessor.Rendered | backend/overlay_processor.py:44-119 | exactly one written frame per decoded frame, in order |
| OverlayProcessor.NoFaceFrameWrittenUnchanged | backend/overlay_processor.py:50-51 | a frame without a detected face is written exactly as decoded |
| OverlayProcessor.ProcessFrames | backend/overlay_processor.py:44-119 | the frame loop writes exactly the specified frames |
| OverlayProcessor.ProcessVideo | backend/overlay_processor.py:14-122 | it fails with the RuntimeError message, before any frame is read, exactly when no codec opens. Otherwise it writes every decoded frame, processed and in order, with the first codec that opens, the fallback frame rate and the capture's size |
| OverlayProcessor.ParseArgs | backend/overlay_processor.py:125-133 | exit status 1 exactly when there are not three arguments, else the three paths in order |
| OverlayPreview.KeyCode | overlay.py:130 | `& 0xFF` keeps the low byte: key codes 0..255 are unchanged and "no key" (-1) reads as 255 |
| OverlayPreview.Painted | overlay.py:124-125 | a drawing call keeps the frame's shape and changes exactly the pixels it paints |
| OverlayPreview.PaintInPlace | overlay.py:57 | drawing into the frame array leaves it as the painted frame |
| OverlayPreview.OnSomeDot | overlay.py:124-125 | a pixel is green exactly when it is on the dot of some landmark truncated to integer coordinates |
| OverlayPreview.AfterKey | overlay.py:128-135 | the written frame, a stop exactly on `q`, and `show_mask` flipped exactly on `m` |
| OverlayPreview.PreviewStep | overlay.py:48-135 | one pass of the loop body: no landmarks pass the frame through; the dot mode paints the truncated landmarks; the warning path and a mask outside the frame honour `q` but not `m`; otherwise the composited frame with both keys |
| OverlayPreview.NoLandmarksPassThrough | overlay.py:48 | with no landmarks, or an empty array, the frame is written as decoded, `q` ends the loop and `m` toggles |
| OverlayPreview.IndexMismatchWarnsAndIgnoresToggle | overlay.py:50-62 | with the mask on and fewer than three landmarks, only the warning text is drawn and `m` has no effect |
| OverlayPreview.OutsideFrameWrittenUnchanged | overlay.py:107-113 | with the mask on and the mask outside the frame, the frame is written unchanged, `q` ends the loop and `m` has no effect |
| OverlayPreview.KeysOnEveryPath | overlay.py:128-135 | on every path the loop ends exactly on `q`, and `show_mask` changes only on `m` |
| OverlayPreview.PreviewFrame | overlay.py:48-135 | the loop body on the frame array gives the specified written frame, stop flag and next `show_mask` |
| OverlayPreview.PreviewDecoded | overlay.py:42-135 | one read-process-write pass gives the specified outcome |
| OverlayPreview.RunFor | overlay.py:41-135 | never more frames written than frames read |
| OverlayPreview.StoppedStays | overlay.py:131-132 | after `q` no further frame is written |
| OverlayPreview.AllFramesWrittenWithoutQuit | overlay.py:41-135 | without `q`, every decoded frame is written |
| OverlayPreview.StopMeansQuit | overlay.py:128-132 | when the loop has stopped, `q` was read right after the last frame written |
| OverlayPreview.WrittenCountsFrames | overlay.py:42-128 | while the loop runs, one frame is written per frame read |
| OverlayPreview.RunPreview | overlay.py:41-135 | the main loop writes exactly the frames the specification gives, starting with the mask on |
| Evaluate.ParseInts | evaluate.py:88 | `list(map(int, ...))` succeeds exactly when every token is an integer, and keeps them in order |
| Evaluate.ParseLine | evaluate.py:86-88 | a blank line raises IndexError, and a line parses exactly when it has a word and every later word is an integer; otherwise ValueError. A parsed line gives the first word and the integers after it |
| Evaluate.Entry | evaluate.py:91-97 | exactly five pairs `[c0,c1] .. [c8,c9]` |
| Evaluate.Body | evaluate.py:82 | the first two lines are dropped |
| Evaluate.Step | evaluate.py:85-97 | one loop pass: the line's exception, or the dictionary unchanged for a file not on disk, an IndexError for fewer than ten integers, and otherwise the file mapped to its five pairs |
| Evaluate.FoldLines | evaluate.py:85-97 | the loop over the body lines: the first exception a line raises, or the dictionary after every line in order |
| Evaluate.StepSucceedsIff | evaluate.py:85-97 | whether a line gets through the loop body does not depend on the dictionary so far |
| Evaluate.FoldSucceedsIff | evaluate.py:85-97 | the parse succeeds exactly when every line after the header gets through the loop body |
| Evaluate.FoldKeys | evaluate.py:90-97 | the keys are exactly the existing files some line names |
| Evaluate.LastLineWins | evaluate.py:91-97 | a file's entry comes from the last line naming it |
| Evaluate.HeaderNeverParsed | evaluate.py:82 | the first two lines never influence the result |
| Evaluate.FailureSticks | evaluate.py:85-97 | the first exception raised is the result of the whole parse |
| Evaluate.ParseLandmarkFile | evaluate.py:77-99 | the loop computes exactly the specified dictionary or the first exception |
| Evaluate.GtPredPairs | evaluate.py:64-75 | it succeeds exactly when every `.jpg`/`.png` file has an annotation, giving one sample per file in sorted order. Otherwise the KeyError names the first file without one |
| Evaluate.CountFailures | evaluate.py:38-40 | the failure count never exceeds the number of samples |
| Evaluate.CountFailuresExtremes | evaluate.py:38-40 | zero failures exactly when every prediction is present and non-empty, and all failures exactly when none is |
| Evaluate.ValidNmes | evaluate.py:52 | one valid NME per entry that is not NaN |
| Evaluate.ValidNmesMembers | evaluate.py:52 | the valid NMEs are exactly the numbers among the entries |
| Evaluate.ValidNmesAppend | evaluate.py:52 | the mask keeps order: filtering a concatenation concatenates the filtered parts |
| Evaluate.ValidNmesSingle | evaluate.py:52 | a number is kept and a NaN is dropped |
| Evaluate.ValidPlusFailuresAtMostAll | evaluate.py:38-52 | valid NMEs plus detection failures never exceed the number of samples |
| Evaluate.EvaluateModel | evaluate.py:30-49 | one NME entry per pair (NaN for a failed detection), and the failure count equals the number of pairs whose prediction is None or empty |
| Evaluate.CountAbove | evaluate.py:27 | the count is 0 exactly when no value exceeds the threshold and the total exactly when all do |
| Evaluate.CountAboveMonotone | evaluate.py:27 | a higher threshold never counts more values |
| Evaluate.FailureRate | evaluate.py:26-27 | the rate is undefined (NaN) exactly for no values and otherwise lies in [0, 1] |
| Evaluate.FailureRateExtremes | evaluate.py:26-27 | the rate is 0 exactly when no value exceeds the threshold, and 1 exactly when all do |
| Evaluate.FailureRateMonotone | evaluate.py:26-27 | raising the threshold never raises the failure rate |
| Annotation.KeyDispatch | landmarks_detection.py:56-70 | Enter commits exactly with five points, `r` resets, Esc or `q` exits, any other key does nothing |
| Annotation.EnterNeedsAllPoints | landmarks_detection.py:58 | Enter with other than five points does nothing |
| Annotation.Session.constructor | landmarks_detection.py:11-13 | no points, no annotations, no current file, counter 0 |
| Annotation.Session.MouseCallback | landmarks_detection.py:16-21 | a left click appends a point while fewer than five are clicked; every other event leaves the state unchanged |
| Annotation.Session.BeginImage | landmarks_detection.py:44-45 | each image becomes current with an empty point list |
| Annotation.Session.SaveAnnotations | landmarks_detection.py:31-34 | the saved dictionary is the current annotations |
| Annotation.Session.HandleKey | landmarks_detection.py:56-70 | a commit stores the five pending points under the file, keeps them pending and increments the counter. A reset empties the points, an exit saves, and any other key changes nothing; at most five points and counter equal to the number of files annotated are kept |
| Annotation.ImagesToVisit | landmarks_detection.py:38 | exactly the `.jpg`/`.png`/`.jpeg` names, sorted, none twice |
| Annotation.AfterEvent | landmarks_detection.py:16-64 | one event that does not end the loop: a left click appends while fewer than five points are pending, `r` empties the points, and anything else leaves them |
| Annotation.Clicked | landmarks_detection.py:16-20 | replaying the loop's clicks and keys from at most five points never leaves more than five pending |
| Annotation.ClickedAfterReset | landmarks_detection.py:63-64 | after `r` no point is pending, and a left click with fewer than five pending appends exactly that point |
| Annotation.Stops | landmarks_detection.py:56-70 | an event ends the key loop exactly when it is Enter with five points pending, Esc or `q` |
| Annotation.LoopEnds | landmarks_detection.py:53-70 | a key loop ends with a commit or an exit on the first event that stops it, or waits when the events run out before any does |
| Annotation.LoopEndsUnique | landmarks_detection.py:53-70 | the events fix where a key loop ends and how: two ends of the same loop are the same |
| Annotation.OnEvent | landmarks_detection.py:54-70 | one pass of the loop: the action is the key chain's for a key and nothing for a mouse event, the points follow `AfterEvent`, a commit stores the pending points, an exit saves, and anything else leaves the annotations and the save |
| Annotation.KeyLoop | landmarks_detection.py:53-70 | the pending points are always those the events since the image was shown leave. The loop stops at the first event that stops it: an Enter with five points pending, which maps that file to exactly those points and changes no other entry, or an Esc or `q`, which saves. If the events run out first, nothing is stored or saved |
| Annotation.CommittedExtends | landmarks_detection.py:58-62 | committing the next file with its events adds that one entry and leaves every earlier image's points as they were |
| Annotation.VisitFiles | landmarks_detection.py:43-70 | the annotated files are a prefix of the list. Each is mapped to exactly the five points of its own key loop, which runs on from the previous one to the first Enter with five points pending. The run finishes exactly when every file is annotated. It exits exactly when the open image's key loop first stops on Esc or `q`, and then saves the annotations so far. It waits exactly when the events run out with no stop |
| Annotation.Annotate | landmarks_detection.py:38-72 | the annotated images are the first ones of the sorted list, each holding the five points of its own key loop, which ends on the first Enter with five points pending. The run completes exactly when every image is annotated, exits exactly on the first Esc or `q` of the open image's loop, and otherwise waits for more events. A run ending by exit or completion saves exactly the session's annotations, and the counter always equals the number of annotated files |

## Left out

- Floating point: Python floats are modelled as exact reals, including the constants 0.1, 1.2, 0.8, 0.01 and `alpha / 255.0`. Float rounding could move a truncated `int()` or a `uint8` cast by one where an exact result is an integer.
- Compositing.Mix: computes the truncated weighted mean exactly; the float product `alpha * mask + (1 - alpha) * frame` can fall just below an integer and truncate one lower.
- `cv2.resize`, `cv2.warpAffine` and the angle, `hypot`, scale and `rot_w`/`rot_h` arithmetic: a `warp` function from the two eye positions to the rotated mask stands in for them.
- The Haar and dlib detectors, the crop and resize before inference, and the torch network: boxes, rectangles and network outputs are inputs.
- `detect_faces_haar` is a list comprehension that copies the detector's tuples; it is left out.
- Face.NonMaxSuppression: requires every box to have positive width and height, and `order` to be an `argsort` by `y2`. A degenerate box would make numpy divide by zero, and `argsort`'s order among equal `y2` is not fixed.
- `face.py`'s `__main__` beyond the padding block is left out: the LFW download, the running totals, cropping and writing face images, and the JSON dump.
- `cv2.imshow`, `cv2.destroyAllWindows`, every `print`, the JSON writing of the annotation tool, and `display` in `evaluate.py`.
- Rasterising `putText` and `circle` is replaced by the `glyph` and `disk` parameters.
- OverlayProcessor.ProcessVideo: requires every decoded frame to have the width and height the capture reports. With a mismatch, numpy's slice assignment would raise or blend a different region.
- OverlayPreview.RunPreview: makes the same frame-size assumption as ProcessVideo.
- OverlayProcessor.ProcessVideo, OverlayProcessor.Rendered, OverlayPreview.RunPreview: `warp` is total, so every frame with a face is written. In the code, `cv2.resize` raises when `int(mask_w0 * scale)` or `int(mask_h0 * scale)` is 0 (`backend/overlay_processor.py:70-71`, `overlay.py:70-71`). That happens when `3 * eye_dist` is below 1 or below `mask_w0 / mask_h0`, for instance when the two eyes land on the same point. The exception ends the run before the remaining frames are written, and the model does not capture that abort.
- Compositing.CompositeFrame, Compositing.BlendRegion, Compositing.ApplyPlan, OverlayProcessor.ProcessFrame, OverlayProcessor.ProcessFrames, OverlayProcessor.ProcessVideo, OverlayPreview.PreviewFrame, OverlayPreview.RunPreview: blend in the intended channel order (the corrected `BlendPixel` under Findings). The code's output is what these members give for `SwapMask(m)`, the mask with red and blue exchanged, by Compositing.CompositeFrameAsWrittenSwapsMask.
- Releasing the capture and the writer (`backend/overlay_processor.py:121-122`, `overlay.py:137-139`).
- The writer's codec and fps only as constants: the preview opens one writer with `mp4v` and the reported frame rate, with no fallback, and never checks that it opened.
- `compute_nme`, `compute_auc` and the mean NME: float norms and `np.trapz`. The NME of one sample is the `nme` parameter, and `None` stands for NaN.
- Text.ParseInt: accepts only ASCII digits with an optional sign. Python's `int()` also accepts underscores between digits and non-ASCII decimal digits.
- Text.IsSpace: covers the ASCII whitespace of `str.split()`, not the Unicode separators it also splits on.
- Annotation.Session.HandleKey: requires the shown file not to be annotated yet. The sorted directory listing never repeats a name, and the count of commits equals the number of annotated files only under that condition.
- Annotation.Annotate: the `Waiting` end (the event stream runs out while an image is open) stands for the tool still waiting for a key; the program itself never ends that way.
- The Flask app, the browser scripts, the training code and the other scripts of the repository are not part of this model.

## Findings

| source | as written | input that shows it | evidently intended | confidence | as-written member | corrected member |
|---|---|---|---|---|---|---|
| backend/overlay_processor.py:114-117 (same code in overlay.py:119-122) | The mask is loaded by PIL in R, G, B, A order and the frame by OpenCV in B, G, R order. The blend pairs channels by position, so the mask's red is mixed into the frame's blue and its blue into the frame's red. | an opaque pure-red mask pixel `(255, 0, 0, 255)` over a black frame pixel comes out as BGR `(255, 0, 0)`, pure blue | the mask's colours appear as they are: red stays red (BGR `(0, 0, 255)`) | not executed | Compositing.BlendPixelAsWritten, Compositing.OpaqueRedComesOutBlue, Compositing.AsWrittenSwapsRedAndBlue | Compositing.BlendPixel |
