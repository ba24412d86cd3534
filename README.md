# UPA hand-gesture pipeline — a Dafny model

This project models the parts of UPA (a Czech finger-spelling recogniser) that compute
something. They are:

- **Dataset collector** (`python_recognition/dataset/Collector.py`). It keeps a five-frame
  buffer of webcam frames. When a label key is pressed, it picks the newest frame whose hand
  survives cropping. The key becomes a label by a fixed rule, and the padded square crop box comes
  from the hand's keypoints.
- **Feature extractor** used for training (`python_recognition/dataset/BasicImageProcessor.py`).
  It turns keypoints into pixels, normalises them relative to the wrist and to the largest
  distance, maps label directories to class indices, and lays out one CSV row.
- **Live runner** (`python_recognition/runner/Runner.py`). It featurises every detected hand
  and prints `LABELS[argmax(prediction)]`.
- **Browser feature code** (`src/lib/handlers/LandmarksProcessor.ts`). It does the same
  normalisation with `Math.floor` and JavaScript numbers.
- **Continuous-recognition text collapse** (`src/lib/helpers/CSLR.ts`) and the **text helpers**
  (`src/lib/helpers/TextHelper.ts`).

Modules and files:

| module | file | what it holds |
|---|---|---|
| `Wrappers` | wrappers.dfy | `Option`, `Result` |
| `Landmark` | landmark.dfy | landmark records (`src/lib/models/Landmark.ts`); Python's `int()` (`Trunc`) and `Math.floor` (`JsFloor`); the pixel conversion shared by the Python scripts |
| `Detection` | landmark_detector.dfy | the hand detector as a value of function type |
| `Features` | features.dfy | relative coordinates, flattening, the largest absolute value and the division, shared by all three normalisations, with their lemmas |
| `BasicImageProcessor` | basic_image_processor.dfy | the training-side extractor |
| `Runner` | runner.dfy | the live runner |
| `LandmarksProcessor` | landmarks_processor.dfy | the browser pipeline |
| `Collector` | collector.dfy | the dataset collector |
| `Cslr` | cslr.dfy | the text collapse |
| `TextHelper` | text_helper.dfy | trim, diacritics, letters |

The model follows the source's form:

- Loops that append, or rewrite a list in place, are methods with loop invariants. The in-place
  relative-coordinate loops work on a fresh `array`, which models `copy.deepcopy` and
  `structuredClone`.
- Each such method is proved equal to a specification function. Lemmas then prove what the
  source promises about that function.
- The collector's global `frame_buffer` is a field of a `Collector` class. `AddToBuffer` and
  `KeyDown` are its methods.
- Pure helpers (`key_to_label`, the box arithmetic, the text helpers) are functions.

Numbers are exact. Coordinates are `real`, pixel coordinates are `int`, and the normalised
features are exact `real` quotients.

- Python's `int()` truncates toward zero; that is `Trunc`.
- JavaScript's `Math.floor` rounds down; that is `JsFloor`.
- Python's `//` by 2 is Dafny's `/` by 2, since both round toward minus infinity for a positive
  divisor.

### Where the code and its documentation disagree (the model follows the code)

- **Invalid keys.** `key_to_label` documents a `ValueError` but raises a string. In Python 3
  that is a `TypeError`, which `keydown`'s `except ValueError` does not catch. So an invalid key
  makes `keydown` raise (`Raised(InvalidKey)`) instead of returning quietly. The capture loop only
  forwards A–Z, a–z, `+` and `-`, and `Collector.ForwardedKeysHaveLabels` proves every forwarded
  key has a label. The path is therefore unreachable from the script itself.
- **Crop boxes and the slice.** `get_box` promises a square box inside the frame. What the code
  computes is more subtle:
  - keypoint pixels are clamped only from above, so a hand partly left of or above the frame has
    negative pixels, and a stop of the box can be negative. NumPy's slice counts a negative stop
    from the far edge: the box (0, 150, -25, 350) of a 640×480 frame selects 615 columns
    (`Collector.NegativeStopStillCrops`). The model crops with the bounds the slice actually
    uses (`Collector.Selected`);
  - when the slice selects nothing, `cv2.resize` raises (`Raised(EmptyCrop)`). A 1×1 frame, or a
    padding of 1 with the hand at pixel (0, 0), gives such a box
    (`Collector.CornerWithPaddingOneIsEmpty`);
  - near an edge the clamps make the box non-square (`Collector.NotSquareNearEdge`).

  For keypoints inside the frame, what holds is proved:
  - the box lies inside the frame and the slice selects exactly the box (`Collector.SelectedBoxOf`);
  - with padding ≥ 1, the box is non-empty exactly when the padded box's larger side is at least 2;
  - with the script's padding of 50 and a frame more than one pixel wide or high, it is non-empty.
- **Re-detection colour.** `crop_frame` re-runs the detector on the resized crop *without* the
  BGR→RGB conversion that `process_frame` applies. The model keeps the two calls apart.
- **Exceptions in the runner.** A hand whose features cannot be computed raises out of
  `process`, so later hands are not classified. An argmax index of 28 or more is an `IndexError`.

## Model

| member | source | states |
|---|---|---|
| `Landmark.Trunc` | python_recognition/dataset/BasicImageProcessor.py:127-128 | Python `int()` truncates toward zero: for non-negative input the result is the largest integer not above it, for negative input the smallest integer not below it |
| `Landmark.JsFloor` | src/lib/handlers/LandmarksProcessor.ts:34-35 | `Math.floor`: the largest integer not above the input |
| `Landmark.TruncAgreesWithFloor` | src/lib/handlers/LandmarksProcessor.ts:34-35 | truncation and floor agree exactly for non-negative or whole inputs; otherwise truncation is one more than floor |
| `Landmark.PixelOf` | python_recognition/dataset/BasicImageProcessor.py:127-128 | a pixel coordinate never exceeds `dim - 1` on either axis |
| `Landmark.Pixels` | python_recognition/dataset/BasicImageProcessor.py:126-133 | one pixel point per landmark |
| `Features.Relative` | python_recognition/dataset/BasicImageProcessor.py:152-158 | one relative point per input point |
| `Features.Flatten` | python_recognition/dataset/BasicImageProcessor.py:161-162 | length `2n`, with entry `2i` the x and entry `2i+1` the y of point `i` |
| `Features.FlattenSnoc` | src/lib/handlers/LandmarksProcessor.ts:69-73 | pushing one more point's x and y extends the flat list by exactly those two values |
| `Features.MaxAbs` | python_recognition/dataset/BasicImageProcessor.py:165 | `max(map(abs, ...))`: bounds every absolute value and is attained by one |
| `Features.DeltasStartWithZero` | python_recognition/dataset/BasicImageProcessor.py:153-158 | the first pair of the relative flat list is (0, 0) |
| `Features.DeltasLayout` | python_recognition/dataset/BasicImageProcessor.py:153-162 | entry `2i`/`2i+1` is point `i`'s x/y distance from landmark 0 |
| `Features.DeltasTranslationInvariant` | python_recognition/dataset/BasicImageProcessor.py:139-158 | shifting all points by one offset does not change the relative flat list |
| `Features.DegenerateIffAllAtBase` | python_recognition/dataset/BasicImageProcessor.py:165-168 | the divisor is 0 exactly when every point equals landmark 0 |
| `Features.DivideByMaxAbsBounds` | python_recognition/dataset/BasicImageProcessor.py:165-170 | dividing by a non-zero largest absolute value puts every entry in [-1, 1], with some entry equal to 1 or -1 |
| `Features.DeltasScale` | python_recognition/dataset/BasicImageProcessor.py:141-158 | scaling all points by `k` about landmark 0 scales every relative entry by `k` |
| `Features.MaxAbsScale` | python_recognition/dataset/BasicImageProcessor.py:165 | scaling every entry by `k > 0` scales the largest absolute value by `k` |
| `Features.DivideScale` | python_recognition/dataset/BasicImageProcessor.py:167-170 | scaling entries and divisor by the same `k > 0` leaves the quotients unchanged |
| `BasicImageProcessor.LabelTable` | python_recognition/dataset/BasicImageProcessor.py:29-30 | 28 distinct labels, with "ch" at 8 and "none" at 27 |
| `BasicImageProcessor.ClassIndex` | python_recognition/dataset/BasicImageProcessor.py:58 | a found index holds that label; no index exactly when the name is not a label |
| `BasicImageProcessor.ClassIndexRoundTrip` | python_recognition/dataset/BasicImageProcessor.py:58 | the class index of the `k`-th label is `k` |
| `BasicImageProcessor.LabelDirectories` | python_recognition/dataset/BasicImageProcessor.py:58-60 | each visited directory carries its label's index; a label is visited exactly when its directory exists; visits go in increasing index order |
| `BasicImageProcessor.CalcLandmarkList` | python_recognition/dataset/BasicImageProcessor.py:121-133 | one pixel pair per landmark, in order, each clamped to `dim - 1` |
| `BasicImageProcessor.PreProcessLandmark` | python_recognition/dataset/BasicImageProcessor.py:149-172 | the in-place relative loop, flattening and division on a copy compute `Normalize` (relative points, flattened, over their largest absolute value), failures included |
| `BasicImageProcessor.NormalizeFailures` | python_recognition/dataset/BasicImageProcessor.py:165-168 | fails at `max()` exactly for the empty list and at the division exactly when all points equal landmark 0; succeeds exactly otherwise |
| `BasicImageProcessor.NormalizeLayout` | python_recognition/dataset/BasicImageProcessor.py:139-170 | length `2n`, laid out x0, y0, x1, y1, …, each entry a distance from landmark 0 over the divisor |
| `BasicImageProcessor.NormalizeBounds` | python_recognition/dataset/BasicImageProcessor.py:153-170 | the first two entries are 0; all entries lie in [-1, 1]; one is 1 or -1 |
| `BasicImageProcessor.NormalizeTranslationInvariant` | python_recognition/dataset/BasicImageProcessor.py:139-158 | the same pixel offset added to every point leaves the result unchanged, errors included |
| `BasicImageProcessor.NormalizeScaleInvariant` | python_recognition/dataset/BasicImageProcessor.py:141-170 | moving every point `k > 0` times as far from landmark 0 leaves the result unchanged |
| `BasicImageProcessor.ProcessImage` | python_recognition/dataset/BasicImageProcessor.py:193-201 | computes `ImageFeatures`: no hand gives None; otherwise the result is the normalisation of the FIRST hand's pixels, failures included |
| `BasicImageProcessor.Decimal` | python_recognition/dataset/BasicImageProcessor.py:69 | a class index prints as a non-empty string of decimal digits |
| `BasicImageProcessor.DecimalRoundTrip` | python_recognition/dataset/BasicImageProcessor.py:69 | the printed index is `str(index)`: it reads back (`DecimalValue`, left-to-right digit value) as the index, has no leading zero, and zero prints as "0" |
| `BasicImageProcessor.Split` | python_recognition/dataset/BasicImageProcessor.py:69-75 | reading a row back: cutting at separators yields at least one field |
| `BasicImageProcessor.SplitJoin` | python_recognition/dataset/BasicImageProcessor.py:69-75 | cutting a joined line at its separators gives back the fields when none contains the separator |
| `BasicImageProcessor.WriteRow` | python_recognition/dataset/BasicImageProcessor.py:69-75 | the written row is `Join` of the index and the features with commas, so no trailing comma, then a newline |
| `BasicImageProcessor.RowFields` | python_recognition/dataset/BasicImageProcessor.py:69-75 | a written row splits back into the index followed by every feature in order, `n + 1` fields, and the first field reads back as the index |
| `Runner.SameLabelTable` | python_recognition/runner/Runner.py:17-18 | the runner's table has the same 28 labels in the same order as the training table |
| `Runner.ArgMax` | python_recognition/runner/Runner.py:72 | `np.argmax`: an index of a largest entry, and the first such index |
| `Runner.ClassifyMeaning` | python_recognition/runner/Runner.py:69-75 | a printed class is always in `LABELS`; a class is printed exactly when the features succeed, the prediction is non-empty and its argmax is below 28 |
| `Runner.ClassifyHand` | python_recognition/runner/Runner.py:69-75 | one pass of the loop body (landmark list, features, prediction, arg-max, label lookup) computes `Classify`, errors included |
| `Runner.Process` | python_recognition/runner/Runner.py:63-75 | every detected hand is classified in detector order; the first failing hand stops the call, and the classes printed before it are those of the earlier hands |
| `Runner.InferenceMatchesTraining` | python_recognition/runner/Runner.py:20-60 | the features fed to the model are exactly those the training script writes for the same hand and image |
| `LandmarksProcessor.AbsolutePosition` | src/lib/handlers/LandmarksProcessor.ts:34-35 | a browser pixel never exceeds `dim - 1` on either axis |
| `LandmarksProcessor.AbsolutePositions` | src/lib/handlers/LandmarksProcessor.ts:26-41 | one pixel landmark per input landmark |
| `LandmarksProcessor.CalcAbsolutePositions` | src/lib/handlers/LandmarksProcessor.ts:26-41 | pushes one clamped pixel landmark per input landmark, in order |
| `LandmarksProcessor.CalcRelativeLandmarks` | src/lib/handlers/LandmarksProcessor.ts:49-80 | the clone, in-place loop, flatten loop and division compute `RelativeFeatures`, with `[]` for no input and NaN entries for a degenerate one |
| `LandmarksProcessor.MakeRelative` | src/lib/handlers/LandmarksProcessor.ts:52-66 | the in-place loop leaves every point of the array shifted by minus landmark 0 |
| `LandmarksProcessor.FlattenPoints` | src/lib/handlers/LandmarksProcessor.ts:69-73 | the push loop yields x then y of every point, in array order |
| `LandmarksProcessor.ProcessLandmarks` | src/lib/handlers/LandmarksProcessor.ts:11-17 | exactly relative features of absolute positions |
| `LandmarksProcessor.MatchesPythonFeatures` | src/lib/handlers/LandmarksProcessor.ts:76-79 | on the same pixels the browser yields the Python vector; `[]` where Python's `max()` raises; all NaN where Python divides by zero |
| `LandmarksProcessor.RelativeFeaturesBounds` | src/lib/handlers/LandmarksProcessor.ts:56-79 | for a non-degenerate hand: length `2n`, first pair 0, every entry a number in [-1, 1], one entry 1 or -1 |
| `LandmarksProcessor.PixelsMatchPython` | src/lib/handlers/LandmarksProcessor.ts:34-35 | `Math.floor` and Python `int()` give the same pixel for non-negative scaled coordinates |
| `LandmarksProcessor.PixelsDifferLeftOfFrame` | src/lib/handlers/LandmarksProcessor.ts:34 | just left of the frame the browser pixel is -1 where Python's is 0 |
| `LandmarksProcessor.ProcessMatchesTraining` | src/lib/handlers/LandmarksProcessor.ts:11-17 | with non-negative scaled coordinates the browser starts from the same pixels as the Python scripts |
| `LandmarksProcessor.ProcessTranslationInvariant` | src/lib/handlers/LandmarksProcessor.ts:11-47 | shifting every landmark by the same whole pixels (no point clamped) leaves the output unchanged |
| `LandmarksProcessor.AbsolutePositionShift` | src/lib/handlers/LandmarksProcessor.ts:34-35 | a whole-pixel shift of an unclamped landmark shifts its pixel by the same amount |
| `Collector.AsciiKeyLabels` | python_recognition/dataset/Collector.py:182-190 | `KeyToLabel` on one ASCII character: a label exactly for a letter, a digit, `+` or `-`; `+` is "ch", `-` is "none", any other key's label is its lower case |
| `Collector.SpecialKeys` | python_recognition/dataset/Collector.py:186-189 | `+` is "ch" and `-` is "none" |
| `Collector.LetterKeys` | python_recognition/dataset/Collector.py:182-190 | 'A' and 'a' both give "a", and likewise for every letter |
| `Collector.OtherKeysRejected` | python_recognition/dataset/Collector.py:183-184 | any other non-alphanumeric ASCII key is rejected |
| `Collector.ForwardedKeysHaveLabels` | python_recognition/dataset/Collector.py:263-264 | every key the capture loop forwards (`ForwardedKey`) has a label, and it is in `LABELS` |
| `Collector.MinOf` | python_recognition/dataset/Collector.py:146-148 | `min()` bounds every coordinate from below and is one of them |
| `Collector.MaxOf` | python_recognition/dataset/Collector.py:147-149 | `max()` bounds every coordinate from above and is one of them |
| `Collector.Centered` | python_recognition/dataset/Collector.py:157-163 | every start of the centred box is at least 0 and every stop at most the frame's size |
| `Collector.BoxOf` | python_recognition/dataset/Collector.py:146-165 | `0 <= x_min`, `x_max <= width`, `0 <= y_min`, `y_max <= height` |
| `Collector.GetBox` | python_recognition/dataset/Collector.py:136-165 | the coordinate loop plus the arithmetic give `BoxOf` of the clamped pixel coordinates, with starts at least 0 and stops at most the frame's size |
| `Collector.PaddedNonEmpty` | python_recognition/dataset/Collector.py:146-149 | with keypoints in range and padding ≥ 1, both sides of the padded box are at least 1 |
| `Collector.BoxNonEmptyIff` | python_recognition/dataset/Collector.py:141-163 | with keypoints in range and padding ≥ 1, the box is non-empty exactly when the padded box's larger side is ≥ 2 |
| `Collector.SideAtLeastTwo` | python_recognition/dataset/Collector.py:141-163 | with keypoints inside the frame, padding ≥ 2 and a frame wider or higher than one pixel, the box is non-empty |
| `Collector.CornerWithPaddingOneIsEmpty` | python_recognition/dataset/Collector.py:146-163 | padding 1 with the hand at pixel (0, 0) gives the empty box (0, 0, 0, 0) |
| `Collector.SquareWhenUnclamped` | python_recognition/dataset/Collector.py:125-163 | when no final clamp bites, both sides equal `2 * (size // 2)` |
| `Collector.SliceBound` | python_recognition/dataset/Collector.py:111 | a slice bound as NumPy uses it: kept when inside the axis, counted from the end when negative, never below 0 or above the axis length |
| `Collector.Selected` | python_recognition/dataset/Collector.py:111 | the rows and columns `frame[y_min:y_max, x_min:x_max]` selects, all inside the frame |
| `Collector.SelectedBoxOf` | python_recognition/dataset/Collector.py:141-165 | with keypoints inside the frame and padding ≥ 0, the box lies inside the frame and the slice selects exactly it |
| `Collector.NegativeStopStillCrops` | python_recognition/dataset/Collector.py:141-165 | keypoints left of the frame give the box (0, 150, -25, 350), empty as numbers, whose slice is 200 × 615 and non-empty |
| `Collector.NotSquareNearEdge` | python_recognition/dataset/Collector.py:152-163 | near the left edge the box is 130 × 200 |
| `Collector.CropFrame` | python_recognition/dataset/Collector.py:97-120 | computes `CropOf`: raises when the slice selects nothing, else the resized crop when the detector still finds a hand in it, else the hand is lost |
| `Collector.Collector.ExamineFrame` | python_recognition/dataset/Collector.py:78-88 | one pass of the loop body computes `AttemptOf`: no hand in `ProcessFrame` (`process_frame`), hand lost in the crop, a slice that selects nothing and raises, or the image to save |
| `Collector.AttemptMeaning` | python_recognition/dataset/Collector.py:78-88 | an accepted frame has a hand; with cropping, the accepted image is the resized crop of a non-empty slice (`CropBox`, bounds as NumPy uses them) with a hand re-detected, never the raw frame; without it, the frame itself; only cropping loses the hand or raises |
| `Collector.Recent` | python_recognition/dataset/Collector.py:30 | the last `min(n, 5)` frames |
| `Collector.PushRecent` | python_recognition/dataset/Collector.py:279-282 | one append-and-drop on the recent frames gives the recent frames of the longer history |
| `Collector.PushAllIsRecent` | python_recognition/dataset/Collector.py:271-282 | after any sequence of pushes the buffer is the last `min(n, 5)` frames in push order, newest last, at most 5 |
| `Collector.Collector.constructor` | python_recognition/dataset/Collector.py:30-34 | starts with an empty buffer and the given CROP setting |
| `Collector.Collector.AddToBuffer` | python_recognition/dataset/Collector.py:271-282 | appends the frame and drops the oldest beyond 5, keeping the buffer equal to the recent history |
| `Collector.NewestUsableMeaning` | python_recognition/dataset/Collector.py:77-88 | `NewestUsable` finds the newest frame not skipped, all newer ones skipped; none exactly when every frame is skipped |
| `Collector.Collector.KeyDown` | python_recognition/dataset/Collector.py:58-94 | an invalid key raises before any frame is looked at; otherwise the scan decides, so the call computes `KeyDownOf` |
| `Collector.Collector.ScanBuffer` | python_recognition/dataset/Collector.py:74-94 | the newest-first scan with `continue`/`break` stops at the newest attempt that is not skipped and returns its `ScanOutcome` |
| `Collector.KeyDownMeaning` | python_recognition/dataset/Collector.py:58-94 | an invalid key raises; a saved image is the accepted attempt of a frame whose newer frames were all skipped, under the key's label; nothing is saved exactly when every frame is skipped; at most one image |
| `Collector.OldestFrameSaved` | python_recognition/dataset/Collector.py:77-88 | when all newer frames are skipped, the oldest accepted frame is still found and saved |
| `Collector.UncroppedSavesNewestWithHand` | python_recognition/dataset/Collector.py:77-88 | with cropping off, the newest frame with a detected hand is saved as it is |
| `Cslr.MatchAt` | src/lib/helpers/CSLR.ts:13-20 | a candidate the input starts with, or none when no candidate fits |
| `Cslr.MatchAtFirst` | src/lib/helpers/CSLR.ts:13-20 | the match is the FIRST fitting candidate: no earlier candidate fits |
| `Cslr.TokenizeRoundTrip` | src/lib/helpers/CSLR.ts:9-25 | the tokens concatenate back to the input |
| `Cslr.TokenShapes` | src/lib/helpers/CSLR.ts:4-24 | each token is "Ch" or one character |
| `Cslr.GreedyCh` | src/lib/helpers/CSLR.ts:13-19 | wherever the rest starts with "Ch", the next token is "Ch" |
| `Cslr.SingleCharToken` | src/lib/helpers/CSLR.ts:21-24 | otherwise the next token is one character |
| `Cslr.TokenCharsFromInput` | src/lib/helpers/CSLR.ts:9-25 | every character of every token comes from the input |
| `Cslr.TokenizeInput` | src/lib/helpers/CSLR.ts:9-25 | the tokenising while loop computes `Tokenize` |
| `Cslr.PushNextToken` | src/lib/helpers/CSLR.ts:11-24 | one iteration advances the position and moves exactly the next token from the untokenised rest onto the tokens |
| `Cslr.NextToken` | src/lib/helpers/CSLR.ts:12-24 | the for loop over the multi-character tokens, with its fallback, yields a non-empty token that is the next one `Tokenize` produces at the position |
| `Cslr.GroupsPartition` | src/lib/helpers/CSLR.ts:31-58 | `Groups` tiles the tokens left to right, each extended by all its later tokens and ended by a non-extending token; counts sum to the token count; neighbouring groups carry different tokens |
| `Cslr.GlitchTolerated` | src/lib/helpers/CSLR.ts:33-38 | one differing token with the group's token on both sides, at `1 < i < n - 1`, extends the group |
| `Cslr.CollapseTokens` | src/lib/helpers/CSLR.ts:27-61 | the grouping for loop writes the text of the groups |
| `Cslr.ConvertRecognitionsToText` | src/lib/helpers/CSLR.ts:7-62 | computes `Collapse`: tokenise, group, write |
| `Cslr.EmptyInput` | src/lib/helpers/CSLR.ts:27-31 | the empty input yields "" |
| `Cslr.RenderCases` | src/lib/helpers/CSLR.ts:43-51 | `Render` writes a group exactly when count ≥ 6, or count ≥ 3 for g/G/f/F; a space follows exactly when count ≥ 20 |
| `Cslr.OutputChars` | src/lib/helpers/CSLR.ts:27-61 | every output character is a space or a character of the input |
| `Cslr.GlitchExample` | src/lib/helpers/CSLR.ts:33-48 | "aaaXaaa" yields "a" |
| `Cslr.NoToleranceAtIndexOne` | src/lib/helpers/CSLR.ts:35 | "aXaaaa" yields "": index 1 is never tolerated |
| `Cslr.ChExample` | src/lib/helpers/CSLR.ts:4-48 | six "Ch" tokens yield "Ch" |
| `TextHelper.Lookup` | src/lib/helpers/TextHelper.ts:2-18 | every replacement is a lower-case ASCII letter, only characters between 'á' and 'ž' have one, and ASCII letters have none |
| `TextHelper.DiacriticsTable` | src/lib/helpers/TextHelper.ts:2-18 | the keys are exactly the 15 listed letters; no key and no replacement is white space |
| `TextHelper.TrimStart` | src/lib/helpers/TextHelper.ts:27 | strips exactly a white-space prefix and leaves no leading white space |
| `TextHelper.TrimEnd` | src/lib/helpers/TextHelper.ts:27 | strips exactly a white-space suffix and leaves no trailing white space |
| `TextHelper.TrimShape` | src/lib/helpers/TextHelper.ts:27 | `Trim` (`trim`) keeps one contiguous stretch and cuts only white space |
| `TextHelper.TrimEnds` | src/lib/helpers/TextHelper.ts:27 | a non-empty trimmed text neither starts nor ends with white space |
| `TextHelper.TrimIdempotent` | src/lib/helpers/TextHelper.ts:27 | trimming twice is trimming once |
| `TextHelper.BaseLetter` | src/lib/helpers/TextHelper.ts:22 | a key becomes its base letter, any other character stays, and the result is never a key |
| `TextHelper.StripDiacritics` | src/lib/helpers/TextHelper.ts:20-23 | replacing per character keeps the length |
| `TextHelper.ReplaceCzechDiacriticsAndNormalize` | src/lib/helpers/TextHelper.ts:20-23 | the output is as long as `RemoveFormating`'s trimmed, lower-cased input |
| `TextHelper.StripDiacriticsPointwise` | src/lib/helpers/TextHelper.ts:2-23 | each key is replaced by its base letter, every other character is kept, and no key remains |
| `TextHelper.StripDiacriticsIdempotent` | src/lib/helpers/TextHelper.ts:2-22 | a second replacement changes nothing |
| `TextHelper.NormalizeOutputHasNoKeys` | src/lib/helpers/TextHelper.ts:20-28 | the normalised text is as long as the trimmed, lower-cased input, contains no key, and is unchanged by another replacement |
| `TextHelper.StripCommutesWithTrim` | src/lib/helpers/TextHelper.ts:20-28 | replacing before or after trimming gives the same text |
| `TextHelper.UpperCaseNotInTable` | src/lib/helpers/TextHelper.ts:2-20 | the table alone keeps 'Á'; only after lower-casing does it become 'a' |
| `TextHelper.KeepOnlyLetters` | src/lib/helpers/TextHelper.ts:31 | the result is no longer than the input and consists of letters only |
| `TextHelper.KeepOnlyLettersSubsequence` | src/lib/helpers/TextHelper.ts:31 | the result is a subsequence of the input |
| `TextHelper.KeepOnlyLettersCounts` | src/lib/helpers/TextHelper.ts:31 | every letter is kept as often as it occurs, and no other character is kept |
| `TextHelper.KeepOnlyLettersOfLetters` | src/lib/helpers/TextHelper.ts:31 | a string of letters is kept whole |
| `TextHelper.KeepOnlyLettersIdempotent` | src/lib/helpers/TextHelper.ts:30-32 | filtering twice is filtering once |

## Left out

- Webcam capture, the display window, key polling, the ESC exit, `save()` to disk, MediaPipe setup, CSV file handling, `get_files` and `setup`. These are I/O. Only the key filter of the capture loop is kept, as `Collector.ForwardedKey`.
- `hands.process`, `cv2.cvtColor`, `cv2.flip`, `cv2.resize`, the array slice and `cv2.imread`. These are foreign library calls. They appear as function-valued fields (`Detection.Detector`, `Collector.Vision`); image dimensions come from the detector's `width`/`height`. The slice's bound arithmetic is modelled (`Collector.Selected`); the slice field receives the normalised bounds and returns the selected pixels. A failed `imread` is not modelled.
- MediaPipe's tracking state between calls (`STATIC_IMAGE_MODE = False`). The detector is modelled as a pure function of the image.
- The XGBoost model: its prediction is a parameter `predict` of `Runner.Classify`/`Runner.Process`.
- Printing (`print` in `keydown`, `process_image`, `process`). The printed classes are the result of `Runner.Process`.
- Floating point. Products such as `landmark.x * image_width` and the final divisions are exact reals, so rounding of the float division is not modelled. A float's textual form in a CSV row is a parameter `formatReal`.
- The header line of the CSV file. It is a fixed text and is not modelled.
- Python's `str.lower`/`str.isalnum`, JavaScript's `toLowerCase` and the Unicode letter test `\p{L}`. They are parameters (`Collector.PyText`, `lower`, `isLetter`). Lemmas about concrete keys assume only that they behave as usual on ASCII characters (`Collector.AsciiText`).
- UTF-16. Strings are sequences of Unicode scalar values. `CSLR.ts` indexes UTF-16 code units, so a character outside the Basic Multilingual Plane would be two tokens there. `keepOnlyLetters` uses the `u` flag and `split('')` only meets the BMP letters of the table, so the per-character model is exact for them.
- Runner.py's `calc_landmark_list` and `pre_process_landmark` are textually the same code as the training script's. They are modelled once, in `BasicImageProcessor`, and `Runner.Process` calls that code.
- The loading steps of `process_image` (read, flip, colour conversion): the model starts from the decoded, flipped, RGB image.
- Training scripts, the tfjs classifier wrappers, `CSLRProcessor.ts` (empty stubs), type-only files and build tooling. They hold no modelled behaviour.
