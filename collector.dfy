/**
 * The dataset collector (python_recognition/dataset/Collector.py): a buffer of the last five
 * webcam frames, the key-to-label rule, the padded square box around a hand, and the
 * newest-first scan that picks the frame to save when a key is pressed.
 */
module Collector {
  import opened Wrappers
  import opened Landmark
  import opened Detection
  import BasicImageProcessor

  const FRAME_BUFFER_SIZE: nat := 5
  /** The script's `CROP` setting. */
  const CROP: bool := true
  const PADDING: int := 50
  const TARGET_SIZE: (nat, nat) := (250, 250)

  // ---------------------------------------------------------------------------------------------
  // Keys and labels

  /** Python's `str.lower` and `str.isalnum`, which follow the Unicode tables. */
  datatype PyText = PyText(lower: string -> string, isAlnum: string -> bool)

  datatype CollectorError =
    | InvalidKey   // `key_to_label` raises (a str, hence a TypeError that `keydown` does not catch)
    | EmptyCrop    // `cv2.resize` raises on an empty crop of the frame

  /**
   * `key_to_label`: lower-cases the key, rejects it unless it is alphanumeric or '+' or '-', and
   * maps '+' to "ch" and '-' to "none".
   */
  function KeyToLabel(key: string, text: PyText): Result<string, CollectorError>
  {
    var k := text.lower(key);
    if !text.isAlnum(k) && k != "+" && k != "-" then Failure(InvalidKey)
    else if k == "+" then Success("ch")
    else if k == "-" then Success("none")
    else Success(k)
  }

  function Str(c: char): string
  {
    [c]
  }

  function AsciiLower(c: char): char
  {
    if 'A' <= c <= 'Z' then (c as int + 32) as char else c
  }

  predicate IsAsciiAlnum(c: char)
  {
    'a' <= c <= 'z' || 'A' <= c <= 'Z' || '0' <= c <= '9'
  }

  /** On one-character ASCII strings, `lower` and `isalnum` behave as Python's do. */
  ghost predicate AsciiText(text: PyText)
  {
    forall c: char :: (c as int) < 128 ==>
      text.lower(Str(c)) == Str(AsciiLower(c)) && text.isAlnum(Str(c)) == IsAsciiAlnum(c)
  }

  /**
   * On one ASCII character: the key has a label exactly when it is a letter, a digit, '+' or '-';
   * '+' is "ch", '-' is "none", and any other key's label is the key in lower case.
   */
  lemma AsciiKeyLabels(text: PyText, c: char)
    requires AsciiText(text) && (c as int) < 128
    ensures KeyToLabel([c], text).Success? <==> IsAsciiAlnum(c) || c == '+' || c == '-'
    ensures KeyToLabel([c], text).Success? ==>
      KeyToLabel([c], text).value == if c == '+' then "ch" else if c == '-' then "none" else [AsciiLower(c)]
  {
    assert text.lower(Str(c)) == Str(AsciiLower(c)) && text.isAlnum(Str(c)) == IsAsciiAlnum(c);
    assert [c] == Str(c);
    if 'A' <= c <= 'Z' {
      assert 'a' <= AsciiLower(c) <= 'z';
    }
  }

  /** '+' is the label "ch" and '-' is the label "none". */
  lemma SpecialKeys(text: PyText)
    requires AsciiText(text)
    ensures KeyToLabel("+", text) == Success("ch")
    ensures KeyToLabel("-", text) == Success("none")
  {
    assert text.lower(Str('+')) == "+" && text.lower(Str('-')) == "-";
  }

  /** An upper-case letter and its lower-case form give the same label, the lower-case letter. */
  lemma LetterKeys(text: PyText, c: char)
    requires AsciiText(text)
    requires 'a' <= c <= 'z'
    ensures KeyToLabel([c], text) == Success([c])
    ensures KeyToLabel([(c as int - 32) as char], text) == Success([c])
  {
    var u := (c as int - 32) as char;
    assert text.lower(Str(c)) == Str(c) && text.isAlnum(Str(c));
    assert text.lower(Str(u)) == Str(c);
  }

  /**
   * An ASCII key other than a letter, a digit, '+' and '-' is rejected.
   */
  lemma OtherKeysRejected(text: PyText, c: char)
    requires AsciiText(text)
    requires (c as int) < 128 && !IsAsciiAlnum(c) && c != '+' && c != '-'
    ensures KeyToLabel([c], text) == Failure(InvalidKey)
  {
    assert text.lower(Str(c)) == Str(c) && !text.isAlnum(Str(c));
  }

  /** The key codes the capture loop forwards to `keydown`: A-Z, a-z, '+' and '-'. */
  predicate ForwardedKey(code: int)
  {
    (65 <= code <= 90) || (97 <= code <= 122) || code == 43 || code == 45
  }

  /**
   * Every key the capture loop forwards has a label, and that label is in the training script's
   * table, so the rejection branch is unreachable from the loop.
   */
  lemma ForwardedKeysHaveLabels(text: PyText, code: int)
    requires AsciiText(text)
    requires ForwardedKey(code)
    ensures KeyToLabel(Str(code as char), text).Success?
    ensures KeyToLabel(Str(code as char), text).value in BasicImageProcessor.LABELS
    ensures BasicImageProcessor.ClassIndex(KeyToLabel(Str(code as char), text).value).Some?
  {
    var c := code as char;
    if code == 43 || code == 45 {
      SpecialKeys(text);
      assert Str(c) == "+" || Str(c) == "-";
    } else if 97 <= code <= 122 {
      LetterKeys(text, c);
      LetterInTable(c);
    } else {
      var l := (code + 32) as char;
      LetterKeys(text, l);
      assert (l as int - 32) as char == c;
      LetterInTable(l);
    }
  }

  lemma LetterInTable(c: char)
    requires 'a' <= c <= 'z'
    ensures [c] in BasicImageProcessor.LABELS
  {
    var k := (c as int) - ('a' as int);
    var i := if k <= 7 then k else k + 1;
    assert BasicImageProcessor.LABELS[i] == [c];
  }

  // ---------------------------------------------------------------------------------------------
  // The crop box

  /** Pixel bounds `(x_min, y_min, x_max, y_max)`; the crop is `frame[y_min:y_max, x_min:x_max]`. */
  datatype Box = Box(xMin: int, yMin: int, xMax: int, yMax: int)

  predicate NonEmpty(b: Box)
  {
    b.xMin < b.xMax && b.yMin < b.yMax
  }

  /**
   * A bound of a Python/NumPy slice (step 1) on an axis of length `n`, as the slice uses it: a
   * negative bound counts from the end and stops at 0, any other bound stops at `n`.
   */
  function SliceBound(i: int, n: nat): (r: nat)
    ensures r <= n
    ensures 0 <= i <= n ==> r == i
    ensures i + n < 0 ==> r == 0
    ensures i < 0 <= i + n ==> r == n + i
  {
    if i < 0 then Max(i + n, 0) else Min(i, n)
  }

  /** The rows and columns `frame[y_min:y_max, x_min:x_max]` selects, as bounds inside the frame. */
  function Selected(b: Box, frameWidth: nat, frameHeight: nat): (r: Box)
    ensures 0 <= r.xMin && r.xMax <= frameWidth && 0 <= r.yMin && r.yMax <= frameHeight
    ensures 0 <= r.xMax && r.xMin <= frameWidth && 0 <= r.yMax && r.yMin <= frameHeight
  {
    Box(SliceBound(b.xMin, frameWidth), SliceBound(b.yMin, frameHeight),
        SliceBound(b.xMax, frameWidth), SliceBound(b.yMax, frameHeight))
  }

  function MinOf(s: seq<int>): (m: int)
    requires |s| > 0
    ensures forall i :: 0 <= i < |s| ==> m <= s[i]
    ensures exists i :: 0 <= i < |s| && m == s[i]
  {
    if |s| == 1 then s[0]
    else
      var rest := MinOf(s[1..]);
      assert forall i :: 1 <= i < |s| ==> s[i] == s[1..][i - 1];
      if s[0] <= rest then s[0] else rest
  }

  function MaxOf(s: seq<int>): (m: int)
    requires |s| > 0
    ensures forall i :: 0 <= i < |s| ==> s[i] <= m
    ensures exists i :: 0 <= i < |s| && m == s[i]
  {
    if |s| == 1 then s[0]
    else
      var rest := MaxOf(s[1..]);
      assert forall i :: 1 <= i < |s| ==> s[i] == s[1..][i - 1];
      if s[0] >= rest then s[0] else rest
  }

  /** The keypoint extent grown by `padding` on each side and clamped to the frame. */
  function Padded(xs: seq<int>, ys: seq<int>, frameWidth: int, frameHeight: int, padding: int): Box
    requires |xs| > 0 && |ys| > 0
  {
    Box(Max(MinOf(xs) - padding, 0), Max(MinOf(ys) - padding, 0),
        Min(MaxOf(xs) + padding, frameWidth), Min(MaxOf(ys) + padding, frameHeight))
  }

  /** The side of the intended square: the larger side of the padded box. */
  function Side(b: Box): int
  {
    Max(b.xMax - b.xMin, b.yMax - b.yMin)
  }

  /**
   * A `Side(b)`-wide square centred on `b` and clamped to the frame. Python's `//` floors; so does
   * Dafny's `/` for the divisor 2, negative operands included.
   */
  function Centered(b: Box, frameWidth: int, frameHeight: int): (r: Box)
    ensures 0 <= r.xMin && r.xMax <= frameWidth && 0 <= r.yMin && r.yMax <= frameHeight
  {
    var half := Side(b) / 2;
    var xCenter, yCenter := (b.xMin + b.xMax) / 2, (b.yMin + b.yMax) / 2;
    Box(Max(xCenter - half, 0), Max(yCenter - half, 0), Min(xCenter + half, frameWidth), Min(yCenter + half, frameHeight))
  }

  /** The box `get_box` computes from the pixel coordinates of a hand's keypoints. */
  function BoxOf(xs: seq<int>, ys: seq<int>, frameWidth: int, frameHeight: int, padding: int): (r: Box)
    requires |xs| > 0 && |ys| > 0
    ensures 0 <= r.xMin && r.xMax <= frameWidth && 0 <= r.yMin && r.yMax <= frameHeight
  {
    Centered(Padded(xs, ys, frameWidth, frameHeight, padding), frameWidth, frameHeight)
  }

  function XsOf(hand: Hand, frameWidth: int, frameHeight: int): (xs: seq<int>)
    ensures |xs| == |hand|
  {
    seq(|hand|, i requires 0 <= i < |hand| => PixelOf(hand[i], frameWidth, frameHeight).x)
  }

  function YsOf(hand: Hand, frameWidth: int, frameHeight: int): (ys: seq<int>)
    ensures |ys| == |hand|
  {
    seq(|hand|, i requires 0 <= i < |hand| => PixelOf(hand[i], frameWidth, frameHeight).y)
  }

  /**
   * `get_box`: collects each keypoint's pixel coordinates (clamped to `dim - 1` only), then builds
   * the padded, centred, clamped box. Its starts are at least 0 and its stops at most the frame's
   * size; a stop is negative when the keypoints lie far enough left of or above the frame.
   */
  method GetBox(frameWidth: nat, frameHeight: nat, hand: Hand) returns (box: Box)
    ensures box == BoxOf(XsOf(hand, frameWidth, frameHeight), YsOf(hand, frameWidth, frameHeight), frameWidth, frameHeight, PADDING)
    ensures 0 <= box.xMin && box.xMax <= frameWidth && 0 <= box.yMin && box.yMax <= frameHeight
  {
    ghost var xs, ys := XsOf(hand, frameWidth, frameHeight), YsOf(hand, frameWidth, frameHeight);
    var xCoordinates: seq<int> := [];
    var yCoordinates: seq<int> := [];
    for i := 0 to |hand|
      invariant |xCoordinates| == i && |yCoordinates| == i
      invariant forall k :: 0 <= k < i ==> xCoordinates[k] == PixelOf(hand[k], frameWidth, frameHeight).x
      invariant forall k :: 0 <= k < i ==> yCoordinates[k] == PixelOf(hand[k], frameWidth, frameHeight).y
    {
      var x := Min(Trunc(hand[i].x * frameWidth as real), frameWidth - 1);
      var y := Min(Trunc(hand[i].y * frameHeight as real), frameHeight - 1);
      assert Landmark2d(x, y) == PixelOf(hand[i], frameWidth, frameHeight);
      xCoordinates := xCoordinates + [x];
      yCoordinates := yCoordinates + [y];
    }
    assert xCoordinates == xs;
    assert yCoordinates == ys;
    box := BoxOf(xCoordinates, yCoordinates, frameWidth, frameHeight, PADDING);
  }

  /** Every coordinate inside `[0, dim - 1]`. */
  predicate InRange(s: seq<int>, dim: int)
  {
    forall i :: 0 <= i < |s| ==> 0 <= s[i] <= dim - 1
  }

  /** With keypoints inside the frame and `padding >= 1`, the padded box has both sides at least 1. */
  lemma PaddedNonEmpty(xs: seq<int>, ys: seq<int>, frameWidth: int, frameHeight: int, padding: int)
    requires |xs| > 0 && |ys| > 0 && InRange(xs, frameWidth) && InRange(ys, frameHeight) && padding >= 1
    ensures var p := Padded(xs, ys, frameWidth, frameHeight, padding);
      p.xMax - p.xMin >= 1 && p.yMax - p.yMin >= 1
  {
    var mx, Mx, my, My := MinOf(xs), MaxOf(xs), MinOf(ys), MaxOf(ys);
    assert 0 <= mx <= Mx <= frameWidth - 1;
    assert 0 <= my <= My <= frameHeight - 1;
  }

  /**
   * With keypoints inside the frame and `padding >= 1`, the box is non-empty exactly when the
   * padded box's larger side is at least 2; with side 1 the centred box collapses to a point.
   */
  lemma BoxNonEmptyIff(xs: seq<int>, ys: seq<int>, frameWidth: int, frameHeight: int, padding: int)
    requires |xs| > 0 && |ys| > 0 && InRange(xs, frameWidth) && InRange(ys, frameHeight) && padding >= 1
    ensures NonEmpty(BoxOf(xs, ys, frameWidth, frameHeight, padding)) <==> Side(Padded(xs, ys, frameWidth, frameHeight, padding)) >= 2
  {
    var p := Padded(xs, ys, frameWidth, frameHeight, padding);
    PaddedNonEmpty(xs, ys, frameWidth, frameHeight, padding);
    assert 0 <= p.xMin && p.xMax <= frameWidth && 0 <= p.yMin && p.yMax <= frameHeight;
    CenteredNonEmptyIff(p, frameWidth, frameHeight);
  }

  /** Centring a non-empty box inside the frame gives a non-empty box exactly when its larger side is at least 2. */
  lemma CenteredNonEmptyIff(b: Box, frameWidth: int, frameHeight: int)
    requires 0 <= b.xMin < b.xMax <= frameWidth && 0 <= b.yMin < b.yMax <= frameHeight
    ensures NonEmpty(Centered(b, frameWidth, frameHeight)) <==> Side(b) >= 2
  {
    var xCenter, yCenter := (b.xMin + b.xMax) / 2, (b.yMin + b.yMax) / 2;
    assert b.xMin <= xCenter < b.xMax && b.yMin <= yCenter < b.yMax;
  }

  /**
   * The padded box's larger side is at least 2 when `padding >= 2` and the frame is more than one
   * pixel wide or high; so with the script's PADDING of 50 every such crop is non-empty.
   */
  lemma SideAtLeastTwo(xs: seq<int>, ys: seq<int>, frameWidth: int, frameHeight: int, padding: int)
    requires |xs| > 0 && |ys| > 0 && InRange(xs, frameWidth) && InRange(ys, frameHeight) && padding >= 2
    requires frameWidth >= 2 || frameHeight >= 2
    ensures Side(Padded(xs, ys, frameWidth, frameHeight, padding)) >= 2
    ensures NonEmpty(BoxOf(xs, ys, frameWidth, frameHeight, padding))
  {
    var mx, Mx, my, My := MinOf(xs), MaxOf(xs), MinOf(ys), MaxOf(ys);
    assert 0 <= mx <= Mx <= frameWidth - 1;
    assert 0 <= my <= My <= frameHeight - 1;
    BoxNonEmptyIff(xs, ys, frameWidth, frameHeight, padding);
  }

  /** `padding >= 1` alone is not enough: a hand at the corner (0, 0) with padding 1 gives an empty box. */
  lemma CornerWithPaddingOneIsEmpty()
    ensures BoxOf([0], [0], 640, 480, 1) == Box(0, 0, 0, 0)
  {
    assert MinOf([0]) == 0 && MaxOf([0]) == 0;
  }

  /** When none of the four final clamps bites, both sides equal `2 * (size // 2)`: the box is square. */
  lemma SquareWhenUnclamped(b: Box, frameWidth: int, frameHeight: int)
    requires var half := Side(b) / 2;
      && (b.xMin + b.xMax) / 2 - half >= 0 && (b.xMin + b.xMax) / 2 + half <= frameWidth
      && (b.yMin + b.yMax) / 2 - half >= 0 && (b.yMin + b.yMax) / 2 + half <= frameHeight
    ensures var r := Centered(b, frameWidth, frameHeight);
      r.xMax - r.xMin == r.yMax - r.yMin == 2 * (Side(b) / 2)
  {
  }

  /** Near a frame edge the clamps shrink one side: this box is 130 wide and 200 high. */
  lemma NotSquareNearEdge()
    ensures BoxOf([0, 10], [200, 300], 640, 480, 50) == Box(0, 150, 130, 350)
  {
    assert MinOf([0, 10]) == 0 && MaxOf([0, 10]) == 10;
    assert MinOf([200, 300]) == 200 && MaxOf([200, 300]) == 300;
  }

  /** With keypoints inside the frame, the box lies inside it, so its slice selects exactly the box. */
  lemma SelectedBoxOf(xs: seq<int>, ys: seq<int>, frameWidth: nat, frameHeight: nat, padding: int)
    requires |xs| > 0 && |ys| > 0 && InRange(xs, frameWidth) && InRange(ys, frameHeight) && padding >= 0
    ensures var b := BoxOf(xs, ys, frameWidth, frameHeight, padding);
      0 <= b.xMin <= b.xMax <= frameWidth && 0 <= b.yMin <= b.yMax <= frameHeight
    ensures Selected(BoxOf(xs, ys, frameWidth, frameHeight, padding), frameWidth, frameHeight)
      == BoxOf(xs, ys, frameWidth, frameHeight, padding)
  {
    var mx, Mx, my, My := MinOf(xs), MaxOf(xs), MinOf(ys), MaxOf(ys);
    assert 0 <= mx <= Mx <= frameWidth - 1;
    assert 0 <= my <= My <= frameHeight - 1;
    var p := Padded(xs, ys, frameWidth, frameHeight, padding);
    assert 0 <= p.xMin <= p.xMax <= frameWidth && 0 <= p.yMin <= p.yMax <= frameHeight;
    var b := BoxOf(xs, ys, frameWidth, frameHeight, padding);
    assert b == Centered(p, frameWidth, frameHeight);
    var half := Side(p) / 2;
    var xCenter, yCenter := (p.xMin + p.xMax) / 2, (p.yMin + p.yMax) / 2;
    assert 0 <= half && p.xMin <= xCenter <= p.xMax && p.yMin <= yCenter <= p.yMax;
    assert b.xMin <= xCenter <= b.xMax && b.yMin <= yCenter <= b.yMax;
  }

  /**
   * Keypoints left of the frame give a negative stop, which the slice counts from the right edge:
   * the box (0, 150, -25, 350) is empty as numbers, but `frame[150:350, 0:-25]` is 200 rows of
   * 615 columns, so nothing raises.
   */
  lemma NegativeStopStillCrops()
    ensures BoxOf([-300], [200, 300], 640, 480, 50) == Box(0, 150, -25, 350)
    ensures !NonEmpty(Box(0, 150, -25, 350))
    ensures Selected(Box(0, 150, -25, 350), 640, 480) == Box(0, 150, 615, 350)
    ensures NonEmpty(Box(0, 150, 615, 350))
  {
    assert MinOf([-300]) == -300 && MaxOf([-300]) == -300;
    assert MinOf([200, 300]) == 200 && MaxOf([200, 300]) == 300;
  }

  // ---------------------------------------------------------------------------------------------
  // Frames and the capture scan

  /**
   * The image operations the collector uses on frames of type F: the detector on an image,
   * `cv2.cvtColor(frame, COLOR_BGR2RGB)`, the slice `frame[y_min:y_max, x_min:x_max]` (given the
   * bounds it selects, see `Selected`), and `cv2.resize(image, TARGET_SIZE)`.
   */
  datatype Vision<!F> = Vision(detector: Detector<F>, toRgb: F -> F, slice: (F, Box) -> F, resize: F -> F)

  /** `process_frame`: the detector's hands on the RGB-converted frame. */
  function ProcessFrame<F>(v: Vision<F>, frame: F): seq<Hand>
  {
    v.detector.process(v.toRgb(frame))
  }

  /** What `crop_frame` does with a frame and the first hand detected in it. */
  datatype CropResult<F> = Cropped(image: F) | HandLost | CropRaised

  /** The box `get_box` computes for `hand` in `frame`. */
  function FrameBox<F>(v: Vision<F>, frame: F, hand: Hand): Box
  {
    var w, h := v.detector.width(frame), v.detector.height(frame);
    BoxOf(XsOf(hand, w, h), YsOf(hand, w, h), w, h, PADDING)
  }

  /** The rows and columns the slice of `crop_frame` selects for `hand` in `frame`. */
  function CropBox<F>(v: Vision<F>, frame: F, hand: Hand): Box
  {
    Selected(FrameBox(v, frame, hand), v.detector.width(frame), v.detector.height(frame))
  }

  /**
   * The result of `crop_frame`: an empty slice makes `cv2.resize` raise; otherwise the resized crop
   * when the detector still finds a hand in it (run on the crop as it is, without the RGB
   * conversion `process_frame` applies), else nothing.
   */
  function CropOf<F>(v: Vision<F>, frame: F, hand: Hand): CropResult<F>
  {
    var box := CropBox(v, frame, hand);
    if !NonEmpty(box) then CropRaised
    else
      var resized := v.resize(v.slice(frame, box));
      if |v.detector.process(resized)| == 0 then HandLost else Cropped(resized)
  }

  /** `crop_frame`: the box, the crop, the resize, and the re-detection on the resized crop. */
  method CropFrame<F>(v: Vision<F>, frame: F, hands: seq<Hand>) returns (r: CropResult<F>)
    requires |hands| > 0
    ensures r == CropOf(v, frame, hands[0])
    ensures r.Cropped? ==> |v.detector.process(r.image)| > 0
  {
    var frameWidth, frameHeight := v.detector.width(frame), v.detector.height(frame);
    var box := GetBox(frameWidth, frameHeight, hands[0]);
    // The slice selects these rows and columns; `cv2.resize` raises when there are none.
    var selected := Selected(box, frameWidth, frameHeight);
    if !NonEmpty(selected) {
      return CropRaised;
    }
    var cropped := v.slice(frame, selected);
    var resized := v.resize(cropped);
    var result := v.detector.process(resized);
    if |result| == 0 {
      return HandLost;
    }
    r := Cropped(resized);
  }

  /** What one buffered frame contributes to the scan. */
  datatype Attempt<F> =
    | NoHand            // no hand detected in the frame
    | Lost              // a hand, but none in the cropped image: scan older frames
    | Raises            // the slice selects nothing and `cv2.resize` raises
    | Accepted(image: F)

  predicate Rejected<F>(a: Attempt<F>)
  {
    a.NoHand? || a.Lost?
  }

  /**
   * The frame's contribution to the scan. With cropping on, an accepted image is the resized crop
   * in which the hand was found again, never the uncropped frame; with cropping off it is the frame.
   */
  function AttemptOf<F>(v: Vision<F>, frame: F, crop: bool): Attempt<F>
  {
    var hands := ProcessFrame(v, frame);
    if |hands| == 0 then NoHand
    else if !crop then Accepted(frame)
    else match CropOf(v, frame, hands[0])
      case Cropped(image) => Accepted(image)
      case HandLost => Lost
      case CropRaised => Raises
  }

  /**
   * An accepted frame has a detected hand. With cropping on, the accepted image is the resized crop
   * in which the hand was found again, never the uncropped frame; with cropping off it is the frame.
   * Only cropping can lose the hand or raise.
   */
  lemma AttemptMeaning<F>(v: Vision<F>, frame: F, crop: bool)
    ensures var a := AttemptOf(v, frame, crop);
      && (a.Accepted? ==> |ProcessFrame(v, frame)| > 0)
      && (a.Accepted? && crop ==>
        var box := CropBox(v, frame, ProcessFrame(v, frame)[0]);
        NonEmpty(box) && a.image == v.resize(v.slice(frame, box)) && |v.detector.process(a.image)| > 0)
      && (a.Accepted? && !crop ==> a.image == frame)
      && (a.Lost? || a.Raises? ==> crop)
  {
    var hands := ProcessFrame(v, frame);
    if |hands| > 0 && crop {
      var c := CropOf(v, frame, hands[0]);
      CropMeaning(v, frame, hands[0]);
      match c
      case Cropped(image) => assert AttemptOf(v, frame, crop) == Accepted(image);
      case HandLost => assert AttemptOf(v, frame, crop) == Lost;
      case CropRaised => assert AttemptOf(v, frame, crop) == Raises;
    }
  }

  /** A successful crop is the resized non-empty slice in which a hand is found again. */
  lemma CropMeaning<F>(v: Vision<F>, frame: F, hand: Hand)
    ensures var c := CropOf(v, frame, hand);
      c.Cropped? ==> var box := CropBox(v, frame, hand);
        NonEmpty(box) && c.image == v.resize(v.slice(frame, box)) && |v.detector.process(c.image)| > 0
  {
  }

  /** What `keydown` does: raises, saves nothing, or saves one image under a label. */
  datatype KeyDownOutcome<F> = Raised(error: CollectorError) | NothingSaved | Saved(image: F, name: string)

  /** The last `min(n, FRAME_BUFFER_SIZE)` of the `n` frames pushed, oldest first. */
  function Recent<F>(pushed: seq<F>): (r: seq<F>)
    ensures |r| == Min(|pushed|, FRAME_BUFFER_SIZE)
  {
    pushed[|pushed| - Min(|pushed|, FRAME_BUFFER_SIZE)..]
  }

  /** One `add_to_buffer` on a buffer value: append, then drop the oldest if over capacity. */
  function Push<F>(buffer: seq<F>, frame: F): seq<F>
  {
    if |buffer + [frame]| > FRAME_BUFFER_SIZE then (buffer + [frame])[1..] else buffer + [frame]
  }

  /** The buffer after pushing `frames` in order into an empty buffer. */
  function PushAll<F>(frames: seq<F>): seq<F>
  {
    if |frames| == 0 then [] else Push(PushAll(frames[..|frames| - 1]), frames[|frames| - 1])
  }

  /** Pushing onto the recent frames of a history gives the recent frames of the longer history. */
  lemma PushRecent<F>(pushed: seq<F>, frame: F)
    ensures Push(Recent(pushed), frame) == Recent(pushed + [frame])
  {
    var n := |pushed|;
    if n >= FRAME_BUFFER_SIZE {
      assert (Recent(pushed) + [frame])[1..] == (pushed + [frame])[n + 1 - FRAME_BUFFER_SIZE..];
    } else {
      assert Recent(pushed) == pushed;
      assert Recent(pushed + [frame]) == pushed + [frame];
    }
  }

  /**
   * After any sequence of pushes the buffer holds at most FRAME_BUFFER_SIZE frames: the last
   * `min(n, FRAME_BUFFER_SIZE)` pushed, in push order, newest last.
   */
  lemma {:induction false} PushAllIsRecent<F>(frames: seq<F>)
    ensures PushAll(frames) == Recent(frames)
    ensures |PushAll(frames)| <= FRAME_BUFFER_SIZE
  {
    if |frames| > 0 {
      var init := frames[..|frames| - 1];
      PushAllIsRecent(init);
      PushRecent(init, frames[|frames| - 1]);
      assert init + [frames[|frames| - 1]] == frames;
    }
  }

  /**
   * The collector's state: the frame buffer, and the history of pushed frames it summarises.
   * `crop` is the script's CROP setting.
   */
  class Collector<F> {
    const crop: bool
    var frameBuffer: seq<F>
    ghost var pushed: seq<F>

    ghost predicate Valid()
      reads this
    {
      frameBuffer == Recent(pushed)
    }

    constructor (crop: bool)
      ensures Valid() && this.crop == crop && pushed == [] && frameBuffer == []
    {
      this.crop := crop;
      frameBuffer := [];
      pushed := [];
    }

    /** `add_to_buffer`: appends a copy of the frame and drops the oldest when over capacity. */
    method AddToBuffer(frame: F)
      requires Valid()
      modifies this
      ensures Valid()
      ensures pushed == old(pushed) + [frame]
      ensures frameBuffer == Push(old(frameBuffer), frame)
      ensures |frameBuffer| <= FRAME_BUFFER_SIZE && frameBuffer[|frameBuffer| - 1] == frame
    {
      frameBuffer := frameBuffer + [frame];
      if |frameBuffer| > FRAME_BUFFER_SIZE {
        frameBuffer := frameBuffer[1..];
      }
      PushRecent(pushed, frame);
      pushed := pushed + [frame];
    }

    /**
     * One pass of the `keydown` loop body on one buffered frame: detect; with cropping on, crop and
     * detect again; then the frame is skipped, raises, or gives the image to save.
     */
    method ExamineFrame(v: Vision<F>, frame: F) returns (a: Attempt<F>)
      ensures a == AttemptOf(v, frame, crop)
    {
      var results := ProcessFrame(v, frame);
      if |results| == 0 {
        return NoHand;
      }
      var bestFrame := frame;
      if crop {
        var cropped := CropFrame(v, frame, results);
        match cropped
        case CropRaised => return Raises;
        case HandLost => return Lost;
        case Cropped(image) => bestFrame := image;
      }
      a := Accepted(bestFrame);
    }

    /**
     * `keydown`: an invalid key raises; otherwise the buffer is scanned newest first and the first
     * frame whose attempt is not skipped decides the outcome (`KeyDownOf`).
     */
    method KeyDown(key: string, text: PyText, v: Vision<F>) returns (o: KeyDownOutcome<F>)
      ensures o == KeyDownOf(key, text, v, frameBuffer, crop)
    {
      var name := KeyToLabel(key, text);
      if name.Failure? {
        return Raised(InvalidKey);
      }
      o := ScanBuffer(v, name.value);
    }

    /** The loop of `keydown`: newest frame first, until a frame is accepted or raises. */
    method ScanBuffer(v: Vision<F>, name: string) returns (o: KeyDownOutcome<F>)
      ensures o == ScanOutcome(Attempts(v, frameBuffer, crop), name)
    {
      ghost var attempts := Attempts(v, frameBuffer, crop);
      var i := |frameBuffer|;
      while i > 0
        invariant 0 <= i <= |frameBuffer|
        invariant NewestUsable(attempts, |attempts|) == NewestUsable(attempts, i)
      {
        i := i - 1;
        var attempt := ExamineFrame(v, frameBuffer[i]);
        assert attempt == attempts[i];
        match attempt
        case Raises =>
          assert NewestUsable(attempts, i + 1) == Some(i);
          return Raised(EmptyCrop);
        case Accepted(image) =>
          assert NewestUsable(attempts, i + 1) == Some(i);
          return Saved(image, name);
        case _ =>
          assert NewestUsable(attempts, i + 1) == NewestUsable(attempts, i);
      }
      assert NewestUsable(attempts, 0) == None;
      return NothingSaved;
    }
  }

  /** The attempt of every buffered frame, oldest first. */
  function Attempts<F>(v: Vision<F>, buffer: seq<F>, crop: bool): (r: seq<Attempt<F>>)
    ensures |r| == |buffer|
  {
    seq(|buffer|, k requires 0 <= k < |buffer| => AttemptOf(v, buffer[k], crop))
  }

  /** The index of the newest of the first `n` attempts that is not skipped, if any. */
  function NewestUsable<F>(attempts: seq<Attempt<F>>, n: nat): (r: Option<nat>)
    requires n <= |attempts|
    ensures r.Some? ==> r.value < n
  {
    if n == 0 then None
    else if !Rejected(attempts[n - 1]) then Some(n - 1)
    else NewestUsable(attempts, n - 1)
  }

  /**
   * The scan finds the newest usable attempt: every attempt after it is skipped, and it finds none
   * exactly when all `n` attempts are skipped.
   */
  lemma {:induction false} NewestUsableMeaning<F>(attempts: seq<Attempt<F>>, n: nat)
    requires n <= |attempts|
    ensures var r := NewestUsable(attempts, n);
      && (r.Some? ==> r.value < n && !Rejected(attempts[r.value]))
      && (r.Some? ==> forall k :: r.value < k < n ==> Rejected(attempts[k]))
      && (r.None? <==> forall k :: 0 <= k < n ==> Rejected(attempts[k]))
  {
    if n > 0 && Rejected(attempts[n - 1]) {
      NewestUsableMeaning(attempts, n - 1);
      assert NewestUsable(attempts, n) == NewestUsable(attempts, n - 1);
    }
  }

  /** The outcome of `keydown` on a buffer. */
  function KeyDownOf<F>(key: string, text: PyText, v: Vision<F>, buffer: seq<F>, crop: bool): KeyDownOutcome<F>
  {
    match KeyToLabel(key, text)
    case Failure(_) => Raised(InvalidKey)
    case Success(name) => ScanOutcome(Attempts(v, buffer, crop), name)
  }

  /** What the scan of `keydown` gives: the newest usable attempt saved under `name`, or raising. */
  function ScanOutcome<F>(attempts: seq<Attempt<F>>, name: string): KeyDownOutcome<F>
  {
    match NewestUsable(attempts, |attempts|)
    case None => NothingSaved
    case Some(j) =>
      match attempts[j]
      case Accepted(image) => Saved(image, name)
      case _ => Raised(EmptyCrop)
  }

  /**
   * What `keydown` promises: an invalid key raises; a saved image is the accepted attempt of some
   * frame all of whose newer frames were skipped, and it is saved under the key's label; nothing is
   * saved exactly when every frame is skipped; an empty crop box raises only when every newer frame
   * was skipped. Frames with no hand, and frames whose crop loses the hand, are skipped; there is no
   * fallback to an uncropped frame, and at most one image is saved.
   */
  lemma KeyDownMeaning<F>(key: string, text: PyText, v: Vision<F>, buffer: seq<F>, crop: bool)
    ensures var o := KeyDownOf(key, text, v, buffer, crop);
      && (KeyToLabel(key, text).Failure? ==> o == Raised(InvalidKey))
      && (KeyToLabel(key, text).Success? ==>
        && (o.Saved? ==>
              o.name == KeyToLabel(key, text).value &&
              exists j :: 0 <= j < |buffer| && AttemptOf(v, buffer[j], crop) == Accepted(o.image) &&
                forall k :: j < k < |buffer| ==> Rejected(AttemptOf(v, buffer[k], crop)))
        && (o == NothingSaved <==> forall k :: 0 <= k < |buffer| ==> Rejected(AttemptOf(v, buffer[k], crop)))
        && (o.Raised? ==>
              o.error == EmptyCrop &&
              exists j :: 0 <= j < |buffer| && AttemptOf(v, buffer[j], crop) == Raises &&
                forall k :: j < k < |buffer| ==> Rejected(AttemptOf(v, buffer[k], crop))))
  {
    var o := KeyDownOf(key, text, v, buffer, crop);
    var attempts := Attempts(v, buffer, crop);
    NewestUsableMeaning(attempts, |attempts|);
    assert forall k :: 0 <= k < |buffer| ==> attempts[k] == AttemptOf(v, buffer[k], crop);
    if KeyToLabel(key, text).Success? {
      var name := KeyToLabel(key, text).value;
      match NewestUsable(attempts, |attempts|)
      case None =>
        assert o == NothingSaved;
      case Some(j) =>
        assert !Rejected(AttemptOf(v, buffer[j], crop));
        if attempts[j].Accepted? {
          assert o == Saved(attempts[j].image, name);
        } else {
          assert AttemptOf(v, buffer[j], crop) == Raises;
          assert o == Raised(EmptyCrop);
        }
    }
  }

  /**
   * The scan reaches the oldest frame: when every newer frame is skipped and the oldest is
   * accepted, that image is saved.
   */
  lemma OldestFrameSaved<F>(key: string, text: PyText, v: Vision<F>, buffer: seq<F>, crop: bool, image: F)
    requires KeyToLabel(key, text).Success?
    requires |buffer| > 0 && AttemptOf(v, buffer[0], crop) == Accepted(image)
    requires forall k :: 0 < k < |buffer| ==> Rejected(AttemptOf(v, buffer[k], crop))
    ensures KeyDownOf(key, text, v, buffer, crop) == Saved(image, KeyToLabel(key, text).value)
  {
    var attempts := Attempts(v, buffer, crop);
    NewestUsableMeaning(attempts, |attempts|);
    assert forall k :: 0 < k < |attempts| ==> Rejected(attempts[k]);
    assert !Rejected(attempts[0]);
    assert NewestUsable(attempts, |attempts|) == Some(0);
  }

  /** With cropping off, the saved image is the newest buffered frame in which a hand is detected. */
  lemma UncroppedSavesNewestWithHand<F>(key: string, text: PyText, v: Vision<F>, buffer: seq<F>, j: nat)
    requires KeyToLabel(key, text).Success?
    requires j < |buffer| && |ProcessFrame(v, buffer[j])| > 0
    requires forall k :: j < k < |buffer| ==> |ProcessFrame(v, buffer[k])| == 0
    ensures KeyDownOf(key, text, v, buffer, false) == Saved(buffer[j], KeyToLabel(key, text).value)
  {
    var attempts := Attempts(v, buffer, false);
    NewestUsableMeaning(attempts, |attempts|);
    assert forall k :: j < k < |attempts| ==> attempts[k] == NoHand;
    assert attempts[j] == Accepted(buffer[j]);
    assert NewestUsable(attempts, |attempts|) == Some(j);
  }
}
