/**
 * Browser-side feature computation (src/lib/handlers/LandmarksProcessor.ts): the same
 * normalisation as the Python scripts, computed with `Math.floor` and JavaScript numbers.
 */
module LandmarksProcessor {
  import opened Landmark
  import opened Features
  import Wrappers
  import BasicImageProcessor

  /** A JavaScript number of the feature vector: a value, or NaN from dividing 0 by 0. */
  datatype JsNumber = Num(value: real) | NaN

  /** One landmark in pixels: `Math.min(Math.floor(x * imageWidth), imageWidth - 1)`, likewise for y. */
  function AbsolutePosition(l: Landmark3d, imageWidth: int, imageHeight: int): (p: Landmark2d)
    ensures p.x <= imageWidth - 1 && p.y <= imageHeight - 1
  {
    Landmark2d(Min(JsFloor(l.x * imageWidth as real), imageWidth - 1), Min(JsFloor(l.y * imageHeight as real), imageHeight - 1))
  }

  function AbsolutePositions(ls: seq<Landmark3d>, imageWidth: int, imageHeight: int): (r: seq<Landmark2d>)
    ensures |r| == |ls|
  {
    seq(|ls|, i requires 0 <= i < |ls| => AbsolutePosition(ls[i], imageWidth, imageHeight))
  }

  /** `calcAbsolutePositions`: one pixel landmark per input landmark, pushed in input order. */
  method CalcAbsolutePositions(landmarks: seq<Landmark3d>, imageWidth: int, imageHeight: int)
    returns (newLandmarks: seq<Landmark2d>)
    ensures |newLandmarks| == |landmarks|
    ensures forall i :: 0 <= i < |landmarks| ==> newLandmarks[i] == AbsolutePosition(landmarks[i], imageWidth, imageHeight)
    ensures forall i :: 0 <= i < |landmarks| ==> newLandmarks[i].x <= imageWidth - 1 && newLandmarks[i].y <= imageHeight - 1
  {
    newLandmarks := [];
    for i := 0 to |landmarks|
      invariant |newLandmarks| == i
      invariant forall k :: 0 <= k < i ==> newLandmarks[k] == AbsolutePosition(landmarks[k], imageWidth, imageHeight)
    {
      newLandmarks := newLandmarks + [AbsolutePosition(landmarks[i], imageWidth, imageHeight)];
    }
  }

  /**
   * What `calcRelativeLandmarks` returns: `[]` for no landmarks (`Math.max()` is -Infinity but
   * nothing is divided), all NaN when every landmark equals landmark 0, else the deltas over the
   * largest absolute delta.
   */
  function RelativeFeatures(ps: seq<Landmark2d>): (r: seq<JsNumber>)
  {
    if |ps| == 0 then []
    else if MaxAbs(Deltas(ps)) == 0 then seq(2 * |ps|, _ => NaN)
    else
      var v := Divide(Deltas(ps), MaxAbs(Deltas(ps)));
      seq(|v|, i requires 0 <= i < |v| => Num(v[i]))
  }

  /**
   * `calcRelativeLandmarks`: clones the input, rewrites each clone relative to landmark 0 in place,
   * pushes x and y of each into a flat list, and divides by the largest absolute value.
   */
  method CalcRelativeLandmarks(landmarks: seq<Landmark2d>) returns (r: seq<JsNumber>)
    ensures r == RelativeFeatures(landmarks)
  {
    var n := |landmarks|;
    var tempLandmarkList := new Landmark2d[n](i requires 0 <= i < n => landmarks[i]);
    assert tempLandmarkList[..] == landmarks;
    MakeRelative(tempLandmarkList);
    var flattened := FlattenPoints(tempLandmarkList);
    assert flattened == Deltas(landmarks);
    if n == 0 {
      return [];
    }
    var maxValue := MaxAbs(flattened);
    if maxValue == 0 {
      r := seq(|flattened|, _ => NaN);
    } else {
      r := seq(|flattened|, i requires 0 <= i < |flattened| => Num(flattened[i] as real / maxValue as real));
      assert r == RelativeFeatures(landmarks);
    }
  }

  /** The first loop of `calcRelativeLandmarks`: each point, in place, minus the point at index 0. */
  method MakeRelative(a: array<Landmark2d>)
    modifies a
    ensures a[..] == Relative(old(a[..]))
  {
    ghost var landmarks := a[..];
    var n := a.Length;
    var baseX, baseY := 0, 0;
    for index := 0 to n
      invariant index > 0 ==> baseX == landmarks[0].x && baseY == landmarks[0].y
      invariant forall k :: 0 <= k < index ==> a[k] == Relative(landmarks)[k]
      invariant forall k :: index <= k < n ==> a[k] == landmarks[k]
    {
      var landmarkPoint := a[index];
      if index == 0 {
        baseX, baseY := landmarkPoint.x, landmarkPoint.y;
      }
      a[index] := Landmark2d(a[index].x - baseX, a[index].y - baseY);
    }
  }

  /** The second loop of `calcRelativeLandmarks`: x then y of every point, in order. */
  method FlattenPoints(a: array<Landmark2d>) returns (flattened: seq<int>)
    ensures flattened == Flatten(a[..])
  {
    flattened := [];
    for index := 0 to a.Length
      invariant flattened == Flatten(a[..index])
    {
      FlattenSnoc(a[..index], a[index]);
      assert a[..index + 1] == a[..index] + [a[index]];
      flattened := flattened + [a[index].x];
      flattened := flattened + [a[index].y];
    }
    assert a[..a.Length] == a[..];
  }

  /** `processLandmarks`: absolute positions, then relative features. */
  method ProcessLandmarks(landmarks: seq<Landmark3d>, imageWidth: int, imageHeight: int) returns (r: seq<JsNumber>)
    ensures r == RelativeFeatures(AbsolutePositions(landmarks, imageWidth, imageHeight))
  {
    var absolute := CalcAbsolutePositions(landmarks, imageWidth, imageHeight);
    assert absolute == AbsolutePositions(landmarks, imageWidth, imageHeight);
    r := CalcRelativeLandmarks(absolute);
  }

  /**
   * The browser vector against the training vector for the same pixel points: equal values where
   * Python succeeds, `[]` where Python's `max()` fails, all NaN where Python divides by zero.
   */
  lemma MatchesPythonFeatures(ps: seq<Landmark2d>)
    ensures BasicImageProcessor.Normalize(ps).Success? ==>
      var v := BasicImageProcessor.Normalize(ps).value;
      |RelativeFeatures(ps)| == |v| && forall i :: 0 <= i < |v| ==> RelativeFeatures(ps)[i] == Num(v[i])
    ensures BasicImageProcessor.Normalize(ps) == Wrappers.Failure(BasicImageProcessor.EmptyMax) ==>
      RelativeFeatures(ps) == []
    ensures BasicImageProcessor.Normalize(ps) == Wrappers.Failure(BasicImageProcessor.ZeroDivision) ==>
      |RelativeFeatures(ps)| == 2 * |ps| && forall i :: 0 <= i < 2 * |ps| ==> RelativeFeatures(ps)[i] == NaN
  {
  }

  /**
   * The browser features have two entries per landmark, start with (0, 0) and lie in [-1, 1] with
   * an entry equal to 1 or -1 whenever some landmark differs from landmark 0.
   */
  lemma RelativeFeaturesBounds(ps: seq<Landmark2d>)
    requires exists i :: 0 <= i < |ps| && ps[i] != ps[0]
    ensures |RelativeFeatures(ps)| == 2 * |ps|
    ensures RelativeFeatures(ps)[0] == Num(0.0) && RelativeFeatures(ps)[1] == Num(0.0)
    ensures forall i :: 0 <= i < 2 * |ps| ==> RelativeFeatures(ps)[i].Num? && -1.0 <= RelativeFeatures(ps)[i].value <= 1.0
    ensures exists j :: 0 <= j < 2 * |ps| && (RelativeFeatures(ps)[j] == Num(1.0) || RelativeFeatures(ps)[j] == Num(-1.0))
  {
    BasicImageProcessor.NormalizeFailures(ps);
    BasicImageProcessor.NormalizeBounds(ps);
    MatchesPythonFeatures(ps);
  }

  /**
   * `Math.floor` and Python's `int()` give the same pixel when the scaled coordinates are
   * non-negative; then the browser sees the pixels the training script saw (for negative ones see
   * `PixelsDifferLeftOfFrame`).
   */
  lemma PixelsMatchPython(l: Landmark3d, imageWidth: int, imageHeight: int)
    requires l.x * imageWidth as real >= 0.0 && l.y * imageHeight as real >= 0.0
    ensures AbsolutePosition(l, imageWidth, imageHeight) == PixelOf(l, imageWidth, imageHeight)
  {
    TruncAgreesWithFloor(l.x * imageWidth as real);
    TruncAgreesWithFloor(l.y * imageHeight as real);
  }

  /** A landmark left of the frame edge can land one pixel apart in the two implementations. */
  lemma PixelsDifferLeftOfFrame()
    ensures AbsolutePosition(Landmark3d(-0.001, 0.5, 0.0), 640, 480).x == -1
    ensures PixelOf(Landmark3d(-0.001, 0.5, 0.0), 640, 480).x == 0
  {
    assert -0.001 * 640.0 == -0.64;
  }

  /**
   * For landmarks whose scaled coordinates are all non-negative, the browser starts from the very
   * pixels of the Python scripts, so by `MatchesPythonFeatures` it computes their feature vector.
   */
  lemma ProcessMatchesTraining(ls: seq<Landmark3d>, imageWidth: int, imageHeight: int)
    requires forall i :: 0 <= i < |ls| ==> ls[i].x * imageWidth as real >= 0.0 && ls[i].y * imageHeight as real >= 0.0
    ensures AbsolutePositions(ls, imageWidth, imageHeight) == Pixels(ls, imageWidth, imageHeight)
  {
    forall i | 0 <= i < |ls| ensures AbsolutePositions(ls, imageWidth, imageHeight)[i] == Pixels(ls, imageWidth, imageHeight)[i] {
      PixelsMatchPython(ls[i], imageWidth, imageHeight);
    }
  }

  /**
   * Landmark `m` is landmark `l` moved by the whole pixels `kx`, `ky` in a frame of the given size,
   * and neither is clamped at the right or bottom edge.
   */
  ghost predicate MovedByPixels(l: Landmark3d, m: Landmark3d, imageWidth: int, imageHeight: int, kx: int, ky: int)
  {
    && m.x * imageWidth as real == l.x * imageWidth as real + kx as real
    && m.y * imageHeight as real == l.y * imageHeight as real + ky as real
    && JsFloor(l.x * imageWidth as real) <= imageWidth - 1 && JsFloor(m.x * imageWidth as real) <= imageWidth - 1
    && JsFloor(l.y * imageHeight as real) <= imageHeight - 1 && JsFloor(m.y * imageHeight as real) <= imageHeight - 1
  }

  /**
   * `processLandmarks` is translation invariant for a whole-pixel shift: when every landmark moves
   * by the same whole pixels and no point is clamped at the right or bottom edge, the output is
   * unchanged.
   */
  lemma ProcessTranslationInvariant(ls: seq<Landmark3d>, moved: seq<Landmark3d>, imageWidth: int, imageHeight: int, kx: int, ky: int)
    requires |moved| == |ls|
    requires forall i :: 0 <= i < |ls| ==> MovedByPixels(ls[i], moved[i], imageWidth, imageHeight, kx, ky)
    ensures RelativeFeatures(AbsolutePositions(moved, imageWidth, imageHeight)) == RelativeFeatures(AbsolutePositions(ls, imageWidth, imageHeight))
  {
    var a := AbsolutePositions(ls, imageWidth, imageHeight);
    var b := AbsolutePositions(moved, imageWidth, imageHeight);
    forall i | 0 <= i < |ls| ensures b[i] == Shift(a[i], kx, ky) {
      AbsolutePositionShift(ls[i], moved[i], imageWidth, imageHeight, kx, ky);
    }
    assert b == Translate(a, kx, ky);
    DeltasTranslationInvariant(a, kx, ky);
  }

  lemma AbsolutePositionShift(l: Landmark3d, m: Landmark3d, imageWidth: int, imageHeight: int, kx: int, ky: int)
    requires MovedByPixels(l, m, imageWidth, imageHeight, kx, ky)
    ensures AbsolutePosition(m, imageWidth, imageHeight) == Shift(AbsolutePosition(l, imageWidth, imageHeight), kx, ky)
  {
    PixelShift(l.x * imageWidth as real, m.x * imageWidth as real, imageWidth, kx);
    PixelShift(l.y * imageHeight as real, m.y * imageHeight as real, imageHeight, ky);
  }

  /** An unclamped pixel coordinate moves by exactly the whole-pixel shift of its scaled value. */
  lemma PixelShift(r: real, moved: real, dim: int, k: int)
    requires moved == r + k as real
    requires JsFloor(r) <= dim - 1 && JsFloor(moved) <= dim - 1
    ensures Min(JsFloor(moved), dim - 1) == Min(JsFloor(r), dim - 1) + k
  {
  }
}
