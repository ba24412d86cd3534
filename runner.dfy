/**
 * Live inference (python_recognition/runner/Runner.py): every detected hand is featurised with the
 * same functions as the training script and classified, and the class name is printed.
 * Runner.py's `calc_landmark_list` and `pre_process_landmark` are the same code as the training
 * script's, so `Process` calls the BasicImageProcessor members for them.
 */
module Runner {
  import opened Wrappers
  import opened Landmark
  import opened Detection
  import BasicImageProcessor

  /** Runner.py's own copy of the label table. */
  const LABELS: seq<string> := ["a", "b", "c", "d", "e", "f", "g", "h", "ch", "i", "j", "k", "l",
    "m", "n", "o", "p", "q", "r", "s", "t", "u", "v", "w", "x", "y", "z", "none"]

  /** What stops `process`: a feature error, argmax of an empty prediction, or a class past the table. */
  datatype RunnerError =
    | FeatureFailed(cause: BasicImageProcessor.FeatureError)
    | EmptyPrediction
    | LabelOutOfRange(index: nat)

  /** The runner's table is the training script's table, entry for entry, so class `k` means the same label. */
  lemma SameLabelTable()
    ensures |LABELS| == |BasicImageProcessor.LABELS| == 28
    ensures forall k :: 0 <= k < |LABELS| ==> LABELS[k] == BasicImageProcessor.LABELS[k]
  {
  }

  /** `np.argmax`: the first index of a largest entry. */
  function ArgMax(p: seq<real>): (k: nat)
    requires |p| > 0
    ensures k < |p|
    ensures forall i :: 0 <= i < |p| ==> p[i] <= p[k]
    ensures forall i :: 0 <= i < k ==> p[i] < p[k]
  {
    if |p| == 1 then 0
    else
      var k := ArgMax(p[..|p| - 1]);
      assert forall i :: 0 <= i < |p| - 1 ==> p[i] == p[..|p| - 1][i];
      if p[|p| - 1] > p[k] then |p| - 1 else k
  }

  /** The features of one hand exactly as the training script computes them. */
  function HandFeatures(hand: Hand, width: int, height: int): Result<seq<real>, BasicImageProcessor.FeatureError>
  {
    BasicImageProcessor.Normalize(Pixels(hand, width, height))
  }

  /**
   * The class printed for one hand: `LABELS[argmax(predict(features))]`, or the error that stops the
   * loop. A printed class is always a label of the table; an index past the table is an IndexError.
   */
  function Classify(hand: Hand, width: int, height: int, predict: seq<real> -> seq<real>): Result<string, RunnerError>
  {
    match HandFeatures(hand, width, height)
    case Failure(e) => Failure(FeatureFailed(e))
    case Success(features) =>
      var prediction := predict(features);
      if |prediction| == 0 then Failure(EmptyPrediction)
      else
        var k := ArgMax(prediction);
        if k < |LABELS| then Success(LABELS[k]) else Failure(LabelOutOfRange(k))
  }

  /**
   * A printed class is always a label of the table; a class is printed exactly when the features
   * succeed, the prediction is non-empty and its arg-max is a valid index of the table.
   */
  lemma ClassifyMeaning(hand: Hand, width: int, height: int, predict: seq<real> -> seq<real>)
    ensures var r := Classify(hand, width, height, predict);
      && (r.Success? ==> r.value in LABELS)
      && (r.Success? <==>
        HandFeatures(hand, width, height).Success? &&
        |predict(HandFeatures(hand, width, height).value)| > 0 &&
        ArgMax(predict(HandFeatures(hand, width, height).value)) < |LABELS|)
  {
  }

  /** The classes printed by one call of `process`, and the error that ended it early, if any. */
  datatype Printed = Printed(classes: seq<string>, error: Option<RunnerError>)

  /**
   * `process`: detects hands on the RGB-converted frame and classifies every detected hand in
   * detector order, sizing pixels by the original frame; the first failing hand ends the call
   * with its error after the classes of the hands before it were printed.
   */
  method Process<F>(detector: Detector<F>, toRgb: F -> F, frame: F, predict: seq<real> -> seq<real>)
    returns (out: Printed)
    ensures var hands := detector.process(toRgb(frame));
      && |out.classes| <= |hands|
      && (forall i :: 0 <= i < |out.classes| ==>
            Classify(hands[i], detector.width(frame), detector.height(frame), predict) == Success(out.classes[i]))
      && (out.error.None? ==> |out.classes| == |hands|)
      && (out.error.Some? ==>
            |out.classes| < |hands| &&
            Classify(hands[|out.classes|], detector.width(frame), detector.height(frame), predict) == Failure(out.error.value))
  {
    var hands := detector.process(toRgb(frame));
    var width, height := detector.width(frame), detector.height(frame);
    ghost var expected := seq(|hands|, k requires 0 <= k < |hands| => Classify(hands[k], width, height, predict));
    var classes: seq<string> := [];
    var i := 0;
    while i < |hands|
      invariant 0 <= i <= |hands| && |classes| == i
      invariant forall k :: 0 <= k < i ==> expected[k] == Success(classes[k])
    {
      var predicted := ClassifyHand(hands[i], width, height, predict);
      assert predicted == expected[i];
      if predicted.Failure? {
        return Printed(classes, Some(predicted.error));
      }
      ghost var before := classes;
      classes := classes + [predicted.value];
      forall k | 0 <= k < i + 1
        ensures expected[k] == Success(classes[k])
      {
        if k < i {
          assert classes[k] == before[k];
        }
      }
      i := i + 1;
    }
    out := Printed(classes, None);
  }

  /**
   * One pass of the `process` loop body: the landmark list, the feature vector, the prediction and
   * its arg-max, and the label, or the error that stops the loop.
   */
  method ClassifyHand(hand: Hand, width: int, height: int, predict: seq<real> -> seq<real>)
    returns (r: Result<string, RunnerError>)
    ensures r == Classify(hand, width, height, predict)
  {
    var landmarkList := BasicImageProcessor.CalcLandmarkList(hand, width, height);
    assert landmarkList == Pixels(hand, width, height);
    var features := BasicImageProcessor.PreProcessLandmark(landmarkList);
    if features.Failure? {
      return Failure(FeatureFailed(features.error));
    }
    var prediction := predict(features.value);
    if |prediction| == 0 {
      return Failure(EmptyPrediction);
    }
    var predicted := ArgMax(prediction);
    if predicted >= |LABELS| {
      return Failure(LabelOutOfRange(predicted));
    }
    r := Success(LABELS[predicted]);
  }

  /**
   * Inference sees the features training wrote: for the first detected hand of an image, the
   * vector `Classify` feeds the model is the one `process_image` returns for the CSV.
   */
  lemma InferenceMatchesTraining<F>(detector: Detector<F>, img: F)
    requires |detector.process(img)| > 0
    ensures var f := HandFeatures(detector.process(img)[0], detector.width(img), detector.height(img));
      && (f.Success? <==> BasicImageProcessor.ImageFeatures(detector, img).Success?)
      && (f.Success? ==> BasicImageProcessor.ImageFeatures(detector, img) == Success(Some(f.value)))
  {
  }
}
