/**
 * The hand detector (MediaPipe Hands) as the scripts see it: an external collaborator that
 * reports zero or more hands for an image, and the image's pixel size.
 */
module Detection {
  import opened Landmark

  /**
   * `process` is `hands.process(image).multi_hand_landmarks` (empty when nothing is detected);
   * `width` and `height` are `image.shape[1]` and `image.shape[0]`.
   */
  datatype Detector<!F> = Detector(process: F -> seq<Hand>, width: F -> nat, height: F -> nat)
}
