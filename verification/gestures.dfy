/**
 The gesture classifier of gestures.ts.

 A frame's detector output (`Results`) carries an optional face mesh and an
 optional body pose. `ClassifyGesture` checks, in this order, for raised
 hands (`"eureca"`), for a smile (`"smile"`), and otherwise answers
 `"serious"`. The declared result type admits `null`, which is modelled as
 `Option<Gesture>`; no path produces `None`.

 `detectSmile` divides one `Math.sqrt` distance by another.
 The model decides the same question on squared distances
 (`SmileBySquares`), and `DetectSmileMatchesRatio` proves that this agrees
 with the guarded division of `detectSmile` (`SmileByRatio`) applied to the two
 distances `calculateDistance` returns.
 */
module Gestures {
  import opened Options
  import opened Geometry

  /** `GestureType`: the three labels the classifier can produce. */
  datatype Gesture = Smile | Serious | Eureca

  /** The part of a detector result the classifier reads. Either sequence is absent when detection failed for the frame. */
  datatype Results = Results(faceLandmarks: Option<seq<Point>>, poseLandmarks: Option<seq<Point>>)

  // Pose indices.
  const LeftShoulder: nat := 11
  const RightShoulder: nat := 12
  const LeftWrist: nat := 15
  const RightWrist: nat := 16

  // Face-mesh indices, named as gestures.ts names them.
  const UpperLip: nat := 13
  const LowerLip: nat := 14
  const RightCorner: nat := 61
  const LeftCorner: nat := 291

  const SmileThreshold: real := 0.35

  /** The directory every displayed image lives in. */
  const ImageDirectory: string := "/MonkeyFacer/images/"

  /** The square of `SmileThreshold`, so that the ratio test can be decided without roots. */
  const SmileThresholdSq: real := 0.1225

  /**
   gestures.ts indexes the landmark sequences without bounds checks, so a
   sequence that is present must hold every index the classifier reads.
   */
  predicate WellFormed(results: Results) {
    && (results.poseLandmarks.Some? ==> |results.poseLandmarks.value| > RightWrist)
    && (results.faceLandmarks.Some? ==> |results.faceLandmarks.value| > LeftCorner)
  }

  /** Hands up: pose landmarks are present and a wrist is higher on screen (smaller `y`) than the shoulder on its side. */
  function DetectHandsUp(results: Results): (up: bool)
    requires WellFormed(results)
    ensures results.poseLandmarks.None? ==> !up
  {
    match results.poseLandmarks
    case None => false
    case Some(landmarks) =>
      var leftShoulder := landmarks[LeftShoulder];
      var rightShoulder := landmarks[RightShoulder];
      var leftWrist := landmarks[LeftWrist];
      var rightWrist := landmarks[RightWrist];
      leftWrist.y < leftShoulder.y || rightWrist.y < rightShoulder.y
  }

  /**
   The smile test as `detectSmile` writes it, on the mouth width and height
   that `calculateDistance` returns: a zero width is no smile, and the
   division happens only when the width is non-zero.
   */
  function SmileByRatio(mouthWidth: real, mouthHeight: real): (smile: bool)
    ensures smile ==> mouthWidth != 0.0
  {
    if mouthWidth == 0.0 then false
    else
      var mouthAspectRatio := mouthHeight / mouthWidth;
      mouthAspectRatio > SmileThreshold
  }

  /** The same test on the squares of the width and height. */
  predicate SmileBySquares(widthSq: real, heightSq: real) {
    widthSq != 0.0 && heightSq > SmileThresholdSq * widthSq
  }

  /** Smile: face landmarks are present, the mouth corners are apart, and the mouth is open beyond the threshold. */
  function DetectSmile(results: Results): (smile: bool)
    requires WellFormed(results)
    ensures results.faceLandmarks.None? ==> !smile
    ensures smile ==> results.faceLandmarks.Some?
                      && DistanceSq(results.faceLandmarks.value[LeftCorner], results.faceLandmarks.value[RightCorner]) > 0.0
  {
    match results.faceLandmarks
    case None => false
    case Some(face) =>
      var widthSq := DistanceSq(face[LeftCorner], face[RightCorner]);
      var heightSq := DistanceSq(face[UpperLip], face[LowerLip]);
      SmileBySquares(widthSq, heightSq)
  }

  /** `classifyGesture`: hands-up wins over smile, smile wins over the `"serious"` fallback. */
  function ClassifyGesture(results: Results): (g: Option<Gesture>)
    requires WellFormed(results)
    ensures g.Some?
    ensures results.faceLandmarks.None? && results.poseLandmarks.None? ==> g == Some(Serious)
    ensures g == Some(Eureca) ==> results.poseLandmarks.Some?
    ensures g == Some(Smile) ==> results.faceLandmarks.Some?
  {
    if DetectHandsUp(results) then Some(Eureca)
    else if DetectSmile(results) then Some(Smile)
    else Some(Serious)
  }

  /**
   `gestureToImage`: the image shown for each gesture, a non-empty `.png`
   path under the application's image directory. `ImageSrcInjective` shows
   that the three paths are pairwise distinct.
   */
  function GestureToImage(g: Gesture): (path: string)
    ensures |path| > |ImageDirectory| + 4
    ensures path[..|ImageDirectory|] == ImageDirectory
    ensures path[|path| - 4..] == ".png"
  {
    match g
    case Smile => "/MonkeyFacer/images/smile.png"
    case Serious => "/MonkeyFacer/images/xd.png"
    case Eureca => "/MonkeyFacer/images/eureca.png"
  }

  // ---------------------------------------------------------------------
  // The ratio test without roots
  // ---------------------------------------------------------------------

  /** For a positive divisor, the quotient exceeds `t` exactly when the dividend exceeds `t` times the divisor. */
  lemma QuotientExceeds(h: real, w: real, t: real)
    requires w > 0.0
    ensures h / w > t <==> h > t * w
  {
    var r := h / w;
    assert h == r * w;
    if r > t {
      ProductPositive(r - t, w);
      calc {
        h - t * w;
      ==
        (r - t) * w;
      >
        0.0;
      }
    } else if r < t {
      ProductPositive(t - r, w);
      calc {
        t * w - h;
      ==
        (t - r) * w;
      >
        0.0;
      }
    }
  }

  /**
   For non-negative width and height, the guarded ratio test of `detectSmile` and
   the model's squared test give the same answer.
   */
  lemma RatioIffSquares(mouthWidth: real, mouthHeight: real)
    requires mouthWidth >= 0.0 && mouthHeight >= 0.0
    ensures SmileByRatio(mouthWidth, mouthHeight) == SmileBySquares(Square(mouthWidth), Square(mouthHeight))
  {
    if mouthWidth == 0.0 {
      assert Square(mouthWidth) == 0.0;
    } else {
      SquarePositive(mouthWidth);
      var bound := SmileThreshold * mouthWidth;
      QuotientExceeds(mouthHeight, mouthWidth, SmileThreshold);
      SquareLessIff(bound, mouthHeight);
      calc {
        Square(bound);
      ==
        (0.35 * mouthWidth) * (0.35 * mouthWidth);
      ==
        0.1225 * (mouthWidth * mouthWidth);
      ==
        SmileThresholdSq * Square(mouthWidth);
      }
    }
  }

  /**
   On well-formed face landmarks, `DetectSmile` answers what `detectSmile`
   in gestures.ts answers, given the two distances `calculateDistance` returns.
   */
  lemma DetectSmileMatchesRatio(results: Results, mouthWidth: real, mouthHeight: real)
    requires WellFormed(results) && results.faceLandmarks.Some?
    requires IsDistance(results.faceLandmarks.value[LeftCorner], results.faceLandmarks.value[RightCorner], mouthWidth)
    requires IsDistance(results.faceLandmarks.value[UpperLip], results.faceLandmarks.value[LowerLip], mouthHeight)
    ensures DetectSmile(results) == SmileByRatio(mouthWidth, mouthHeight)
  {
    RatioIffSquares(mouthWidth, mouthHeight);
  }

}
