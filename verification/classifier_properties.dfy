/**
 What `classifyGesture` promises: precedence of its three checks, the exact
 smile condition in the terms of `detectSmile`, totality, and which landmark
 coordinates it reads.
 */
module ClassifierProperties {
  import opened Options
  import opened Geometry
  import opened Gestures

  /** The pose indices whose `y` the hands-up check reads. */
  const PoseCues: set<nat> := {LeftShoulder, RightShoulder, LeftWrist, RightWrist}

  /** The face-mesh indices whose `x` and `y` the smile check reads. */
  const FaceCues: set<nat> := {UpperLip, LowerLip, RightCorner, LeftCorner}

  /** Neither wrist is above the shoulder on its side (or there is no pose at all). */
  predicate HandsDown(results: Results)
    requires WellFormed(results)
  {
    match results.poseLandmarks
    case None => true
    case Some(pose) =>
      pose[LeftWrist].y >= pose[LeftShoulder].y && pose[RightWrist].y >= pose[RightShoulder].y
  }

  /** The frame has face landmarks, and the two values are the mouth width and height `calculateDistance` returns for it. */
  predicate MouthMeasures(results: Results, mouthWidth: real, mouthHeight: real)
    requires WellFormed(results)
  {
    && results.faceLandmarks.Some?
    && IsDistance(results.faceLandmarks.value[LeftCorner], results.faceLandmarks.value[RightCorner], mouthWidth)
    && IsDistance(results.faceLandmarks.value[UpperLip], results.faceLandmarks.value[LowerLip], mouthHeight)
  }

  /** A raised wrist decides the result, whatever the face landmarks are. */
  lemma HandsUpWins(face: Option<seq<Point>>, pose: seq<Point>)
    requires WellFormed(Results(face, Some(pose)))
    requires pose[LeftWrist].y < pose[LeftShoulder].y || pose[RightWrist].y < pose[RightShoulder].y
    ensures ClassifyGesture(Results(face, Some(pose))) == Some(Eureca)
  {
  }

  /** `"eureca"` is produced exactly when a wrist is raised. */
  lemma EurecaIff(results: Results)
    requires WellFormed(results)
    ensures ClassifyGesture(results) == Some(Eureca) <==> !HandsDown(results)
  {
  }

  /**
   With no raised wrist and a face present, the result is `"smile"` exactly
   when the mouth width is positive and the aspect ratio strictly exceeds the
   threshold, and `"serious"` otherwise.
   */
  lemma SmileIff(results: Results, mouthWidth: real, mouthHeight: real)
    requires WellFormed(results) && HandsDown(results)
    requires MouthMeasures(results, mouthWidth, mouthHeight)
    ensures ClassifyGesture(results) == Some(Smile) <==> mouthWidth > 0.0 && mouthHeight / mouthWidth > SmileThreshold
    ensures ClassifyGesture(results) == Some(Serious) <==> !(mouthWidth > 0.0 && mouthHeight / mouthWidth > SmileThreshold)
  {
    DetectSmileMatchesRatio(results, mouthWidth, mouthHeight);
  }

  /** A mouth whose corners coincide is never a smile, whatever the lips do. */
  lemma ZeroWidthIsSerious(results: Results)
    requires WellFormed(results) && HandsDown(results) && results.faceLandmarks.Some?
    requires results.faceLandmarks.value[LeftCorner] == results.faceLandmarks.value[RightCorner]
    ensures ClassifyGesture(results) == Some(Serious)
  {
    DistanceSqZeroIff(results.faceLandmarks.value[LeftCorner], results.faceLandmarks.value[RightCorner]);
  }

  /** The threshold is strict: an aspect ratio of exactly 0.35 gives `"serious"`. */
  lemma ExactThresholdIsSerious(results: Results, mouthWidth: real, mouthHeight: real)
    requires WellFormed(results) && HandsDown(results)
    requires MouthMeasures(results, mouthWidth, mouthHeight)
    requires mouthWidth > 0.0 && mouthHeight == SmileThreshold * mouthWidth
    ensures ClassifyGesture(results) == Some(Serious)
  {
    SmileIff(results, mouthWidth, mouthHeight);
    QuotientExceeds(mouthHeight, mouthWidth, SmileThreshold);
  }

  /** Without face landmarks and with no raised wrist, the result is `"serious"`. */
  lemma NoFaceIsSerious(results: Results)
    requires WellFormed(results) && HandsDown(results) && results.faceLandmarks.None?
    ensures ClassifyGesture(results) == Some(Serious)
  {
  }

  /** Two frames agree on every coordinate the classifier reads. */
  predicate AgreeOnCues(a: Results, b: Results)
    requires WellFormed(a) && WellFormed(b)
  {
    && a.poseLandmarks.Some? == b.poseLandmarks.Some?
    && a.faceLandmarks.Some? == b.faceLandmarks.Some?
    && (a.poseLandmarks.Some? ==>
          forall i | i in PoseCues :: a.poseLandmarks.value[i].y == b.poseLandmarks.value[i].y)
    && (a.faceLandmarks.Some? ==>
          forall i | i in FaceCues :: a.faceLandmarks.value[i] == b.faceLandmarks.value[i])
  }

  /** The result depends only on the `y` of the four pose cues and the points of the four face cues. */
  lemma ClassifyDependsOnlyOnCues(a: Results, b: Results)
    requires WellFormed(a) && WellFormed(b)
    requires AgreeOnCues(a, b)
    ensures ClassifyGesture(a) == ClassifyGesture(b)
  {
    if a.poseLandmarks.Some? {
      assert LeftShoulder in PoseCues && RightShoulder in PoseCues;
      assert LeftWrist in PoseCues && RightWrist in PoseCues;
    }
    if a.faceLandmarks.Some? {
      assert UpperLip in FaceCues && LowerLip in FaceCues;
      assert LeftCorner in FaceCues && RightCorner in FaceCues;
    }
  }

  /** Replacing a pose landmark leaves the result unchanged, unless it is a cue whose `y` changes. */
  lemma PoseUpdateIrrelevant(face: Option<seq<Point>>, pose: seq<Point>, i: nat, p: Point)
    requires WellFormed(Results(face, Some(pose))) && i < |pose|
    requires i !in PoseCues || p.y == pose[i].y
    ensures ClassifyGesture(Results(face, Some(pose[i := p]))) == ClassifyGesture(Results(face, Some(pose)))
  {
    ClassifyDependsOnlyOnCues(Results(face, Some(pose[i := p])), Results(face, Some(pose)));
  }

  /** Replacing a face landmark that is not one of the four mouth cues leaves the result unchanged. */
  lemma FaceUpdateIrrelevant(face: seq<Point>, pose: Option<seq<Point>>, i: nat, p: Point)
    requires WellFormed(Results(Some(face), pose)) && i < |face|
    requires i !in FaceCues
    ensures ClassifyGesture(Results(Some(face[i := p]), pose)) == ClassifyGesture(Results(Some(face), pose))
  {
    ClassifyDependsOnlyOnCues(Results(Some(face[i := p]), pose), Results(Some(face), pose));
  }

  // ---------------------------------------------------------------------
  // Concrete frames
  // ---------------------------------------------------------------------

  /** A face mesh of 292 points, all at the origin except the four mouth cues. */
  function MouthFace(leftCorner: Point, rightCorner: Point, upperLip: Point, lowerLip: Point): (face: seq<Point>)
    ensures |face| == LeftCorner + 1
    ensures face[LeftCorner] == leftCorner && face[RightCorner] == rightCorner
    ensures face[UpperLip] == upperLip && face[LowerLip] == lowerLip
  {
    seq(LeftCorner + 1, i =>
      if i == LeftCorner then leftCorner
      else if i == RightCorner then rightCorner
      else if i == UpperLip then upperLip
      else if i == LowerLip then lowerLip
      else Point(0.0, 0.0))
  }

  /** Corners 0.2 apart and lips 0.08 apart (ratio 0.4), no pose: `"smile"`. */
  lemma OpenMouthSmiles()
    ensures ClassifyGesture(Results(Some(MouthFace(Point(0.6, 0.5), Point(0.4, 0.5), Point(0.5, 0.46), Point(0.5, 0.54))), None))
            == Some(Smile)
  {
  }

  /** Corners 0.2 apart and lips 0.05 apart (ratio 0.25), no pose: `"serious"`. */
  lemma ClosedMouthIsSerious()
    ensures ClassifyGesture(Results(Some(MouthFace(Point(0.6, 0.5), Point(0.4, 0.5), Point(0.5, 0.475), Point(0.5, 0.525))), None))
            == Some(Serious)
  {
  }

  /**
   Corners 0.5 apart and lips 0.175 apart, no pose: the ratio is exactly
   0.35 and the result is `"serious"`. The coordinates are chosen so that
   the differences, the width and the quotient are exact in binary floating
   point as well, so gestures.ts also computes the ratio as the double 0.35,
   provided `Math.pow(x, 2)` and `Math.sqrt` round correctly.
   */
  lemma ThresholdMouthIsSerious()
    ensures ClassifyGesture(Results(Some(MouthFace(Point(0.75, 0.5), Point(0.25, 0.5), Point(0.5, 0.0), Point(0.5, 0.175))), None))
            == Some(Serious)
  {
  }

  /** Left wrist at `y` 0.3 above the left shoulder at 0.5, no face: `"eureca"`. */
  lemma RaisedLeftWristIsEureca()
    ensures ClassifyGesture(Results(None, Some(seq(RightWrist + 1, i => if i == LeftWrist then Point(0.4, 0.3) else Point(0.4, 0.5)))))
            == Some(Eureca)
  {
  }

  /** No landmarks at all: `"serious"`, not `null`. */
  lemma NoLandmarksIsSerious()
    ensures ClassifyGesture(Results(None, None)) == Some(Serious)
  {
  }

}
