/**
 The hand-off from the detector's per-frame callback to the display.

 For every frame the `onResults` callback of HolisticDetectors.tsx
 classifies the detector's result and stores the gesture in the shared cell
 of GestureStore.ts, which starts out `null` and keeps only the last value
 written. Camera, inference and canvas drawing are not modelled; the model
 sees the callback as a sequence of frames.
 */
module HolisticDetector {
  import opened Options
  import opened Gestures
  import opened ImageDisplay

  /** The cell's value before the first frame. */
  const InitialGesture: Option<Gesture> := None

  predicate AllWellFormed(frames: seq<Results>) {
    forall i | 0 <= i < |frames| :: WellFormed(frames[i])
  }

  /** One callback: classify the frame, then overwrite the cell. */
  function OnResults(currentGesture: Option<Gesture>, results: Results): (next: Option<Gesture>)
    requires WellFormed(results)
    ensures next.Some?
    ensures ImageSrc(next) != FallbackImage
  {
    ClassifyGesture(results)
  }

  /** The cell after the callback has run on each frame in turn. */
  function Replay(currentGesture: Option<Gesture>, frames: seq<Results>): (cell: Option<Gesture>)
    requires AllWellFormed(frames)
    ensures cell.None? <==> currentGesture.None? && |frames| == 0
    decreases |frames|
  {
    if |frames| == 0 then currentGesture
    else Replay(OnResults(currentGesture, frames[0]), frames[1..])
  }

  /** Last writer wins: after at least one frame the cell holds the classification of the latest frame. */
  lemma {:induction false} ReplayKeepsLast(currentGesture: Option<Gesture>, frames: seq<Results>)
    requires AllWellFormed(frames) && |frames| > 0
    ensures Replay(currentGesture, frames) == ClassifyGesture(frames[|frames| - 1])
    decreases |frames|
  {
    if |frames| > 1 {
      ReplayKeepsLast(OnResults(currentGesture, frames[0]), frames[1..]);
      assert frames[1..][|frames[1..]| - 1] == frames[|frames| - 1];
    }
  }

  /** The fallback image is on display exactly until the first frame has been classified. */
  lemma FallbackOnlyBeforeFirstFrame(frames: seq<Results>)
    requires AllWellFormed(frames)
    ensures ImageSrc(Replay(InitialGesture, frames)) == FallbackImage <==> |frames| == 0
  {
  }

}
