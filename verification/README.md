# MonkeyFacer gesture classifier in Dafny

MonkeyFacer is a browser demo. It tracks a face and a body pose in a webcam feed and swaps a displayed image according to a coarse gesture. This project models the demo's only decision logic and proves what it promises:

- the gesture classifier of `src/func/gestures.ts`: `calculateDistance`, `detectHandsUp`, `detectSmile`, `classifyGesture`, `SMILE_THRESHOLD` and `gestureToImage`;
- the image selection of `src/components/ImageDisplay.tsx`: a gesture picks its image, and `null` picks the fallback `ahhh.png`;
- the per-frame hand-off in `src/ml/HolisticDetectors.tsx`, where each frame is classified and the result written into the gesture cell of `src/stores/GestureStore.ts`.

Files:

- `options.dfy`: `Option`, standing for a value that may be `undefined` or `null`.
- `geometry.dfy`: landmarks as real points, the squared distance, and `IsDistance`, which says what `calculateDistance` returns without a square root.
- `gestures.dfy`: the detector result (`Results`), the three checks and their fixed order, the threshold, and `gestureToImage`. `DetectSmileMatchesRatio` proves that the model's squared-length smile test agrees with the test in `detectSmile`, which divides the two `Math.sqrt` distances, with a guard for a zero width.
- `classifier_properties.dfy`: precedence, the exact smile condition, the strict threshold, totality, which coordinates are read, and concrete frames.
- `image_display.dfy`: `imageSrc`, with its inverse. Also shows that the fallback never appears for a classifier result.
- `holistic_detector.dfy`: classify-then-store over a sequence of frames. The cell starts `null` and the last write wins.

`classifyGesture` declares `GestureType | null`, but no path returns `null`, not even when both sequences are absent: it falls through to `"serious"` (`src/func/gestures.ts:54-64`). The model follows the code: `ClassifyGesture` always returns `Some`, and `NoLandmarksIsSerious` states the no-data case.

Smile test without roots: for a mouth width `w > 0` and height `h >= 0`, `h / w > 0.35` holds exactly when `h² > 0.1225·w²` (`RatioIffSquares`). A width of zero counts as no smile, as it does in `detectSmile`.

## Model

| member | source | states |
|---|---|---|
| Geometry.DistanceSq | src/func/gestures.ts:12-19 | the squared distance between two landmarks is never negative |
| Geometry.DistanceUnique | src/func/gestures.ts:12-19 | exactly one non-negative value can be the distance between two points, so `calculateDistance` is well defined by `IsDistance` |
| Geometry.DistanceSymmetric | src/func/gestures.ts:12-19 | the distance is symmetric in its two arguments |
| Geometry.IsDistance | src/func/gestures.ts:12-19 | characterises the value `calculateDistance` returns as the non-negative root of the squared distance; that value is non-negative and zero if and only if the two points coincide |
| Geometry.DistanceSqZeroIff | src/func/gestures.ts:12-19 | the squared distance is zero if and only if the two points coincide |
| Gestures.DetectHandsUp | src/func/gestures.ts:21-22 | with no pose landmarks the hands-up check is false, not an error (its full condition is stated by `EurecaIff`) |
| Gestures.SmileByRatio | src/func/gestures.ts:47-51 | the ratio test of `detectSmile` answers true only when the mouth width is non-zero, so the division is reached only with a non-zero width |
| Gestures.DetectSmile | src/func/gestures.ts:34-47 | with no face landmarks the smile check is false; a smile is reported only when the mouth corners are apart (its full condition is stated by `DetectSmileMatchesRatio`) |
| Gestures.GestureToImage | src/func/gestures.ts:4-8 | every gesture maps to a non-empty `.png` path under `/MonkeyFacer/images/`; the partner lemmas `ImageDisplay.GestureImages` and `ImageDisplay.ImageSrcInjective` pin the three paths and show them pairwise distinct |
| Gestures.ClassifyGesture | src/func/gestures.ts:54-64 | the classifier never yields `null`; with no landmarks at all it yields `"serious"`; `"eureca"` needs pose landmarks and `"smile"` needs face landmarks |
| Gestures.QuotientExceeds | src/func/gestures.ts:49-51 | for a positive width, the ratio exceeds a threshold exactly when the height exceeds threshold times width |
| Gestures.RatioIffSquares | src/func/gestures.ts:44-51 | the guarded ratio test over the two distances gives the same answer as the strict comparison of squared height with 0.1225 times squared width |
| Gestures.DetectSmileMatchesRatio | src/func/gestures.ts:34-52 | for the width and height that `calculateDistance` returns, the model's smile check answers exactly what `detectSmile` computes |
| ClassifierProperties.HandsUpWins | src/func/gestures.ts:54-57 | a wrist above its own shoulder gives `"eureca"` whatever the face landmarks are |
| ClassifierProperties.EurecaIff | src/func/gestures.ts:21-32 | `"eureca"` is the result if and only if a wrist is above the shoulder on its side |
| ClassifierProperties.SmileIff | src/func/gestures.ts:44-63 | with no raised wrist and a face present, the result is `"smile"` iff the width is positive and height/width is strictly greater than 0.35, and `"serious"` otherwise |
| ClassifierProperties.ZeroWidthIsSerious | src/func/gestures.ts:44-47 | coinciding mouth corners give `"serious"` whatever the lips do, with no division |
| ClassifierProperties.ExactThresholdIsSerious | src/func/gestures.ts:49-51 | an aspect ratio of exactly 0.35 gives `"serious"`: the threshold is strict |
| ClassifierProperties.NoFaceIsSerious | src/func/gestures.ts:34-35 | without face landmarks and with no raised wrist the result is `"serious"` |
| ClassifierProperties.ClassifyDependsOnlyOnCues | src/func/gestures.ts:24-45 | two frames that agree on the `y` of pose points 11, 12, 15, 16 and on face points 13, 14, 61, 291 are classified alike |
| ClassifierProperties.PoseUpdateIrrelevant | src/func/gestures.ts:26-31 | changing a pose landmark other than the four cues, or only the `x` of a cue, leaves the result unchanged |
| ClassifierProperties.FaceUpdateIrrelevant | src/func/gestures.ts:39-42 | changing a face landmark other than the four mouth cues leaves the result unchanged |
| ClassifierProperties.OpenMouthSmiles | src/func/gestures.ts:44-61 | corners 0.2 apart, lips 0.08 apart, no pose: `"smile"` |
| ClassifierProperties.ClosedMouthIsSerious | src/func/gestures.ts:44-63 | corners 0.2 apart, lips 0.05 apart, no pose: `"serious"` |
| ClassifierProperties.ThresholdMouthIsSerious | src/func/gestures.ts:49-63 | corners 0.5 apart, lips 0.175 apart (ratio exactly 0.35), no pose: `"serious"` |
| ClassifierProperties.RaisedLeftWristIsEureca | src/func/gestures.ts:26-57 | left wrist at y 0.3 above the left shoulder at y 0.5: `"eureca"` |
| ClassifierProperties.NoLandmarksIsSerious | src/func/gestures.ts:54-64 | both landmark sequences absent: `"serious"`, not `null` |
| ImageDisplay.ImageSrc | src/components/ImageDisplay.tsx:7-9 | the fallback `ahhh.png` is selected if and only if the gesture is `null` |
| ImageDisplay.ImageSrcRoundTrip | src/components/ImageDisplay.tsx:7-9 | the displayed path determines the gesture cell's value (`DisplayedGesture` inverts `ImageSrc`) |
| ImageDisplay.GestureImages | src/components/ImageDisplay.tsx:7-9 | smile shows `smile.png`, serious shows `xd.png`, eureca shows `eureca.png`, and `null` shows `ahhh.png` |
| ImageDisplay.ImageSrcInjective | src/func/gestures.ts:4-8 | the three gesture images are pairwise distinct and differ from the fallback, so two values show the same image iff they are equal |
| ImageDisplay.ClassifiedImageNeverFallback | src/func/gestures.ts:54-64 | the image selected from any classifier result is never the fallback |
| HolisticDetector.OnResults | src/ml/HolisticDetectors.tsx:113-114 | after a frame is handled the cell holds a gesture, never `null`, and the display never shows the fallback |
| HolisticDetector.Replay | src/stores/GestureStore.ts:10-12 | the cell is `null` after a run of frames iff it started `null` and no frame reached the classify-then-store step |
| HolisticDetector.ReplayKeepsLast | src/ml/HolisticDetectors.tsx:113-114 | last writer wins: after one or more frames the cell holds the classification of the latest frame |
| HolisticDetector.FallbackOnlyBeforeFirstFrame | src/stores/GestureStore.ts:11 | starting from the initial `null`, the fallback image is shown iff no frame has been classified yet |

## Left out

- Camera start and stop, the MediaPipe `Holistic` model and its options, and canvas drawing (`src/ml/HolisticDetectors.tsx:20-112`, `116-161`): I/O and calls into an external library. Only the classify-then-store step at lines 113-114 is modelled.
- Hand landmarks (`src/ml/HolisticDetectors.tsx:86-112`): they are drawn but never classified.
- The React component lifecycle, the zustand store's subscription machinery and the JSX of `ImageDisplay` and `App`. The store is modelled only as a cell that starts `null` and keeps the last value written.
- Landmark bounds: gestures.ts indexes the landmark arrays without checks. `WellFormed` requires at least 17 pose points and 292 face points when a sequence is present. Out-of-range access is not modelled.
- Numerics: coordinates are mathematical reals. IEEE-754 rounding, NaN coordinates, the `z` coordinate, and the exact results of `Math.sqrt` and `Math.pow` are not modelled. The distance is characterised by `IsDistance` (the non-negative root of the squared distance), not computed. Frames whose ratio lies at or within rounding error of 0.35 can be classified differently by the program's doubles: corners at x 0.6 and 0.4 with lips 0.07 apart give exactly 0.35 in the model (`"serious"`), but the doubles give a ratio just above 0.35 (`"smile"`). The concrete threshold frame of `ThresholdMouthIsSerious` uses coordinates that are exact in binary for this reason.
- The early return of `onResults` when no canvas is mounted (`src/ml/HolisticDetectors.tsx:27-28`): such a callback neither classifies nor stores, and the model counts only frames that reach the classify-then-store step.
