/**
 The image selection of ImageDisplay.tsx: the gesture cell's value, which
 may be `null`, picks the image path shown beside the video.
 */
module ImageDisplay {
  import opened Options
  import opened Gestures

  /** The image shown while the cell holds `null`. */
  const FallbackImage: string := "/MonkeyFacer/images/ahhh.png"

  /**
   `imageSrc`: a gesture is looked up in `gestureToImage`, `null` gives the
   fallback. The test is JavaScript truthiness; every gesture label is a
   non-empty string, hence truthy, so only `null` takes the fallback branch.
   */
  function ImageSrc(currentGesture: Option<Gesture>): (path: string)
    ensures path == FallbackImage <==> currentGesture.None?
  {
    match currentGesture
    case Some(g) => GestureToImage(g)
    case None => FallbackImage
  }

  /** Recovers the cell's value from the displayed path; the inverse of `ImageSrc`. */
  function DisplayedGesture(path: string): Option<Option<Gesture>> {
    if path == GestureToImage(Smile) then Some(Some(Smile))
    else if path == GestureToImage(Serious) then Some(Some(Serious))
    else if path == GestureToImage(Eureca) then Some(Some(Eureca))
    else if path == FallbackImage then Some(None)
    else None
  }

  /** The displayed image identifies the cell's value. */
  lemma ImageSrcRoundTrip(currentGesture: Option<Gesture>)
    ensures DisplayedGesture(ImageSrc(currentGesture)) == Some(currentGesture)
  {
  }

  /** Distinct cell values show distinct images: the three gesture paths differ from each other and from the fallback. */
  lemma ImageSrcInjective(a: Option<Gesture>, b: Option<Gesture>)
    ensures ImageSrc(a) == ImageSrc(b) <==> a == b
  {
    ImageSrcRoundTrip(a);
    ImageSrcRoundTrip(b);
  }

  /** The concrete paths shown for each gesture. */
  lemma GestureImages()
    ensures ImageSrc(Some(Smile)) == "/MonkeyFacer/images/smile.png"
    ensures ImageSrc(Some(Serious)) == "/MonkeyFacer/images/xd.png"
    ensures ImageSrc(Some(Eureca)) == "/MonkeyFacer/images/eureca.png"
    ensures ImageSrc(None) == "/MonkeyFacer/images/ahhh.png"
  {
  }

  /** The fallback is never selected from a classifier result, because the classifier never yields `null`. */
  lemma ClassifiedImageNeverFallback(results: Results)
    requires WellFormed(results)
    ensures ImageSrc(ClassifyGesture(results)) != FallbackImage
  {
  }

}
