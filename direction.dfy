/**
 * Which way a detected face looks, decided from its five landmarks (eyes, nose
 * tip, mouth corners) in absolute image coordinates. The `f32` coordinates are
 * modelled as `real`: the rule is a fixed combination of comparisons, and the
 * model keeps that structure while abstracting from `f32` rounding.
 */
module Direction {

  datatype FaceDirection = Left | Right | Straight

  datatype Point = Point(x: real, y: real)

  /** Keypoints in the detector's order: left eye, right eye, nose, left mouth corner, right mouth corner. */
  datatype Landmarks = Landmarks(leftEye: Point, rightEye: Point, nose: Point, leftMouth: Point, rightMouth: Point)

  function Abs(a: real): real { if a < 0.0 then -a else a }
  function Min(a: real, b: real): real { if a <= b then a else b }
  function Max(a: real, b: real): real { if a >= b then a else b }

  /** Eyes above the nose and the nose above the mouth, each with a margin of half the pair's vertical offset. */
  predicate FaceIsUpright(k: Landmarks)
  {
    var eyeDistanceY := Abs(k.rightEye.y - k.leftEye.y);
    var mouthDistanceY := Abs(k.rightMouth.y - k.leftMouth.y);
    && Max(k.leftEye.y, k.rightEye.y) + 0.5 * eyeDistanceY < k.nose.y
    && k.nose.y + 0.5 * mouthDistanceY < Min(k.leftMouth.y, k.rightMouth.y)
  }

  predicate NoseSticksOutLeft(k: Landmarks)
  {
    && k.nose.x < Min(k.leftEye.x, k.rightEye.x)
    && k.nose.x < Min(k.leftMouth.x, k.rightMouth.x)
  }

  predicate NoseSticksOutRight(k: Landmarks)
  {
    && k.nose.x > Max(k.leftEye.x, k.rightEye.x)
    && k.nose.x > Max(k.leftMouth.x, k.rightMouth.x)
  }

  /** Horizontal nose-to-eye distance below a fifth of the horizontal eye distance. */
  predicate NoseCloseToLeftEye(k: Landmarks)
  {
    Abs(k.nose.x - k.leftEye.x) < 0.2 * Abs(k.rightEye.x - k.leftEye.x)
  }

  predicate NoseCloseToRightEye(k: Landmarks)
  {
    Abs(k.nose.x - k.rightEye.x) < 0.2 * Abs(k.rightEye.x - k.leftEye.x)
  }

  /** The evidence for a face turned left, checked first. */
  predicate LeftCue(k: Landmarks)
  {
    NoseSticksOutLeft(k) || (FaceIsUpright(k) && NoseCloseToLeftEye(k))
  }

  /** The evidence for a face turned right, consulted only when there is no left cue. */
  predicate RightCue(k: Landmarks)
  {
    NoseSticksOutRight(k) || (FaceIsUpright(k) && NoseCloseToRightEye(k))
  }

  /**
   * The decision is made on exactly the two cues, with the left cue taking
   * precedence.
   */
  function FaceDirectionOf(k: Landmarks): (d: FaceDirection)
    ensures d == Left <==> LeftCue(k)
    ensures d == Right <==> !LeftCue(k) && RightCue(k)
    ensures d == Straight <==> !LeftCue(k) && !RightCue(k)
  {
    if LeftCue(k) then Left
    else if RightCue(k) then Right
    else Straight
  }

  /** The face seen in a mirror: x negated, the left and right landmarks swapped. */
  function Mirror(k: Landmarks): Landmarks
  {
    Landmarks(
      Point(-k.rightEye.x, k.rightEye.y),
      Point(-k.leftEye.x, k.leftEye.y),
      Point(-k.nose.x, k.nose.y),
      Point(-k.rightMouth.x, k.rightMouth.y),
      Point(-k.leftMouth.x, k.leftMouth.y))
  }

  function Opposite(d: FaceDirection): FaceDirection
  {
    match d
    case Left => Right
    case Right => Left
    case Straight => Straight
  }

  /** The nose cannot stick out on both sides at once. */
  lemma SticksOutExclusive(k: Landmarks)
    ensures !(NoseSticksOutLeft(k) && NoseSticksOutRight(k))
  {
  }

  /** Both "close to an eye" tests cannot hold together: the two distances add up to at least the eye distance. */
  lemma NoseNeverCloseToBothEyes(k: Landmarks)
    ensures !(NoseCloseToLeftEye(k) && NoseCloseToRightEye(k))
  {
  }

  /** A nose strictly left of both eyes and both mouth corners always yields Left. */
  lemma NoseLeftOfAllIsLeft(k: Landmarks)
    requires k.nose.x < k.leftEye.x && k.nose.x < k.rightEye.x
    requires k.nose.x < k.leftMouth.x && k.nose.x < k.rightMouth.x
    ensures FaceDirectionOf(k) == Left
  {
  }

  /**
   * With the left eye not to the right of the right eye, the two cues exclude
   * each other, so the order in which they are tested does not matter.
   */
  lemma CuesExclusiveWhenEyesOrdered(k: Landmarks)
    requires k.leftEye.x <= k.rightEye.x
    ensures !(LeftCue(k) && RightCue(k))
  {
  }

  /** Under the same ordering, a nose strictly right of every other landmark yields Right. */
  lemma NoseRightOfAllIsRight(k: Landmarks)
    requires k.leftEye.x <= k.rightEye.x
    requires k.nose.x > k.leftEye.x && k.nose.x > k.rightEye.x
    requires k.nose.x > k.leftMouth.x && k.nose.x > k.rightMouth.x
    ensures FaceDirectionOf(k) == Right
  {
    CuesExclusiveWhenEyesOrdered(k);
  }

  /** Mirroring twice gives back the original landmarks. */
  lemma MirrorInvolution(k: Landmarks)
    ensures Mirror(Mirror(k)) == k
  {
  }

  /** The mirror image shows the left cue exactly when the original shows the right cue. */
  lemma MirrorLeftCue(k: Landmarks)
    ensures LeftCue(Mirror(k)) == RightCue(k)
  {
    var m := Mirror(k);
    assert FaceIsUpright(m) == FaceIsUpright(k);
    assert NoseSticksOutLeft(m) == NoseSticksOutRight(k);
    assert NoseCloseToLeftEye(m) == NoseCloseToRightEye(k);
  }

  /** Mirroring the face exchanges the two cues. */
  lemma MirrorSwapsCues(k: Landmarks)
    ensures LeftCue(Mirror(k)) == RightCue(k)
    ensures RightCue(Mirror(k)) == LeftCue(k)
  {
    MirrorLeftCue(k);
    MirrorLeftCue(Mirror(k));
    MirrorInvolution(k);
  }

  /**
   * The classifier is mirror-symmetric exactly when the two cues do not both
   * hold; when they do, Left wins for the face and for its mirror image.
   */
  lemma MirrorSymmetry(k: Landmarks)
    ensures FaceDirectionOf(Mirror(k)) == Opposite(FaceDirectionOf(k)) <==> !(LeftCue(k) && RightCue(k))
  {
    MirrorSwapsCues(k);
  }

  /**
   * Both cues can hold: eyes given in swapped order, the nose right of every
   * landmark and close to the left eye. The rule then answers Left although
   * the nose sticks out to the right.
   */
  lemma LeftWinsWhenBothCuesHold()
    ensures exists k :: LeftCue(k) && RightCue(k) && NoseSticksOutRight(k) && FaceDirectionOf(k) == Left
  {
    var k := Landmarks(Point(10.0, 0.0), Point(0.0, 0.0), Point(10.5, 5.0), Point(2.0, 10.0), Point(8.0, 10.0));
    assert FaceIsUpright(k) && NoseCloseToLeftEye(k) && NoseSticksOutRight(k);
    assert LeftCue(k) && RightCue(k) && FaceDirectionOf(k) == Left;
  }
}
