/**
 * `GestureControl` from gesture_control.py as a class whose fields are the
 * interpreter's gesture state. `DetectGestures` takes the detector's
 * reading for one frame in place of the camera frame and updates the fields
 * statement by statement; its contract ties the new state and the results
 * to `GestureSpec.Detect`, whose properties are proved there.
 */
module GestureEngine {
  import opened Wrappers
  import opened Directions
  import opened GestureSpec

  class GestureControl {
    var previousPosition: Option<Point>
    var positionHistory: seq<Point>
    var currentDirection: Option<Direction>
    var gestureCooldown: int
    var noHandFrames: int
    var lastConfidence: real

    /** The fields as a `GestureSpec.State`. */
    function Model(): State
      reads this
    {
      State(previousPosition, positionHistory, currentDirection, gestureCooldown, noHandFrames, lastConfidence)
    }

    predicate Valid()
      reads this
    {
      Inv(Model())
    }

    /** The gesture part of `__init__`. */
    constructor ()
      ensures Model() == Initial && Valid()
    {
      previousPosition := None;
      positionHistory := [];
      currentDirection := None;
      gestureCooldown := 0;
      noHandFrames := 0;
      lastConfidence := 0.0;
    }

    /** `reset_gesture_state`: the last confidence is kept. */
    method ResetGestureState()
      modifies this
      ensures Model() == ResetState(old(Model()))
      ensures Valid()
    {
      previousPosition := None;
      positionHistory := [];
      currentDirection := None;
      gestureCooldown := 0;
      noHandFrames := 0;
    }

    /** `detect_gestures` for one frame: the direction held after the call and whether thumb and index pinch. */
    method DetectGestures(reading: Reading) returns (direction: Option<Direction>, isPinching: bool)
      modifies this
      ensures Model() == Detect(old(Model()), reading).state
      ensures direction == Detect(old(Model()), reading).direction
      ensures isPinching == Detect(old(Model()), reading).pinching
      ensures old(Valid()) ==> Valid()
    {
      ghost var s0 := Model();
      isPinching := false;
      lastConfidence := if reading.Hand? then reading.confidence else 0.0;
      var threshold: real;
      if lastConfidence > 0.8 {
        threshold := 0.02;
      } else if lastConfidence > 0.5 {
        threshold := 0.03;
      } else {
        threshold := 0.05;
      }
      ghost var s1 := Model();
      assert s1 == s0.(lastConfidence := Confidence(reading));
      assert threshold == Threshold(Confidence(reading));
      if reading.Hand? {
        isPinching := TrackHand(reading, threshold);
      } else {
        CountMissingHand();
      }
      ghost var s2 := Model();
      assert s2 == (if reading.Hand? then HandStep(s1, reading, threshold) else NoHandStep(s1));
      if gestureCooldown > 0 {
        gestureCooldown := gestureCooldown - 1;
      }
      direction := currentDirection;
      assert Model() == (if s2.gestureCooldown > 0 then s2.(gestureCooldown := s2.gestureCooldown - 1) else s2);
      if Inv(s0) {
        DetectKeepsInv(s0, reading);
      }
    }

    /** The hand branch: smoothing, classification behind the cooldown, pinch detection. */
    method TrackHand(reading: Reading, threshold: real) returns (isPinching: bool)
      requires reading.Hand?
      modifies this
      ensures Model() == HandStep(old(Model()), reading, threshold)
      ensures isPinching == Pinching(reading.thumbTip, reading.indexTip)
    {
      ghost var s := Model();
      noHandFrames := 0;
      positionHistory := positionHistory + [reading.wrist];
      if |positionHistory| > MaxHistory {
        positionHistory := positionHistory[1..];
      }
      ghost var pre := Model();
      assert pre == s.(noHandFrames := 0, positionHistory := Push(s.positionHistory, reading.wrist));
      var smoothed := Mean(positionHistory);
      JudgeBlock(smoothed, threshold);
      assert Model() == Judge(pre, smoothed, threshold);
      isPinching := Pinching(reading.thumbTip, reading.indexTip);
      previousPosition := Some(smoothed);
    }

    /** The classification block of the hand branch. */
    method JudgeBlock(smoothed: Point, threshold: real)
      modifies this
      ensures Model() == Judge(old(Model()), smoothed, threshold)
    {
      if previousPosition.Some? && gestureCooldown <= 0 {
        var movement := Sub(smoothed, previousPosition.value);
        if movement.x * movement.x + movement.y * movement.y > threshold * threshold {
          var d: Direction;
          if Abs(movement.x) > Abs(movement.y) {
            d := if movement.x > 0.0 then Right else Left;
          } else {
            d := if movement.y > 0.0 then Down else Up;
          }
          assert d == Classify(movement.x, movement.y);
          if Some(d) != currentDirection {
            currentDirection := Some(d);
            gestureCooldown := MaxCooldown;
          }
        }
      }
    }

    /** The no-hand branch: count the frame and reset once the count passes twelve. */
    method CountMissingHand()
      modifies this
      ensures Model() == NoHandStep(old(Model()))
    {
      noHandFrames := noHandFrames + 1;
      if noHandFrames > MaxNoHandFrames {
        ResetGestureState();
      }
    }
  }
}
