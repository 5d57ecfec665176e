/** The heading correction and red-object avoidance after the parachute
    landing in EM_Parachute_Avoidance.py: one turn chosen from the course
    difference, then a right swerve when red is in view, then a forward
    run.  The bearing to the destination (spherical trigonometry) and the
    red test (OpenCV) are inputs. */
module Steering {
  import opened Common
  import opened AngleMath

  /** Below this course difference, in degrees, the rover holds course. */
  const Deadband: real := 10.0

  /** The heading the decision uses: the compass reading, or 0 when the
      sensor returned nothing. */
  function HeadingOrZero(reading: Option<real>): (h: real)
    ensures reading.None? ==> h == 0.0
    ensures reading.Some? ==> h == reading.value
  {
    reading.GetOr(0.0)
  }

  /** `(target_heading - heading + 360) % 360`: the clockwise rotation from
      the heading to the target, in [0, 360). */
  function CourseDiff(target: real, heading: real): (d: real)
    ensures 0.0 <= d < 360.0
    ensures SameDirection(d, target - heading)
  {
    var d := Mod360(target - heading + 360.0);
    assert (target - heading + 360.0) - (target - heading) == Turns(1);
    SameDirectionTrans(d, target - heading + 360.0, target - heading);
    d
  }

  datatype Turn = TurnRight | TurnLeft | HoldCourse

  /** The three-way decision: right for a difference strictly between the
      dead band and a half turn, left from a half turn on, otherwise hold. */
  function TurnFor(target: real, reading: Option<real>): (t: Turn)
    ensures var d := CourseDiff(target, HeadingOrZero(reading));
            && (t == TurnRight <==> Deadband < d < 180.0)
            && (t == TurnLeft <==> d >= 180.0)
            && (t == HoldCourse <==> d <= Deadband)
  {
    var d := CourseDiff(target, HeadingOrZero(reading));
    if Deadband < d < 180.0 then TurnRight
    else if d >= 180.0 then TurnLeft
    else HoldCourse
  }

  /** In terms of the signed error in [-180, 180) used by the turn loops:
      any negative error turns left, however small, while a positive one
      up to the dead band holds course.  The dead band is one-sided. */
  lemma TurnAgreesWithSignedError(target: real, reading: Option<real>)
    ensures var e := SignedError(target, HeadingOrZero(reading));
            && (TurnFor(target, reading) == TurnLeft <==> e < 0.0)
            && (TurnFor(target, reading) == HoldCourse <==> 0.0 <= e <= Deadband)
            && (TurnFor(target, reading) == TurnRight <==> Deadband < e)
  {
    DiffFromError(target, HeadingOrZero(reading));
  }

  /** The course difference is the signed error read in [0, 360). */
  lemma DiffFromError(target: real, h: real)
    ensures var e := SignedError(target, h);
            CourseDiff(target, h) == if e >= 0.0 then e else e + 360.0
  {
    var e := SignedError(target, h);
    var r := if e >= 0.0 then e else e + 360.0;
    var k: int :| e - (target - h) == Turns(k);
    var j := if e >= 0.0 then k - 1 else k;
    assert r - (target - h + 360.0) == Turns(j);
    Mod360Unique(target - h + 360.0, r);
  }

  /** Motor commands of this script: the ramped turns and forward run of
      the driver (`changing_right(0, s)` and so on), free stop and brake. */
  datatype Move =
    | ChangeRight(speed: int)
    | ChangeLeft(speed: int)
    | StopFree
    | Brake
    | ChangeForward(speed: int, seconds: real)

  /** The command for a decision: a ramped turn at speed 40 towards the
      chosen side, or a free stop when holding course. */
  function TurnMove(t: Turn): (m: Move)
    ensures m.ChangeRight? <==> t == TurnRight
    ensures m.ChangeLeft? <==> t == TurnLeft
    ensures m == StopFree <==> t == HoldCourse
    ensures m.ChangeRight? || m.ChangeLeft? ==> m.speed == 40
  {
    match t
    case TurnRight => ChangeRight(40)
    case TurnLeft => ChangeLeft(40)
    case HoldCourse => StopFree
  }

  /** The heading correction that opens the run, read against the signed
      error: a left turn for any negative error, a right turn beyond the
      dead band, and a free stop in between. */
  lemma CorrectionFollowsSignedError(fix: (real, real), bearing: real, reading: Option<real>, redSeen: bool)
    ensures var m := ParachuteRun(Some(fix), bearing, reading, redSeen)[0];
            var e := SignedError(Mod360(bearing + 360.0), HeadingOrZero(reading));
            && (m == ChangeLeft(40) <==> e < 0.0)
            && (m == ChangeRight(40) <==> Deadband < e)
            && (m == StopFree <==> 0.0 <= e <= Deadband)
  {
    TurnAgreesWithSignedError(Mod360(bearing + 360.0), reading);
  }

  /** After the heading correction: with red in view, swerve right, brake
      and run forward for one second; otherwise run forward for two.  A
      brake ends both. */
  function Avoidance(redSeen: bool): (m: seq<Move>)
    ensures |m| > 0 && m[|m| - 1] == Brake
    ensures redSeen <==> ChangeRight(40) in m
    ensures exists i :: 0 <= i < |m| && m[i].ChangeForward?
  {
    if redSeen then
      var m := [ChangeRight(40), Brake, ChangeForward(80, 1.0), Brake];
      assert m[2].ChangeForward?;
      m
    else
      var m := [ChangeForward(80, 2.0), Brake];
      assert m[0].ChangeForward?;
      m
  }

  /** The whole run after landing.  `fix` is the location, None when the
      GPS read timed out, in which case nothing moves. */
  function ParachuteRun(fix: Option<(real, real)>, bearing: real, reading: Option<real>, redSeen: bool): (m: seq<Move>)
    ensures fix.None? <==> m == []
    ensures fix.Some? ==> m[0] == TurnMove(TurnFor(Mod360(bearing + 360.0), reading)) && m[1..] == Avoidance(redSeen)
  {
    if fix.None? then []
    else [TurnMove(TurnFor(Mod360(bearing + 360.0), reading))] + Avoidance(redSeen)
  }

  /** The target heading is normalised first, so adding whole turns to the
      bearing does not change the decision. */
  lemma TurnIgnoresWholeTurns(bearing: real, k: int, reading: Option<real>)
    ensures TurnFor(Mod360(bearing + Turns(k) + 360.0), reading) == TurnFor(Mod360(bearing + 360.0), reading)
  {
    var a := Mod360(bearing + Turns(k) + 360.0);
    var b := Mod360(bearing + 360.0);
    assert (bearing + 360.0) - (bearing + Turns(k) + 360.0) == Turns(-k);
    SameDirectionTrans(b, bearing + 360.0, bearing + Turns(k) + 360.0);
    Mod360Unique(bearing + Turns(k) + 360.0, b);
    assert a == b;
  }
}
