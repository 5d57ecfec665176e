/** The camera-driven decision procedures of toukashiken.py.  Image
    processing is not modelled: each capture arrives as the numbers the
    OpenCV pipeline derives from it (red-pixel ratios per grid cell, the
    red percentage of a frame, the centroid of the largest red contour),
    and the procedures below turn those numbers into verdicts and motor
    actions. */
module Vision {
  import opened Common

  // ---------------------------------------------------------------------
  // detect_red_in_grid: the 2x3 grid verdict
  // ---------------------------------------------------------------------

  /** The string verdicts of `detect_red_in_grid`. */
  datatype GridVerdict =
    | HighPercentageOverall
    | NoneDetected
    | LeftBottom
    | RightBottom
    | BottomMiddle
    | ErrorInProcessing

  /** What one capture yields.  A cell ratio is `None` when the cell has no
      pixels, where the source's division raises and the handler answers
      `error_in_processing`. */
  datatype Capture =
    | CaptureFailed
    | Frame(overall: real,
            topLeft: Option<real>, topMiddle: Option<real>, topRight: Option<real>,
            bottomLeft: Option<real>, bottomMiddle: Option<real>, bottomRight: Option<real>)
  {
    predicate AllCellsMeasured()
      requires Frame?
    {
      topLeft.Some? && topMiddle.Some? && topRight.Some?
      && bottomLeft.Some? && bottomMiddle.Some? && bottomRight.Some?
    }
  }

  /** Threshold on the whole-frame ratio above which the parachute is
      assumed to cover the camera. */
  const HighOverall: real := 0.80

  function GridVerdictOf(c: Capture, minRatio: real): (v: GridVerdict)
    ensures v == HighPercentageOverall <==> c.Frame? && c.overall >= HighOverall
    ensures v == ErrorInProcessing <==>
              c.CaptureFailed? || (c.overall < HighOverall && !c.AllCellsMeasured())
    ensures c.Frame? && c.overall < HighOverall && c.AllCellsMeasured() ==>
              var l := c.bottomLeft.value >= minRatio;
              var m := c.bottomMiddle.value >= minRatio;
              var r := c.bottomRight.value >= minRatio;
              && (v == NoneDetected <==> !l && !m && !r)
              && (v == LeftBottom <==> l && !r)
              && (v == RightBottom <==> r && !l)
              && (v == BottomMiddle <==> (l && r) || (m && !l && !r))
  {
    match c
    case CaptureFailed => ErrorInProcessing
    case Frame(overall, _, _, _, bl, bm, br) =>
      if overall >= HighOverall then HighPercentageOverall
      else if !c.AllCellsMeasured() then ErrorInProcessing
      else
        var l := bl.value >= minRatio;
        var m := bm.value >= minRatio;
        var r := br.value >= minRatio;
        if !l && !m && !r then NoneDetected
        else if l && !r then LeftBottom
        else if r && !l then RightBottom
        else if l && m && r then BottomMiddle
        else if m then BottomMiddle
        else BottomMiddle
  }

  /** A high whole-frame ratio decides the verdict before any cell is
      looked at, and the top row never matters. */
  lemma GridVerdictIgnoresCells(c: Capture, d: Capture, minRatio: real)
    requires c.Frame? && d.Frame?
    requires c.overall == d.overall
    requires c.overall >= HighOverall
             || (c.bottomLeft == d.bottomLeft && c.bottomMiddle == d.bottomMiddle
                 && c.bottomRight == d.bottomRight
                 && c.topLeft.Some? == d.topLeft.Some? && c.topMiddle.Some? == d.topMiddle.Some?
                 && c.topRight.Some? == d.topRight.Some?)
    ensures GridVerdictOf(c, minRatio) == GridVerdictOf(d, minRatio)
  {
  }

  // ---------------------------------------------------------------------
  // get_block_number_approach: the five lateral buckets
  // ---------------------------------------------------------------------

  /** What the contour search yields for one frame. */
  datatype Blob = NoContour | ZeroMoment | Centroid(cx: int)

  /** The bucket of centroid column `cx` in a frame `width` pixels wide,
      with bucket width `width / 5`; the remainder columns belong to 5. */
  function Bucket(cx: int, width: nat): (n: int)
    ensures 1 <= n <= 5
  {
    var w := width / 5;
    if cx < w then 1
    else if cx < 2 * w then 2
    else if cx < 3 * w then 3
    else if cx < 4 * w then 4
    else 5
  }

  function BlockNumber(b: Blob, width: nat): (n: Option<int>)
    ensures n.None? <==> !b.Centroid?
    ensures n.Some? ==> 1 <= n.value <= 5
  {
    match b
    case Centroid(cx) => Some(Bucket(cx, width))
    case _ => None
  }

  /** Moving the centroid right never moves it to a lower bucket. */
  lemma BucketMonotone(cx1: int, cx2: int, width: nat)
    requires cx1 <= cx2
    ensures Bucket(cx1, width) <= Bucket(cx2, width)
  {
  }

  /** Reference definition: for an on-screen centroid the bucket is the
      clamped quotient `min(cx / w + 1, 5)`, and every column from `4 * w`
      on, including the remainder columns, is bucket 5.  A frame narrower
      than five pixels has `w == 0` and always gives 5. */
  lemma {:induction false} BucketIsClampedQuotient(cx: int, width: nat)
    requires cx >= 0
    ensures width < 5 ==> Bucket(cx, width) == 5
    ensures cx >= 4 * (width / 5) ==> Bucket(cx, width) == 5
    ensures width >= 5 ==> Bucket(cx, width) == if cx / (width / 5) + 1 < 5 then cx / (width / 5) + 1 else 5
  {
    var w := width / 5;
    if w > 0 {
      var q := cx / w;
      DivBounds(cx, w);
      if q >= 4 {
        MulMono(4, q, w);
      } else {
        BucketOfQuotient(cx, w, q);
      }
    }
  }

  /** With `q * w <= cx < q * w + w` for a `q` below 4, the bucket is `q + 1`. */
  lemma BucketOfQuotient(cx: int, w: nat, q: int)
    requires w > 0 && 0 <= q < 4 && q * w <= cx < q * w + w
    ensures Bucket(cx, 5 * w) == q + 1
  {
    assert (5 * w) / 5 == w;
    if q == 0 {
    } else if q == 1 {
    } else if q == 2 {
    } else {
    }
  }

  lemma DivBounds(cx: int, w: int)
    requires cx >= 0 && w > 0
    ensures (cx / w) * w <= cx < (cx / w) * w + w
  {
  }

  lemma MulMono(a: int, b: int, w: int)
    requires a <= b && w >= 0
    ensures a * w <= b * w
  {
  }

  // ---------------------------------------------------------------------
  // The approach stages of the main block
  // ---------------------------------------------------------------------

  /** A motor command of the approach stages. */
  datatype Motion =
    | QuickTurn(side: Side, speed: int)     // quick_left/quick_right ramp up and down
    | PetitTurn(side: Side, speed: int)     // petit_left/petit_right ramp up and down
    | Creep(steps: int)                     // petit_petit(steps)
    | FollowForward(speed: int, seconds: int)
    | Brake

  /** Red percentage above which the object counts as in view. */
  const InView: real := 5.0

  /** Stage 2, search: the rover pivots right until a frame shows more than
      5 % red.  Yields the number of pivots before the first such frame, or
      None when the captures run out first. */
  function SearchPivots(percentages: seq<real>): (k: Option<nat>)
    ensures k.Some? <==> exists i :: 0 <= i < |percentages| && percentages[i] > InView
    ensures k.Some? ==> k.value < |percentages| && percentages[k.value] > InView
    ensures k.Some? ==> forall j :: 0 <= j < k.value ==> percentages[j] <= InView
  {
    if |percentages| == 0 then None
    else if percentages[0] > InView then Some(0)
    else
      match SearchPivots(percentages[1..])
      case None => None
      case Some(k) => Some(k + 1)
  }

  /** The centering table: None once the object is in the middle bucket;
      otherwise a quick pivot towards the object, harder at the edges, and
      a right pivot when it is lost. */
  function CenteringStep(n: Option<int>): (m: Option<Motion>)
    ensures m.None? <==> n == Some(3)
    ensures m.Some? ==> m.value.QuickTurn?
    ensures m.Some? ==> (m.value.side == LeftSide <==> n == Some(1) || n == Some(2))
    ensures m.Some? ==> (m.value.speed == 45 <==> n == Some(2) || n == Some(4))
    ensures m.Some? ==> (m.value.speed == 60 <==> n != Some(2) && n != Some(4))
  {
    match n
    case Some(1) => Some(QuickTurn(LeftSide, 60))
    case Some(2) => Some(QuickTurn(LeftSide, 45))
    case Some(3) => None
    case Some(4) => Some(QuickTurn(RightSide, 45))
    case Some(5) => Some(QuickTurn(RightSide, 60))
    case _ => Some(QuickTurn(RightSide, 60))
  }

  /** Motions issued by a run of the centering loop and whether it ended
      with the object centred. */
  datatype LoopRun = LoopRun(finished: bool, motions: seq<Motion>)

  /** The centering loop over successive bucket readings: one motion per
      reading until the first reading of bucket 3. */
  function CenteringLoop(readings: seq<Option<int>>): (r: LoopRun)
    ensures |r.motions| <= |readings|
    ensures r.finished <==> Some(3) in readings
    ensures r.finished ==> |r.motions| < |readings| && readings[|r.motions|] == Some(3)
    ensures !r.finished ==> |r.motions| == |readings|
    ensures forall i :: 0 <= i < |r.motions| ==>
              readings[i] != Some(3) && Some(r.motions[i]) == CenteringStep(readings[i])
  {
    if |readings| == 0 then LoopRun(false, [])
    else
      match CenteringStep(readings[0])
      case None => LoopRun(true, [])
      case Some(m) =>
        var rest := CenteringLoop(readings[1..]);
        assert readings == [readings[0]] + readings[1..];
        LoopRun(rest.finished, [m] + rest.motions)
  }

  /** One guidance observation: the red percentage and the bucket, taken
      from two consecutive captures. */
  datatype View = View(percentage: real, block: Option<int>)

  /** Red percentage of a centred object at which the goal is reached. */
  const GoalPercentage: real := 60.0

  predicate AtGoal(v: View) {
    v.block == Some(3) && v.percentage > GoalPercentage
  }

  /** The guidance table: with the object centred, brake at the goal and
      otherwise creep closer, in shorter steps the larger the object
      looks; off centre, a petit pivot away from the object's side; when
      lost, a quick right pivot. */
  function GuidanceStep(v: View): (m: Motion)
    ensures m == Brake <==> AtGoal(v)
    ensures v.block == Some(3) && !AtGoal(v) ==> m.Creep? || m.FollowForward?
    ensures m.PetitTurn? <==> v.block.Some? && v.block.value in {1, 2, 4, 5}
    ensures m.PetitTurn? ==> (m.side == RightSide <==> v.block.value < 3)
    ensures m.PetitTurn? ==> (m.speed == 100 <==> v.block.value in {1, 5})
    ensures v.block.None? ==> m == QuickTurn(RightSide, 60)
  {
    match v.block
    case Some(3) =>
      if v.percentage > GoalPercentage then Brake
      else if v.percentage > 40.0 then Creep(2)
      else if v.percentage > 20.0 then Creep(4)
      else if v.percentage > 10.0 then Creep(6)
      else FollowForward(70, 2)
    case Some(1) => PetitTurn(RightSide, 100)
    case Some(2) => PetitTurn(RightSide, 90)
    case Some(4) => PetitTurn(LeftSide, 90)
    case Some(5) => PetitTurn(LeftSide, 100)
    case _ => QuickTurn(RightSide, 60)
  }

  /** The guidance loop: one motion per view up to and including the goal
      view, whose motion is the brake. */
  function GuidanceLoop(views: seq<View>): (r: LoopRun)
    ensures r.finished <==> exists i :: 0 <= i < |views| && AtGoal(views[i])
    ensures |r.motions| <= |views|
    ensures r.finished ==> |r.motions| > 0 && AtGoal(views[|r.motions| - 1]) && r.motions[|r.motions| - 1] == Brake
    ensures !r.finished ==> |r.motions| == |views|
    ensures forall i :: 0 <= i < |r.motions| ==> r.motions[i] == GuidanceStep(views[i])
    ensures forall i :: 0 <= i < |r.motions| - 1 ==> !AtGoal(views[i])
  {
    if |views| == 0 then LoopRun(false, [])
    else if AtGoal(views[0]) then LoopRun(true, [Brake])
    else
      var rest := GuidanceLoop(views[1..]);
      var m := [GuidanceStep(views[0])] + rest.motions;
      assert forall i :: 1 <= i < |views| ==> views[i] == views[1..][i - 1];
      assert forall i :: 1 <= i < |m| ==> m[i] == rest.motions[i - 1];
      LoopRun(rest.finished, m)
  }

  /** The two tables disagree on direction: for the same off-centre bucket
      the centering stage pivots towards the object and the guidance stage
      pivots away from it. */
  lemma CenteringOpposesGuidance(n: int, p: real)
    requires n in {1, 2, 4, 5}
    ensures CenteringStep(Some(n)).Some? && GuidanceStep(View(p, Some(n))).PetitTurn?
    ensures CenteringStep(Some(n)).value.side != GuidanceStep(View(p, Some(n))).side
  {
  }

  /** With the object centred and short of the goal, a larger red
      percentage never gives a longer creep. */
  lemma CreepShortensWhenCloser(p1: real, p2: real)
    requires 10.0 < p1 <= p2 <= GoalPercentage
    ensures GuidanceStep(View(p1, Some(3))).Creep? && GuidanceStep(View(p2, Some(3))).Creep?
    ensures GuidanceStep(View(p2, Some(3))).steps <= GuidanceStep(View(p1, Some(3))).steps
  {
  }

  // ---------------------------------------------------------------------
  // Stage 3: avoidance after the grid verdict, and the 3-point re-scan
  // ---------------------------------------------------------------------

  /** A step of the avoidance stage: a relative turn through
      `turn_to_relative_angle`, a heading-following advance, a wait, or a
      brake. */
  datatype Maneuver =
    | Rotate(offset: int, tolerance: int)
    | Advance(speed: int, seconds: int)
    | Wait(seconds: int)
    | Stop

  /** Sum of the commanded relative turns, in degrees (positive = right). */
  function NetRotation(ms: seq<Maneuver>): int
  {
    if |ms| == 0 then 0
    else (if ms[0].Rotate? then ms[0].offset else 0) + NetRotation(ms[1..])
  }

  lemma {:induction false} NetRotationAppend(a: seq<Maneuver>, b: seq<Maneuver>)
    ensures NetRotation(a + b) == NetRotation(a) + NetRotation(b)
  {
    if |a| == 0 {
      assert a + b == b;
    } else {
      assert (a + b)[1..] == a[1..] + b;
      NetRotationAppend(a[1..], b);
    }
  }

  /** Evaluation of NetRotation on the literal maneuver lists used here. */
  lemma NetRotationDisplays()
    ensures forall a: Maneuver :: NetRotation([a]) == (if a.Rotate? then a.offset else 0)
    ensures forall a: Maneuver, b: Maneuver, c: Maneuver ::
              NetRotation([a, b, c]) == NetRotation([a]) + NetRotation([b]) + NetRotation([c])
    ensures forall a: Maneuver, b: Maneuver, c: Maneuver, d: Maneuver, e: Maneuver, f: Maneuver ::
              NetRotation([a, b, c, d, e, f]) == NetRotation([a, b, c]) + NetRotation([d, e, f])
  {
    forall a: Maneuver ensures NetRotation([a]) == (if a.Rotate? then a.offset else 0) {
      assert [a][1..] == [];
    }
    forall a: Maneuver, b: Maneuver, c: Maneuver
      ensures NetRotation([a, b, c]) == NetRotation([a]) + NetRotation([b]) + NetRotation([c])
    {
      NetRotationAppend([a], [b, c]);
      NetRotationAppend([b], [c]);
      assert [a] + [b, c] == [a, b, c];
      assert [b] + [c] == [b, c];
    }
    forall a: Maneuver, b: Maneuver, c: Maneuver, d: Maneuver, e: Maneuver, f: Maneuver
      ensures NetRotation([a, b, c, d, e, f]) == NetRotation([a, b, c]) + NetRotation([d, e, f])
    {
      NetRotationAppend([a, b, c], [d, e, f]);
      assert [a, b, c] + [d, e, f] == [a, b, c, d, e, f];
    }
  }

  /** The response to the grid verdict after the rover has aligned with
      the goal bearing, ending with a brake. */
  function AvoidanceFor(v: GridVerdict): (ms: seq<Maneuver>)
    ensures |ms| > 0 && ms[|ms| - 1] == Stop
    ensures v in {LeftBottom, RightBottom, BottomMiddle} ==> ms[0].Rotate?
    ensures v !in {LeftBottom, RightBottom, BottomMiddle} ==> forall i :: 0 <= i < |ms| ==> !ms[i].Rotate?
  {
    match v
    case LeftBottom => [Rotate(90, 20), Advance(100, 5), Stop]
    case RightBottom => [Rotate(-90, 20), Advance(100, 5), Stop]
    case BottomMiddle => [Rotate(120, 20), Advance(100, 5), Stop, Rotate(-30, 20), Advance(100, 5), Stop]
    case HighPercentageOverall => [Wait(10), Advance(90, 3), Stop]
    case NoneDetected => [Advance(90, 5), Stop]
    case ErrorInProcessing => [Wait(2), Stop]
  }

  /** Red seen at the left or in the middle turns the rover a net quarter
      turn right; red at the right, a quarter turn left; other verdicts do
      not turn it. */
  lemma AvoidanceTurnsAway(v: GridVerdict)
    ensures NetRotation(AvoidanceFor(v)) ==
              if v in {LeftBottom, BottomMiddle} then 90 else if v == RightBottom then -90 else 0
  {
    NetRotationDisplays();
  }

  /** The three look directions of the re-scan: front, then 30 degrees
      left and back, then 30 degrees right and back. */
  const ScanTurns: seq<Maneuver> :=
    [Rotate(-30, 10), Rotate(30, 10), Rotate(30, 10), Rotate(-30, 10)]

  /** The re-scan returns the rover to the heading it started from. */
  lemma ScanTurnsCancel()
    ensures NetRotation(ScanTurns) == 0
  {
    NetRotationAppend(ScanTurns[..2], ScanTurns[2..]);
    assert ScanTurns[..2] + ScanTurns[2..] == ScanTurns;
  }

  /** The branches of the re-scan decision. */
  datatype Rescan = AllClear | AvoidFromLeft | AvoidFromRight | AvoidFromFront | Fallback

  /** Any verdict other than `none_detected`, an error included, counts as
      a detection; the left look takes precedence, then the right, then the
      front.  The final `Fallback` branch of the source is unreachable. */
  function RescanDecision(front: GridVerdict, left: GridVerdict, right: GridVerdict): (d: Rescan)
    ensures d != Fallback
    ensures d == AllClear <==> front == NoneDetected && left == NoneDetected && right == NoneDetected
    ensures d == AvoidFromLeft <==> left != NoneDetected
    ensures d == AvoidFromRight <==> left == NoneDetected && right != NoneDetected
    ensures d == AvoidFromFront <==> left == NoneDetected && right == NoneDetected && front != NoneDetected
  {
    var frontClear := front == NoneDetected;
    var leftClear := left == NoneDetected;
    var rightClear := right == NoneDetected;
    if frontClear && leftClear && rightClear then AllClear
    else if !leftClear then AvoidFromLeft
    else if !rightClear then AvoidFromRight
    else if !frontClear then AvoidFromFront
    else Fallback
  }

  /** The maneuvers that follow a re-scan decision. */
  function RescanManeuvers(d: Rescan): (ms: seq<Maneuver>)
    ensures d == AllClear <==> |ms| == 0
    ensures d != AllClear ==> |ms| >= 2 && ms[|ms| - 2] == Advance(90, 5) && ms[|ms| - 1] == Stop
  {
    match d
    case AllClear => []
    case AvoidFromLeft => [Rotate(90, 20), Advance(90, 5), Stop]
    case AvoidFromRight => [Rotate(-90, 20), Advance(90, 5), Stop]
    case AvoidFromFront => [Rotate(120, 20), Stop, Rotate(-30, 20), Advance(100, 5), Advance(90, 5), Stop]
    case Fallback => [Rotate(120, 20), Advance(90, 5), Stop]
  }

  /** After a detection the rover turns away from the side it was seen on:
      right for the left look, left for the right look, a net quarter turn
      right for the front look. */
  lemma RescanTurnsAway(front: GridVerdict, left: GridVerdict, right: GridVerdict)
    requires RescanDecision(front, left, right) != AllClear
    ensures var n := NetRotation(RescanManeuvers(RescanDecision(front, left, right)));
            (left != NoneDetected ==> n == 90)
            && (left == NoneDetected && right != NoneDetected ==> n == -90)
            && (left == NoneDetected && right == NoneDetected ==> n == 90)
  {
    NetRotationDisplays();
  }
}
