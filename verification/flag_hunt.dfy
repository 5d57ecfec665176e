/** The flag-hunting main block of Flag_hota.py: for each target shape in
    turn, search by pivoting, advance, centre the flag by small pivots and
    creep towards it until it fills enough of the frame.  Each call of the
    detector consumes one frame of a finite sequence; running out of
    frames ends the run. */
module FlagHunt {
  import opened Common

  /** The targets, in the order they are hunted: triangle, rectangle,
      T shape and cross. */
  const TargetShapes: seq<string> := ["三角形", "長方形", "T字", "十字"]

  /** The share of the frame, in percent, at which a flag is reached. */
  const AreaThresholdPercent: real := 20.0

  /** Where the detector places a flag in the frame: left (`左`), centre
      (`中央`), right (`右`), or any other label it might report. */
  datatype Position = AtLeft | AtCenter | AtRight | Elsewhere

  /** One detected flag: the names of the shapes printed on it, its
      position, and its contour area as a percentage of the frame. */
  datatype Flag = Flag(shapes: seq<string>, position: Position, areaPercent: real)

  predicate HasShape(f: Flag, name: string) {
    exists i :: 0 <= i < |f.shapes| && f.shapes[i] == name
  }

  /** `find_target_flag`: the first flag in detection order carrying a
      shape named `target`. */
  function FindTargetFlag(flags: seq<Flag>, target: string): (r: Option<Flag>)
    ensures r.None? <==> forall i :: 0 <= i < |flags| ==> !HasShape(flags[i], target)
    ensures r.Some? ==> r.value in flags && HasShape(r.value, target)
  {
    if |flags| == 0 then None
    else if HasShape(flags[0], target) then Some(flags[0])
    else
      var r := FindTargetFlag(flags[1..], target);
      assert forall i :: 1 <= i < |flags| ==> flags[i] == flags[1..][i - 1];
      r
  }

  /** The flag returned is the first one with the shape: every earlier
      flag lacks it. */
  lemma {:induction false} FindTargetFlagFirst(flags: seq<Flag>, target: string, k: nat)
    requires k < |flags| && HasShape(flags[k], target)
    requires forall j :: 0 <= j < k ==> !HasShape(flags[j], target)
    ensures FindTargetFlag(flags, target) == Some(flags[k])
  {
    if k > 0 {
      assert forall j :: 0 <= j < k - 1 ==> flags[1..][j] == flags[j + 1];
      FindTargetFlagFirst(flags[1..], target, k - 1);
    }
  }

  /** Motor commands.  `Petit(side, speed)` is the ramp pair
      `petit_right(0, s)`, `petit_right(s, 0)` (or the `petit_left`
      pair); `Forward` is the heading-held advance; `Creep(n)` is
      `petit_petit(n)`. */
  datatype Action =
    | Petit(side: Side, speed: int)
    | Brake
    | Forward(speed: int, seconds: real)
    | Creep(steps: nat)

  /** The rotating search gives up after this many re-detections. */
  const SearchLimit: nat := 50

  /** Where the hunt for one target stands before the next detection. */
  datatype Phase =
    | Acquire             // top of `while not task_completed`
    | Rotating(count: nat) // the target is missing; `count` pivots so far
    | Advance             // the target is in view: advance, then look again
    | Track(flag: Flag)   // the tracking loop, holding the last detection

  datatype Outcome = Reached | Abandoned | OutOfFrames

  /** The phases that end the hunt without another detection: the search
      limit is spent, or a centred flag is large enough. */
  function Terminal(p: Phase): (o: Option<Outcome>)
    ensures o == Some(Reached) <==>
              p.Track? && p.flag.position == AtCenter && p.flag.areaPercent >= AreaThresholdPercent
    ensures o == Some(Abandoned) <==> p.Rotating? && p.count >= SearchLimit
    ensures o != Some(OutOfFrames)
  {
    match p
    case Rotating(n) => if n >= SearchLimit then Some(Abandoned) else None
    case Track(f) =>
      if f.position == AtCenter && f.areaPercent >= AreaThresholdPercent then Some(Reached) else None
    case _ => None
  }

  datatype StepResult = StepResult(actions: seq<Action>, next: Phase)

  /** The motor commands the tracking loop issues for a flag before it
      looks again: a flag off-centre gets one `petit` pair at speed 60 --
      `petit_right` for a flag at the left, `petit_left` for one at the
      right -- and a brake; a centred flag gets the two-step creep; a flag
      with no position gets nothing. */
  function TrackActions(f: Flag): (a: seq<Action>)
    ensures a == [] <==> f.position == Elsewhere
    ensures Creep(2) in a <==> f.position == AtCenter
    ensures (f.position == AtLeft || f.position == AtRight) <==> |a| == 2 && a[0].Petit? && a[1] == Brake
    ensures |a| > 0 && a[0].Petit? ==> a[0].speed == 60 && (a[0].side == RightSide <==> f.position == AtLeft)
  {
    match f.position
    case AtLeft => [Petit(RightSide, 60), Brake]
    case AtRight => [Petit(LeftSide, 60), Brake]
    case Elsewhere => []
    case AtCenter => [Creep(2)]
  }

  /** One non-terminal phase: the commands issued, then one detection on
      `frame` and the phase it leads to. */
  function Step(target: string, p: Phase, frame: seq<Flag>): (s: StepResult)
    requires Terminal(p).None?
    ensures p.Acquire? ==> s.actions == []
    ensures p.Rotating? ==> s.actions == [Petit(RightSide, 70), Brake]
    ensures p.Advance? ==> s.actions == [Forward(30, 0.5), Brake]
    ensures FindTargetFlag(frame, target).None? ==>
              s.next == (if p.Acquire? then Rotating(0)
                         else if p.Rotating? then Rotating(p.count + 1)
                         else Acquire)
    ensures FindTargetFlag(frame, target).Some? ==>
              s.next == (if p.Track? || p.Advance? then Track(FindTargetFlag(frame, target).value) else Advance)
  {
    var found := FindTargetFlag(frame, target);
    match p
    case Acquire => StepResult([], if found.None? then Rotating(0) else Advance)
    case Rotating(n) =>
      StepResult([Petit(RightSide, 70), Brake], if found.None? then Rotating(n + 1) else Advance)
    case Advance =>
      StepResult([Forward(30, 0.5), Brake], if found.None? then Acquire else Track(found.value))
    case Track(f) =>
      StepResult(TrackActions(f), if found.None? then Acquire else Track(found.value))
  }

  /** A hunt for one target: the outcome, the commands issued, and the
      number of frames consumed. */
  datatype Hunt = Hunt(outcome: Outcome, actions: seq<Action>, used: nat)

  function Run(target: string, p: Phase, frames: seq<seq<Flag>>): (h: Hunt)
    ensures h.used <= |frames|
    ensures h.outcome == OutOfFrames ==> h.used == |frames|
    decreases |frames|
  {
    match Terminal(p)
    case Some(o) => Hunt(o, [], 0)
    case None =>
      if |frames| == 0 then Hunt(OutOfFrames, [], 0)
      else
        var s := Step(target, p, frames[0]);
        var h := Run(target, s.next, frames[1..]);
        Hunt(h.outcome, s.actions + h.actions, h.used + 1)
  }

  /** `Rotate` repeated: the pivot-and-brake pairs of the rotating search. */
  function Rotations(n: nat): (a: seq<Action>)
    ensures |a| == 2 * n
    ensures forall i :: 0 <= i < |a| ==> a[i] == (if i % 2 == 0 then Petit(RightSide, 70) else Brake)
  {
    if n == 0 then [] else [Petit(RightSide, 70), Brake] + Rotations(n - 1)
  }

  /** The rotating search is bounded: from `count` pivots, if the next
      `SearchLimit - count` frames never show the target, the target is
      abandoned after exactly that many more pivots. */
  lemma {:induction false} SearchGivesUp(target: string, count: nat, frames: seq<seq<Flag>>)
    requires count <= SearchLimit
    requires |frames| >= SearchLimit - count
    requires forall i :: 0 <= i < SearchLimit - count ==> FindTargetFlag(frames[i], target).None?
    ensures Run(target, Rotating(count), frames)
            == Hunt(Abandoned, Rotations(SearchLimit - count), SearchLimit - count)
    decreases SearchLimit - count
  {
    if count < SearchLimit {
      assert forall i :: 0 <= i < SearchLimit - (count + 1) ==> frames[1..][i] == frames[i + 1];
      SearchGivesUp(target, count + 1, frames[1..]);
    }
  }

  /** A flag to the left makes the rover pivot right and brake; one to the
      right makes it pivot left and brake; a centred flag too small to
      count as reached makes it creep two steps. */
  lemma CenteringTurnsTowardsFlag(target: string, f: Flag, frames: seq<seq<Flag>>)
    requires |frames| > 0 && Terminal(Track(f)).None?
    ensures f.position == AtLeft ==> Run(target, Track(f), frames).actions[..2] == [Petit(RightSide, 60), Brake]
    ensures f.position == AtRight ==> Run(target, Track(f), frames).actions[..2] == [Petit(LeftSide, 60), Brake]
    ensures f.position == AtCenter ==>
              f.areaPercent < AreaThresholdPercent && Run(target, Track(f), frames).actions[0] == Creep(2)
  {
  }

  /** Losing the flag while tracking always returns to a fresh search,
      never to the rotating search directly. */
  lemma LosingFlagRestarts(target: string, f: Flag, frame: seq<Flag>)
    requires Terminal(Track(f)).None?
    requires forall i :: 0 <= i < |frame| ==> !HasShape(frame[i], target)
    ensures Step(target, Track(f), frame).next == Acquire
  {
  }

  /** A hunt reaches its target only from a centred detection at or above
      the threshold: the last detection is such a flag. */
  lemma {:induction false} ReachedOnlyWhenLargeAndCentred(target: string, p: Phase, frames: seq<seq<Flag>>)
    requires Run(target, p, frames).outcome == Reached
    ensures exists f :: StopsAt(target, f, p)
    decreases |frames|
  {
    if Terminal(p).None? {
      var s := Step(target, p, frames[0]);
      ReachedOnlyWhenLargeAndCentred(target, s.next, frames[1..]);
      var f :| StopsAt(target, f, s.next);
      assert StopsAt(target, f, p);
    } else {
      assert StopsAt(target, p.flag, p);
    }
  }

  /** `f` is a flag a hunt from `p` may stop at: it carries the target
      shape (or is the flag held on entry), is centred, and is at least
      the threshold. */
  ghost predicate StopsAt(target: string, f: Flag, p: Phase)
  {
    f.position == AtCenter && f.areaPercent >= AreaThresholdPercent
    && (p == Track(f) || HasShape(f, target))
  }

  /** The outer loop over the targets: each hunt uses the frames the
      previous one left; running out of frames ends the mission. */
  datatype Report = Report(target: string, outcome: Outcome)

  function Mission(targets: seq<string>, frames: seq<seq<Flag>>): (r: seq<Report>)
    ensures |r| <= |targets|
    ensures forall i :: 0 <= i < |r| ==> r[i].target == targets[i]
    ensures forall i :: 0 <= i < |r| - 1 ==> r[i].outcome != OutOfFrames
    ensures |r| < |targets| ==> |r| > 0 && r[|r| - 1].outcome == OutOfFrames
    decreases |targets|
  {
    if |targets| == 0 then []
    else
      var h := Run(targets[0], Acquire, frames);
      if h.outcome == OutOfFrames then [Report(targets[0], OutOfFrames)]
      else
        var rest := Mission(targets[1..], frames[h.used..]);
        [Report(targets[0], h.outcome)] + rest
  }

  /** The targets are distinct, so no shape is hunted twice. */
  lemma TargetShapesDistinct()
    ensures forall i, j :: 0 <= i < j < |TargetShapes| ==> TargetShapes[i] != TargetShapes[j]
  {
  }

  /** A mission over the four targets hunts each at most once, in order. */
  lemma MissionHuntsEachOnce(frames: seq<seq<Flag>>)
    ensures var r := Mission(TargetShapes, frames);
            forall i, j :: 0 <= i < j < |r| ==> r[i].target != r[j].target
  {
    TargetShapesDistinct();
  }
}
