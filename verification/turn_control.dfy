/** Heading sources and the pulse-turn controller.

    toukashiken.py carries `BNO055Wrapper.get_heading` (which can give up
    with `None`) and `turn_to_relative_angle`; C_GOAL_DETECTIVE_ARLISS.py
    carries `GDA._get_bno_heading` (which falls back to 0.0) and
    `GDA._turn_to_relative_angle`.  The two turn loops are the same loop;
    the goal detector's copy simply never sees a missing heading.

    A retry window is the finite sequence of raw sensor answers obtained
    before the wall-clock budget ran out; the turn loop's readings are the
    successive answers of the heading source, one per loop iteration. */
module TurnControl {
  import opened Common
  import opened AngleMath

  /** A primitive command sent to the motor driver. */
  datatype MotorCommand =
    | Pivot(side: Side, speed: int, onTime: real)  // petit_left/petit_right ramp, held for onTime seconds
    | Brake                                        // motor_stop_brake

  /** The first available reading of a retry window. */
  function FirstReading(window: seq<Option<real>>): (r: Option<real>)
    ensures r.None? <==> forall i :: 0 <= i < |window| ==> window[i].None?
    ensures r.Some? ==> exists i :: 0 <= i < |window| && window[i] == r &&
                          forall j :: 0 <= j < i ==> window[j].None?
  {
    if |window| == 0 then None
    else if window[0].Some? then window[0]
    else
      var r := FirstReading(window[1..]);
      assert forall i :: 1 <= i < |window| ==> window[i] == window[1..][i - 1];
      r
  }

  /** `BNO055Wrapper.get_heading`: the first Euler heading that is not `None`
      among the first read and the retries made within the 0.1 s budget, or
      `None` when every attempt failed. */
  function GetHeading(first: Option<real>, retries: seq<Option<real>>): (r: Option<real>)
    ensures first.Some? ==> r == first
    ensures r.None? <==> first.None? && forall i :: 0 <= i < |retries| ==> retries[i].None?
    ensures r.Some? && first.None? ==>
              exists i :: 0 <= i < |retries| && retries[i] == r &&
                forall j :: 0 <= j < i ==> retries[j].None?
  {
    var w := [first] + retries;
    assert forall i :: 0 <= i < |retries| ==> retries[i] == w[i + 1];
    var r := FirstReading(w);
    r
  }

  /** `GDA._get_bno_heading`: like `GetHeading` but with a 0.5 s budget and
      0.0 in place of `None`, so it always yields a number. */
  function GetBnoHeading(first: Option<real>, retries: seq<Option<real>>): (h: real)
    ensures first.Some? ==> h == first.value
    ensures first.None? && (forall i :: 0 <= i < |retries| ==> retries[i].None?) ==> h == 0.0
    ensures first.None? && (exists i :: 0 <= i < |retries| && retries[i].Some?) ==>
              exists i :: 0 <= i < |retries| && retries[i] == Some(h) &&
                forall j :: 0 <= j < i ==> retries[j].None?
  {
    GetHeading(first, retries).GetOr(0.0)
  }

  /** The reading lies within `tol` degrees of `target`. */
  ghost predicate WithinTolerance(target: real, reading: Option<real>, tol: real) {
    reading.Some? && Abs(SignedError(target, reading.value)) <= tol
  }

  /** The pulse issued for one reading that is still out of tolerance:
      a pivot toward the shorter side, held `0.02 + |e| / 180 * 0.2` s. */
  function PulseFor(target: real, current: real, speed: int): (c: MotorCommand)
    ensures c.Pivot? && c.speed == speed
    ensures c.side == LeftSide <==> SignedError(target, current) < 0.0
    ensures 0.02 <= c.onTime <= 0.22
    ensures c.onTime == 0.02 + Abs(SignedError(target, current)) / 180.0 * 0.2
  {
    var e := SignedError(target, current);
    Pivot(if e < 0.0 then LeftSide else RightSide, speed, 0.02 + Abs(e) / 180.0 * 0.2)
  }

  /** A larger heading error never gives a shorter pulse. */
  lemma PulseGrowsWithError(target: real, c1: real, c2: real, speed: int)
    requires Abs(SignedError(target, c1)) <= Abs(SignedError(target, c2))
    ensures PulseFor(target, c1, speed).onTime <= PulseFor(target, c2, speed).onTime
  {
  }

  /** How a call of the turn function ended: `return True`, `return False`,
      or the `UnboundLocalError` raised by the final warning when no
      reading of the loop ever bound `angle_error`. */
  datatype TurnResult = Turned | NotTurned | Unbound

  /** What one run of the turn loop did. */
  datatype TurnOutcome = TurnOutcome(result: TurnResult, commands: seq<MotorCommand>, polled: nat)

  /** Every pivot is immediately followed by a brake. */
  ghost predicate PivotsBraked(cmds: seq<MotorCommand>) {
    forall i :: 0 <= i < |cmds| && cmds[i].Pivot? ==> i + 1 < |cmds| && cmds[i + 1] == Brake
  }

  /** The rover is left braked. */
  ghost predicate EndsBraked(cmds: seq<MotorCommand>) {
    |cmds| > 0 && cmds[|cmds| - 1] == Brake
  }

  /** `n` brakes in a row. */
  function Brakes(n: nat): (cmds: seq<MotorCommand>)
    ensures |cmds| == n && PivotsBraked(cmds)
  {
    if n == 0 then [] else [Brake] + Brakes(n - 1)
  }

  /** The `while loop_count < max_turn_attempts` loop from iteration `k` on,
      over the readings `polls` (one per iteration), followed by what comes
      after the loop.  `bound` says whether an earlier iteration already
      assigned `angle_error`. */
  function TurnLoop(target: real, polls: seq<Option<real>>, speed: int, tol: real, k: nat, bound: bool): (r: TurnOutcome)
    requires k <= |polls|
    decreases |polls| - k
    ensures k <= r.polled <= |polls|
    ensures r.result == Turned <==> exists j :: k <= j < |polls| && WithinTolerance(target, polls[j], tol)
    ensures r.result == Turned ==> r.polled > k && WithinTolerance(target, polls[r.polled - 1], tol) &&
                                   forall j :: k <= j < r.polled - 1 ==> !WithinTolerance(target, polls[j], tol)
    ensures r.result != Turned ==> r.polled == |polls|
    ensures r.result == Unbound <==> !bound && forall j :: k <= j < |polls| ==> polls[j].None?
    ensures r.result == Unbound ==> r.commands == Brakes(|polls| - k)
    ensures r.result != Unbound ==> EndsBraked(r.commands)
    ensures PivotsBraked(r.commands)
  {
    if k == |polls| then
      if bound then TurnOutcome(NotTurned, [Brake], k) else TurnOutcome(Unbound, [], k)
    else if polls[k].None? then
      var rest := TurnLoop(target, polls, speed, tol, k + 1, bound);
      BrakedCons([Brake], rest.commands);
      TurnOutcome(rest.result, [Brake] + rest.commands, rest.polled)
    else if Abs(SignedError(target, polls[k].value)) <= tol then
      TurnOutcome(Turned, [Brake], k + 1)
    else
      var rest := TurnLoop(target, polls, speed, tol, k + 1, true);
      BrakedCons([PulseFor(target, polls[k].value, speed), Brake], rest.commands);
      TurnOutcome(rest.result, [PulseFor(target, polls[k].value, speed), Brake] + rest.commands, rest.polled)
  }

  /** A brake, or a pivot and its brake, in front of a braked command
      sequence keeps it braked. */
  lemma BrakedCons(prefix: seq<MotorCommand>, rest: seq<MotorCommand>)
    requires PivotsBraked(rest)
    requires prefix == [Brake] || (|prefix| == 2 && prefix[0].Pivot? && prefix[1] == Brake)
    ensures PivotsBraked(prefix + rest)
    ensures EndsBraked(rest) ==> EndsBraked(prefix + rest)
  {
    var cmds := prefix + rest;
    assert forall i :: |prefix| <= i < |cmds| ==> cmds[i] == rest[i - |prefix|];
  }

  /** Every pivot in `cmds` is the pulse for one of the readings
      `polls[lo..hi]`. */
  ghost predicate PulsesFrom(cmds: seq<MotorCommand>, target: real, polls: seq<Option<real>>, speed: int, lo: nat, hi: nat)
    requires hi <= |polls|
  {
    forall i :: 0 <= i < |cmds| && cmds[i].Pivot? ==>
      exists j :: lo <= j < hi && polls[j].Some? && cmds[i] == PulseFor(target, polls[j].value, speed)
  }

  /** Every pivot the loop issues is the pulse for one of the readings it
      polled. */
  lemma {:induction false} TurnLoopPivotsFromReadings(target: real, polls: seq<Option<real>>, speed: int, tol: real,
                                                      k: nat, bound: bool)
    requires k <= |polls|
    ensures var r := TurnLoop(target, polls, speed, tol, k, bound);
            PulsesFrom(r.commands, target, polls, speed, k, r.polled)
    decreases |polls| - k
  {
    if k < |polls| && !(polls[k].Some? && Abs(SignedError(target, polls[k].value)) <= tol) {
      var b := bound || polls[k].Some?;
      TurnLoopPivotsFromReadings(target, polls, speed, tol, k + 1, b);
      var rest := TurnLoop(target, polls, speed, tol, k + 1, b);
      if polls[k].None? {
        PulsesCons([Brake], rest.commands, target, polls, speed, k, rest.polled);
      } else {
        PulsesCons([PulseFor(target, polls[k].value, speed), Brake], rest.commands, target, polls, speed, k, rest.polled);
      }
    }
  }

  lemma PulsesCons(prefix: seq<MotorCommand>, rest: seq<MotorCommand>, target: real, polls: seq<Option<real>>,
                   speed: int, k: nat, hi: nat)
    requires k < hi <= |polls| && PulsesFrom(rest, target, polls, speed, k + 1, hi)
    requires prefix == [Brake] || (polls[k].Some? && prefix == [PulseFor(target, polls[k].value, speed), Brake])
    ensures PulsesFrom(prefix + rest, target, polls, speed, k, hi)
  {
    var cmds := prefix + rest;
    forall i | 0 <= i < |cmds| && cmds[i].Pivot?
      ensures exists j :: k <= j < hi && polls[j].Some? && cmds[i] == PulseFor(target, polls[j].value, speed)
    {
      if i < |prefix| {
        assert cmds[i] == PulseFor(target, polls[k].value, speed);
      } else {
        assert cmds[i] == rest[i - |prefix|];
      }
    }
  }

  /** `turn_to_relative_angle` (toukashiken.py): turn by `offset` degrees
      from the current heading, trying at most `maxAttempts` readings.  No
      initial heading returns False before any command; a window in which
      every reading is missing ends in the `UnboundLocalError` of the final
      warning, after one brake per attempt and before the final brake. */
  function TurnToRelative(initial: Option<real>, polls: seq<Option<real>>, offset: real,
                          speed: int, tol: real, maxAttempts: nat): (r: TurnOutcome)
    requires |polls| >= maxAttempts
    ensures initial.None? ==> r == TurnOutcome(NotTurned, [], 0)
    ensures initial.Some? ==>
              var target := TargetHeading(initial.value, offset);
              && r.polled <= maxAttempts
              && (r.result == Turned <==> exists j :: 0 <= j < maxAttempts && WithinTolerance(target, polls[j], tol))
              && (r.result == Turned ==> r.polled > 0 && WithinTolerance(target, polls[r.polled - 1], tol))
              && (r.result == Unbound <==> forall j :: 0 <= j < maxAttempts ==> polls[j].None?)
              && (r.result == Unbound ==> r.commands == Brakes(maxAttempts))
              && (r.result != Unbound ==> EndsBraked(r.commands))
              && PivotsBraked(r.commands)
  {
    if initial.None? then TurnOutcome(NotTurned, [], 0)
    else
      var target := TargetHeading(initial.value, offset);
      var ps := polls[..maxAttempts];
      assert forall j :: 0 <= j < maxAttempts ==> ps[j] == polls[j];
      TurnLoop(target, ps, speed, tol, 0, false)
  }

  /** Readings of a source that always answers. */
  function Lift(hs: seq<real>): (r: seq<Option<real>>)
    ensures |r| == |hs| && forall i :: 0 <= i < |hs| ==> r[i] == Some(hs[i])
  {
    seq(|hs|, i requires 0 <= i < |hs| => Some(hs[i]))
  }

  /** Without missing readings every brake but the last follows a pivot, so
      the commands are one pivot-and-brake pair per failed reading plus the
      final brake; `angle_error` stays unbound only when the loop never
      runs. */
  lemma {:induction false} TurnLoopPairs(target: real, hs: seq<real>, speed: int, tol: real, k: nat, bound: bool)
    requires k <= |hs|
    ensures var r := TurnLoop(target, Lift(hs), speed, tol, k, bound);
            && (r.result == Unbound <==> !bound && k == |hs|)
            && (r.result != Unbound ==> |r.commands| == 2 * (r.polled - k - (if r.result == Turned then 1 else 0)) + 1)
    decreases |hs| - k
  {
    if k < |hs| {
      TurnLoopPairs(target, hs, speed, tol, k + 1, true);
    }
  }

  /** `GDA._turn_to_relative_angle`: the same loop over readings from
      `_get_bno_heading`, which are never `None`.  The initial `None` check
      (line 167) and the in-loop one (line 178) can therefore never fire,
      and `angle_error` is unbound at the final warning only when
      `max_turn_attempts` is 0. */
  function GdaTurnToRelative(initial: real, polls: seq<real>, offset: real,
                             speed: int, tol: real, maxAttempts: nat): (r: TurnOutcome)
    requires |polls| >= maxAttempts
    ensures var target := TargetHeading(initial, offset);
            && r.polled <= maxAttempts
            && (r.result == Turned <==> exists j :: 0 <= j < maxAttempts && Abs(SignedError(target, polls[j])) <= tol)
            && (r.result == Unbound <==> maxAttempts == 0)
            && (r.result != Unbound ==> EndsBraked(r.commands) && PivotsBraked(r.commands))
            && (r.result != Unbound ==> |r.commands| == 2 * (r.polled - (if r.result == Turned then 1 else 0)) + 1)
  {
    var r := TurnToRelative(Some(initial), Lift(polls), offset, speed, tol, maxAttempts);
    TurnLoopPairs(TargetHeading(initial, offset), polls[..maxAttempts], speed, tol, 0, false);
    assert Lift(polls)[..maxAttempts] == Lift(polls[..maxAttempts]);
    r
  }
}
