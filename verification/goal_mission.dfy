/** The cycle structure of `start_autonomous_driving` in
    C_GOAL_DETECTIVE_ARLISS.py: branching on the number of initial
    detections, the final-scan loop, and the local flag
    `any_red_detected_and_moved_this_scan`, which that method reads at the
    end of every cycle that is not cut short but assigns only on the
    forward-search path. */
module GoalMission {
  import opened Common
  import opened GoalScan

  /** The three paths a cycle takes after the initial alignment scan. */
  datatype Branch =
    | FinalOnly        // at least four detections: straight to the final-scan loop
    | CentroidAdvance  // two or three: turn to their centre and advance
    | ForwardSearch    // none or one: the 360 degree forward scan

  function BranchFor(detectedCount: nat): (b: Branch)
  {
    if detectedCount >= 4 then FinalOnly
    else if detectedCount >= 2 then CentroidAdvance
    else ForwardSearch
  }

  /** Only the forward-search path runs the forward scan, and the centroid
      of the detections the centroid path turns to always exists. */
  lemma BranchSkipsForwardScan(detected: seq<real>, meanDeg: real)
    ensures BranchFor(|detected|) == ForwardSearch <==> |detected| < 2
    ensures BranchFor(|detected|) == FinalOnly <==> |detected| >= 4
    ensures BranchFor(|detected|) == CentroidAdvance ==> AngleAverage(detected, meanDeg).Some?
  {
  }

  /** How the final-scan loop ends. */
  datatype LoopEnd =
    | MissionEnd      // a scan returned False: `sys.exit(0)`
    | NextCycle       // a scan returned None: break to the rest of the cycle
    | StillScanning   // every scan so far returned True

  /** The final-scan loop over the verdicts of successive scans: True
      repeats the scan, False ends the mission, None leaves the loop. */
  function FinalLoop(verdicts: seq<FinalVerdict>): (e: LoopEnd)
    ensures e == StillScanning <==> forall i :: 0 <= i < |verdicts| ==> verdicts[i] == Reverse
    ensures e != StillScanning ==>
              exists i :: 0 <= i < |verdicts| && verdicts[i] != Reverse
                          && (forall j :: 0 <= j < i ==> verdicts[j] == Reverse)
                          && (e == MissionEnd <==> verdicts[i] == Terminate)
  {
    if |verdicts| == 0 then StillScanning
    else match verdicts[0]
      case Reverse =>
        var e := FinalLoop(verdicts[1..]);
        assert forall i :: 1 <= i < |verdicts| ==> verdicts[i] == verdicts[1..][i - 1];
        e
      case Terminate => MissionEnd
      case Inconclusive => NextCycle
  }

  /** What one cycle needs from the environment: the number of initial
      detections, whether the forward scan found red and advanced, and the
      verdicts of the final scans. */
  datatype CycleInput = CycleInput(detectedCount: nat, forwardMoved: bool, finals: seq<FinalVerdict>)

  /** How a cycle ends.  `Aborted` is the `UnboundLocalError` that the
      method's `except Exception` handler turns into a brake and a return. */
  datatype CycleEnd =
    | MissionEnded
    | Continue(longAdvance: bool)  // next cycle; `longAdvance`: the 3 s advance first
    | Scanning
    | Aborted

  /** One cycle as written.  `flag` is the local's binding on entry: None
      while it has never been assigned.  Yields the cycle end and the
      binding on exit. */
  function CycleAsWritten(flag: Option<bool>, c: CycleInput): (r: (CycleEnd, Option<bool>))
    ensures r.0 == Aborted <==> flag.None? && 2 <= c.detectedCount < 4 && FinalLoop(c.finals) == NextCycle
    ensures r.1.Some? <==> flag.Some? || c.detectedCount < 2
    ensures r.0 == MissionEnded <==> FinalLoop(c.finals) == MissionEnd
  {
    var branch := BranchFor(c.detectedCount);
    // only the forward-search path assigns the flag
    var flag' := if branch == ForwardSearch then Some(c.forwardMoved) else flag;
    var loop := FinalLoop(c.finals);
    if loop == MissionEnd then (MissionEnded, flag')
    else if loop == StillScanning then (Scanning, flag')
    else if branch == FinalOnly then (Continue(false), flag')  // `continue` before the read
    else if flag'.None? then (Aborted, flag')
    else (Continue(!flag'.value && c.detectedCount == 0), flag')
  }

  /** The concrete failing run: the first cycle finds two red directions
      and the final scan is inconclusive. */
  lemma FirstCycleWithTwoDetectionsAborts()
    ensures CycleAsWritten(None, CycleInput(2, false, [Inconclusive])).0 == Aborted
  {
  }

  /** One cycle with the flag cleared to False at the start of the cycle,
      as the forward-search path already does: it never aborts. */
  function CycleCorrected(c: CycleInput): (e: CycleEnd)
    ensures e != Aborted
    ensures e == MissionEnded <==> FinalLoop(c.finals) == MissionEnd
    ensures e == Scanning <==> FinalLoop(c.finals) == StillScanning
    ensures e.Continue? ==> (e.longAdvance <==> c.detectedCount == 0 && !c.forwardMoved)
  {
    var moved := if BranchFor(c.detectedCount) == ForwardSearch then c.forwardMoved else false;
    match FinalLoop(c.finals)
    case MissionEnd => MissionEnded
    case StillScanning => Scanning
    case NextCycle => Continue(!moved && c.detectedCount == 0)
  }

  /** Whenever the flag is bound the stale value cannot matter: the
      source's cycle and the corrected one agree. */
  lemma CorrectedAgreesWhenBound(flag: Option<bool>, c: CycleInput)
    requires flag.Some? || BranchFor(c.detectedCount) != CentroidAdvance
    ensures CycleAsWritten(flag, c).0 == CycleCorrected(c)
  {
  }

  /** The flag as it stands before cycle `i`, every earlier cycle having
      run to its end. */
  function FlagAt(flag: Option<bool>, cycles: seq<CycleInput>, i: nat): Option<bool>
    requires i <= |cycles|
    decreases i
  {
    if i == 0 then flag else FlagAt(CycleAsWritten(flag, cycles[0]).1, cycles[1..], i - 1)
  }

  /** How cycle `i` of the source ends, given the flag the earlier cycles
      left behind. */
  function EndAt(flag: Option<bool>, cycles: seq<CycleInput>, i: nat): CycleEnd
    requires i < |cycles|
  {
    CycleAsWritten(FlagAt(flag, cycles, i), cycles[i]).0
  }

  /** Every cycle before `n` continued. */
  predicate ContinuesBefore(flag: Option<bool>, cycles: seq<CycleInput>, n: nat)
    requires n <= |cycles|
  {
    forall i :: 0 <= i < n ==> EndAt(flag, cycles, i).Continue?
  }

  /** A first cycle that continues shifts the indices of the rest by one. */
  lemma RunStep(flag: Option<bool>, cycles: seq<CycleInput>, n: nat)
    requires n < |cycles| && CycleAsWritten(flag, cycles[0]).0.Continue?
    requires ContinuesBefore(CycleAsWritten(flag, cycles[0]).1, cycles[1..], n)
    ensures ContinuesBefore(flag, cycles, n + 1)
    ensures n + 1 < |cycles| ==> EndAt(flag, cycles, n + 1) == EndAt(CycleAsWritten(flag, cycles[0]).1, cycles[1..], n)
  {
    var flag' := CycleAsWritten(flag, cycles[0]).1;
    forall i | 0 < i < |cycles|
      ensures EndAt(flag, cycles, i) == EndAt(flag', cycles[1..], i - 1)
    {
      assert cycles[1..][i - 1] == cycles[i];
    }
  }

  /** A run of the rest that stops after `n` cycles is, behind a first
      cycle that continues, a run of the whole that stops after `n + 1`. */
  lemma RunShift(flag: Option<bool>, cycles: seq<CycleInput>, e: CycleEnd, n: nat)
    requires 0 < |cycles| && CycleAsWritten(flag, cycles[0]).0.Continue?
    requires n <= |cycles| - 1
    requires e.Continue? ==> n == |cycles| - 1 && ContinuesBefore(CycleAsWritten(flag, cycles[0]).1, cycles[1..], n)
    requires !e.Continue? ==> 1 <= n && ContinuesBefore(CycleAsWritten(flag, cycles[0]).1, cycles[1..], n - 1)
                              && e == EndAt(CycleAsWritten(flag, cycles[0]).1, cycles[1..], n - 1)
    ensures e.Continue? ==> n + 1 == |cycles| && ContinuesBefore(flag, cycles, |cycles|)
    ensures !e.Continue? ==> ContinuesBefore(flag, cycles, n) && e == EndAt(flag, cycles, n)
  {
    RunStep(flag, cycles, if e.Continue? then n else n - 1);
  }

  /** Successive cycles from the method's entry, stopping at the first
      cycle that does not continue.  Yields that end (or `Continue` when
      the inputs run out) and the number of cycles run. */
  function RunAsWritten(flag: Option<bool>, cycles: seq<CycleInput>): (r: (CycleEnd, nat))
    ensures r.1 <= |cycles|
    ensures r.0.Continue? ==> r.1 == |cycles| && ContinuesBefore(flag, cycles, |cycles|)
    ensures !r.0.Continue? ==> 1 <= r.1 && ContinuesBefore(flag, cycles, r.1 - 1)
                               && r.0 == EndAt(flag, cycles, r.1 - 1)
    decreases |cycles|
  {
    if |cycles| == 0 then (Continue(false), 0)
    else
      var c := CycleAsWritten(flag, cycles[0]);
      if c.0.Continue? then
        var r := RunAsWritten(c.1, cycles[1..]);
        RunShift(flag, cycles, r.0, r.1);
        (r.0, r.1 + 1)
      else (c.0, 1)
  }

  /** Every corrected cycle before `n` continued. */
  predicate CorrectedContinuesBefore(cycles: seq<CycleInput>, n: nat)
    requires n <= |cycles|
  {
    forall i :: 0 <= i < n ==> CycleCorrected(cycles[i]).Continue?
  }

  lemma CorrectedStep(cycles: seq<CycleInput>, n: nat)
    requires n < |cycles| && CycleCorrected(cycles[0]).Continue?
    requires CorrectedContinuesBefore(cycles[1..], n)
    ensures CorrectedContinuesBefore(cycles, n + 1)
    ensures n + 1 < |cycles| ==> cycles[n + 1] == cycles[1..][n]
  {
    assert forall i :: 0 < i <= n ==> cycles[i] == cycles[1..][i - 1];
  }

  /** The corrected run, stopping likewise at the first cycle that does
      not continue. */
  function RunCorrected(cycles: seq<CycleInput>): (r: (CycleEnd, nat))
    ensures r.1 <= |cycles|
    ensures r.0 != Aborted
    ensures r.0.Continue? ==> r.1 == |cycles| && CorrectedContinuesBefore(cycles, |cycles|)
    ensures !r.0.Continue? ==> 1 <= r.1 && CorrectedContinuesBefore(cycles, r.1 - 1)
                               && r.0 == CycleCorrected(cycles[r.1 - 1])
  {
    if |cycles| == 0 then (Continue(false), 0)
    else
      var e := CycleCorrected(cycles[0]);
      if e.Continue? then
        var r := RunCorrected(cycles[1..]);
        CorrectedStep(cycles, if r.0.Continue? then r.1 else r.1 - 1);
        (r.0, r.1 + 1)
      else (e, 1)
  }

  /** Once the flag is bound, the source's run and the corrected run are
      the same; in particular the source can abort only before its first
      forward-search cycle. */
  lemma {:induction false} RunsAgreeOnceBound(flag: Option<bool>, cycles: seq<CycleInput>)
    requires flag.Some?
    ensures RunAsWritten(flag, cycles) == RunCorrected(cycles)
    decreases |cycles|
  {
    if |cycles| > 0 {
      CorrectedAgreesWhenBound(flag, cycles[0]);
      var (e, flag') := CycleAsWritten(flag, cycles[0]);
      if e.Continue? {
        assert flag'.Some?;
        RunsAgreeOnceBound(flag', cycles[1..]);
      }
    }
  }
}
