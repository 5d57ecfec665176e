/** The scans of the goal detector in C_GOAL_DETECTIVE_ARLISS.py.  Each
    scan step produces a heading (from `_get_bno_heading`, which never
    yields None) and a red ratio (from `_detect_red_percentage`, which
    yields a fraction in [0, 1] or the error sentinel -1.0).  The scans are
    folds over the sequence of such samples; turning between samples is
    recorded as the list of relative turn offsets it commands. */
module GoalScan {
  import opened Common
  import opened AngleMath

  /** The value `_detect_red_percentage` returns when capture or
      processing fails. */
  const ErrorRatio: real := -1.0

  datatype Sample = Sample(heading: real, ratio: real)

  /** A sample the scans do not skip. */
  predicate Valid(s: Sample) {
    s.ratio != ErrorRatio
  }

  /** What `_detect_red_percentage` can return: the sentinel or a fraction. */
  predicate WellFormed(s: Sample) {
    s.ratio == ErrorRatio || 0.0 <= s.ratio <= 1.0
  }

  predicate AllWellFormed(s: seq<Sample>) {
    forall i :: 0 <= i < |s| ==> WellFormed(s[i])
  }

  /** Headings of the valid samples whose ratio reaches `th`, in scan
      order: the lists the scans append to. */
  function Recorded(s: seq<Sample>, th: real): seq<real>
  {
    if |s| == 0 then []
    else Recorded(s[..|s| - 1], th)
         + (if Valid(s[|s| - 1]) && s[|s| - 1].ratio >= th then [s[|s| - 1].heading] else [])
  }

  /** A heading is recorded exactly when some valid sample at that heading
      reaches the threshold; there is at most one entry per sample. */
  lemma {:induction false} RecordedMembers(s: seq<Sample>, th: real)
    ensures |Recorded(s, th)| <= |s|
    ensures forall h :: h in Recorded(s, th) <==>
              exists i :: 0 <= i < |s| && Valid(s[i]) && s[i].ratio >= th && s[i].heading == h
  {
    if |s| > 0 {
      var init := s[..|s| - 1];
      RecordedMembers(init, th);
      assert forall i :: 0 <= i < |init| ==> init[i] == s[i];
    }
  }

  /** Nothing is recorded iff no valid sample reaches the threshold. */
  lemma RecordedEmpty(s: seq<Sample>, th: real)
    ensures Recorded(s, th) == [] <==> forall i :: 0 <= i < |s| ==> !(Valid(s[i]) && s[i].ratio >= th)
  {
    RecordedMembers(s, th);
    if Recorded(s, th) != [] {
      assert Recorded(s, th)[0] in Recorded(s, th);
    }
  }

  // ---------------------------------------------------------------------
  // _perform_final_scan_and_terminate
  // ---------------------------------------------------------------------

  /** The three return values: True (a high sample: turn round, advance,
      scan again), False (enough detections: end the mission), None. */
  datatype FinalVerdict = Reverse | Terminate | Inconclusive

  datatype FinalScanResult = FinalScanResult(verdict: FinalVerdict, recorded: seq<real>, examined: nat)

  predicate HighSample(s: Sample, highTh: real) {
    Valid(s) && s.ratio >= highTh
  }

  /** One final-confirmation scan of `360 / step` steps.  The first valid
      sample reaching `highTh` ends the scan at once, before it could be
      recorded; otherwise the scan runs to the end and terminates the
      mission iff at least `minDetections` headings were recorded. */
  method FinalScan(samples: seq<Sample>, step: int, finalTh: real, minDetections: int, highTh: real)
    returns (r: FinalScanResult)
    requires step > 0 && |samples| >= 360 / step
    ensures r.examined <= 360 / step
    ensures r.verdict == Reverse <==> exists i :: 0 <= i < 360 / step && HighSample(samples[i], highTh)
    ensures r.verdict == Reverse ==>
              && r.examined > 0
              && HighSample(samples[r.examined - 1], highTh)
              && (forall j :: 0 <= j < r.examined - 1 ==> !HighSample(samples[j], highTh))
              && r.recorded == Recorded(samples[..r.examined - 1], finalTh)
    ensures r.verdict != Reverse ==>
              && r.examined == 360 / step
              && r.recorded == Recorded(samples[..360 / step], finalTh)
              && (r.verdict == Terminate <==> |r.recorded| >= minDetections)
  {
    var n := 360 / step;
    var recorded: seq<real> := [];
    var i := 0;
    while i < n
      invariant 0 <= i <= n
      invariant recorded == Recorded(samples[..i], finalTh)
      invariant forall j :: 0 <= j < i ==> !HighSample(samples[j], highTh)
    {
      var s := samples[i];
      assert samples[..i + 1][..i] == samples[..i];
      if Valid(s) {
        if s.ratio >= highTh {
          return FinalScanResult(Reverse, recorded, i + 1);
        }
        if s.ratio >= finalTh {
          recorded := recorded + [s.heading];
        }
      }
      i := i + 1;
    }
    if |recorded| >= minDetections {
      r := FinalScanResult(Terminate, recorded, n);
    } else {
      r := FinalScanResult(Inconclusive, recorded, n);
    }
  }

  // ---------------------------------------------------------------------
  // _calculate_angle_average
  // ---------------------------------------------------------------------

  /** The centre of a list of headings.  The circular mean itself (atan2
      of summed sines and cosines) is supplied as `meanDeg`; the model
      keeps the empty-list answer and the final normalisation. */
  function AngleAverage(angles: seq<real>, meanDeg: real): (c: Option<real>)
    ensures c.None? <==> |angles| == 0
    ensures c.Some? ==> 0.0 <= c.value < 360.0 && SameDirection(c.value, meanDeg)
  {
    if |angles| == 0 then None
    else
      var c := Mod360(meanDeg + 360.0);
      assert (meanDeg + 360.0) - meanDeg == Turns(1);
      SameDirectionTrans(c, meanDeg + 360.0, meanDeg);
      Some(c)
  }

  // ---------------------------------------------------------------------
  // _perform_initial_alignment_scan
  // ---------------------------------------------------------------------

  /** `(aligned, best_heading_for_red, detected_red_angles)` together with
      the relative turns the scan commands and the final turn towards the
      best heading, if one is made. */
  datatype AlignResult = AlignResult(
    aligned: bool,
    best: real,
    detected: seq<real>,
    scanTurns: seq<real>,
    alignTurn: Option<real>)

  /** Some valid sample among the first `n`. */
  predicate AnyValid(s: seq<Sample>, n: nat)
    requires n <= |s|
  {
    exists i :: 0 <= i < n && Valid(s[i])
  }

  /** `k` is the first of the first `n` samples reaching the largest valid
      ratio. */
  predicate FirstMax(s: seq<Sample>, n: nat, k: nat)
    requires n <= |s|
  {
    && k < n && Valid(s[k])
    && (forall j :: 0 <= j < n && Valid(s[j]) ==> s[j].ratio <= s[k].ratio)
    && (forall j :: 0 <= j < k && Valid(s[j]) ==> s[j].ratio < s[k].ratio)
  }

  /** The initial alignment scan: a 270 degree turn, then `270 / step`
      samples; headings with ratio at or above `th` are recorded in scan
      order and the first sample with the largest ratio is remembered.
      When nothing reached `th` but some sample was valid, the rover turns
      to that best heading from `endHeading` and reports it as the one
      detection. */
  method AlignmentScan(samples: seq<Sample>, start: real, endHeading: real, step: int, th: real)
    returns (r: AlignResult)
    requires step > 0 && |samples| >= 270 / step
    requires AllWellFormed(samples)
    ensures var n := 270 / step;
            var rec := Recorded(samples[..n], th);
            && (rec != [] ==> r.detected == rec && r.alignTurn.None?)
            && (rec == [] && AnyValid(samples, n) ==>
                  r.detected == [r.best] && r.alignTurn == Some(SignedError(r.best, endHeading)))
            && (!AnyValid(samples, n) ==> r.detected == [] && r.alignTurn.None? && r.best == start)
    ensures r.aligned <==> AnyValid(samples, 270 / step)
    ensures r.detected == [] <==> !AnyValid(samples, 270 / step)
    ensures AnyValid(samples, 270 / step) ==>
              exists k: nat :: FirstMax(samples, 270 / step, k) && r.best == samples[k].heading
    ensures |r.scanTurns| > 0 && r.scanTurns[0] == 270.0
    ensures forall t :: 1 <= t < |r.scanTurns| ==> r.scanTurns[t] == step as real
    ensures (forall j :: 0 <= j < 270 / step ==> Valid(samples[j])) ==>
              |r.scanTurns| == if 270 / step == 0 then 1 else 2 * (270 / step) - 1
  {
    var n := 270 / step;
    var maxRatio := ErrorRatio;
    var best := start;
    var detected: seq<real> := [];
    var turns: seq<real> := [270.0];
    ghost var k: int := -1;
    var i := 0;
    while i < n
      invariant 0 <= i <= n
      invariant detected == Recorded(samples[..i], th)
      invariant |turns| > 0 && turns[0] == 270.0
      invariant forall t :: 1 <= t < |turns| ==> turns[t] == step as real
      invariant (forall j :: 0 <= j < i ==> Valid(samples[j])) ==>
                  |turns| == if i == 0 then 1 else 2 * i - (if i == n then 1 else 0)
      invariant k < 0 <==> !AnyValid(samples, i)
      invariant k < 0 ==> maxRatio == ErrorRatio && best == start
      invariant k >= 0 ==> FirstMax(samples, i, k) && maxRatio == samples[k].ratio
                           && best == samples[k].heading
    {
      if i > 0 {
        turns := turns + [step as real];
      }
      var s := samples[i];
      assert samples[..i + 1][..i] == samples[..i];
      if !Valid(s) {
        i := i + 1;
        continue;
      }
      assert WellFormed(s);
      if s.ratio > maxRatio {
        maxRatio := s.ratio;
        best := s.heading;
        k := i;
      }
      if s.ratio * 100.0 >= th * 100.0 {
        detected := detected + [s.heading];
      }
      if i < n - 1 {
        turns := turns + [step as real];
      }
      i := i + 1;
    }
    assert samples[..n] == samples[..i];
    RecordedEmpty(samples[..n], th);
    if detected == [] {
      if maxRatio > ErrorRatio {
        r := AlignResult(true, best, [best], turns, Some(SignedError(best, endHeading)));
      } else {
        r := AlignResult(false, best, [], turns, None);
      }
    } else {
      r := AlignResult(true, best, detected, turns, None);
    }
  }

  // ---------------------------------------------------------------------
  // The forward scan of start_autonomous_driving
  // ---------------------------------------------------------------------

  /** Number of 20 degree steps in the forward and second scans. */
  const ForwardSteps: nat := 360 / 20

  /** Ratio at which the forward scan stops and advances. */
  const ForwardThreshold: real := 0.05

  /** The valid samples, in order: the `scan_detections` list. */
  function ValidOnly(s: seq<Sample>): (v: seq<Sample>)
    ensures |v| <= |s|
  {
    if |s| == 0 then []
    else ValidOnly(s[..|s| - 1]) + (if Valid(s[|s| - 1]) then [s[|s| - 1]] else [])
  }

  /** `scan_detections` holds only valid samples taken from the scan. */
  lemma {:induction false} ValidOnlyMembers(s: seq<Sample>)
    ensures forall x :: x in ValidOnly(s) ==> x in s && Valid(x)
  {
    if |s| > 0 {
      ValidOnlyMembers(s[..|s| - 1]);
    }
  }

  predicate ForwardHit(s: Sample) {
    Valid(s) && s.ratio >= ForwardThreshold
  }

  datatype ForwardResult = ForwardResult(moved: bool, detections: seq<Sample>)

  /** The 18-step forward scan: valid samples are collected, and the first
      one at or above 5 % makes the rover advance and ends the scan. */
  method ForwardScan(samples: seq<Sample>) returns (r: ForwardResult)
    requires |samples| >= ForwardSteps
    ensures r.moved <==> exists i :: 0 <= i < ForwardSteps && ForwardHit(samples[i])
    ensures r.moved ==> exists k :: 0 <= k < ForwardSteps && ForwardHit(samples[k])
                           && (forall j :: 0 <= j < k ==> !ForwardHit(samples[j]))
                           && r.detections == ValidOnly(samples[..k + 1])
    ensures !r.moved ==> r.detections == ValidOnly(samples[..ForwardSteps])
    ensures !r.moved ==> forall x :: x in r.detections ==> x.ratio < ForwardThreshold
  {
    var detections: seq<Sample> := [];
    var i := 0;
    while i < ForwardSteps
      invariant 0 <= i <= ForwardSteps
      invariant detections == ValidOnly(samples[..i])
      invariant forall j :: 0 <= j < i ==> !ForwardHit(samples[j])
    {
      var s := samples[i];
      assert samples[..i + 1][..i] == samples[..i];
      assert samples[..i + 1][i] == s;
      if Valid(s) {
        detections := detections + [s];
        assert detections == ValidOnly(samples[..i + 1]);
        if s.ratio >= ForwardThreshold {
          assert ForwardHit(samples[i]);
          return ForwardResult(true, detections);
        }
      } else {
        assert detections == ValidOnly(samples[..i + 1]);
      }
      i := i + 1;
    }
    assert samples[..ForwardSteps] == samples[..i];
    ValidOnlyMembers(samples[..i]);
    forall x | x in detections ensures x.ratio < ForwardThreshold {
      var j :| 0 <= j < i && samples[..i][j] == x;
      assert !ForwardHit(samples[j]);
    }
    r := ForwardResult(false, detections);
  }

  // ---------------------------------------------------------------------
  // The second-best direction
  // ---------------------------------------------------------------------

  /** `a` comes before `b` in `sorted(d, key=percentage, reverse=True)`:
      Python's sort is stable, so ties keep their original order. */
  predicate Before(d: seq<Sample>, a: nat, b: nat)
    requires a < |d| && b < |d|
  {
    d[a].ratio > d[b].ratio || (d[a].ratio == d[b].ratio && a < b)
  }

  predicate Indices(d: seq<Sample>, s: seq<nat>) {
    forall p :: 0 <= p < |s| ==> s[p] < |d|
  }

  predicate SortedBy(d: seq<Sample>, s: seq<nat>)
    requires Indices(d, s)
  {
    forall p, q :: 0 <= p < q < |s| ==> Before(d, s[p], s[q])
  }

  /** Insertion of index `x` before the first index it precedes. */
  function Insert(d: seq<Sample>, x: nat, s: seq<nat>): (t: seq<nat>)
    requires x < |d| && Indices(d, s)
    ensures |t| == |s| + 1 && Indices(d, t)
    ensures forall e :: e in t <==> e == x || e in s
  {
    if |s| == 0 then [x]
    else if Before(d, x, s[0]) then [x] + s
    else [s[0]] + Insert(d, x, s[1..])
  }

  lemma {:induction false} InsertSorted(d: seq<Sample>, x: nat, s: seq<nat>)
    requires x < |d| && Indices(d, s) && SortedBy(d, s) && x !in s
    ensures SortedBy(d, Insert(d, x, s))
  {
    if |s| > 0 && !Before(d, x, s[0]) {
      InsertSorted(d, x, s[1..]);
      var t := Insert(d, x, s[1..]);
      assert Before(d, s[0], x);
      forall q | 0 <= q < |t| ensures Before(d, s[0], t[q]) {
        assert t[q] in t;
        if t[q] != x {
          var p :| 0 <= p < |s[1..]| && s[1..][p] == t[q];
          assert Before(d, s[p], s[p + 1]) || p == 0;
        }
      }
    }
  }

  /** The indices `0 .. n-1` of `d` in sorted order. */
  function SortDesc(d: seq<Sample>, n: nat): (s: seq<nat>)
    requires n <= |d|
    ensures |s| == n && Indices(d, s)
    ensures forall e: nat :: e in s <==> e < n
  {
    if n == 0 then [] else Insert(d, n - 1, SortDesc(d, n - 1))
  }

  lemma {:induction false} SortDescSorted(d: seq<Sample>, n: nat)
    requires n <= |d|
    ensures SortedBy(d, SortDesc(d, n))
  {
    if n > 0 {
      SortDescSorted(d, n - 1);
      InsertSorted(d, n - 1, SortDesc(d, n - 1));
    }
  }

  /** A detection far enough (more than 20 degrees) from the heading the
      alignment chose. */
  predicate Far(s: Sample, aligned: real) {
    Abs(SignedError(s.heading, aligned)) > 20.0
  }

  /** Position in `s` of the first index whose sample is far, if any. */
  function FirstFar(d: seq<Sample>, s: seq<nat>, aligned: real): (p: Option<nat>)
    requires Indices(d, s)
    ensures p.Some? ==> p.value < |s| && Far(d[s[p.value]], aligned)
    ensures p.Some? ==> forall q :: 0 <= q < p.value ==> !Far(d[s[q]], aligned)
    ensures p.None? ==> forall q :: 0 <= q < |s| ==> !Far(d[s[q]], aligned)
  {
    if |s| == 0 then None
    else if Far(d[s[0]], aligned) then Some(0)
    else match FirstFar(d, s[1..], aligned)
         case None => None
         case Some(p) => Some(p + 1)
  }

  /** The index in `detections` of the direction chosen when the forward
      scan found nothing: the first far detection in sorted order, looked
      for only when there are at least two detections. */
  function SecondBest(detections: seq<Sample>, aligned: real): (k: Option<nat>)
    ensures k.Some? ==> k.value < |detections|
  {
    if |detections| < 2 then None
    else
      var sorted := SortDesc(detections, |detections|);
      match FirstFar(detections, sorted, aligned)
      case None => None
      case Some(p) => Some(sorted[p])
  }

  /** Reference characterisation: with at least two detections, the
      choice is the far detection with the largest ratio, the earliest
      one among equals, and there is none only when no detection is far. */
  lemma SecondBestIsFirstLargestFar(detections: seq<Sample>, aligned: real)
    ensures var k := SecondBest(detections, aligned);
            && (k.None? <==> |detections| < 2 || forall j :: 0 <= j < |detections| ==> !Far(detections[j], aligned))
            && (k.Some? ==>
                  && Far(detections[k.value], aligned)
                  && forall j :: 0 <= j < |detections| && j != k.value && Far(detections[j], aligned) ==>
                       (detections[j].ratio < detections[k.value].ratio
                        || (detections[j].ratio == detections[k.value].ratio && k.value < j)))
  {
    var d := detections;
    if |d| >= 2 {
      var s := SortDesc(d, |d|);
      SortDescSorted(d, |d|);
      match FirstFar(d, s, aligned)
      case None =>
        forall j | 0 <= j < |d| ensures !Far(d[j], aligned) {
          assert j in s;
        }
      case Some(p) =>
        forall j | 0 <= j < |d| && j != s[p] && Far(d[j], aligned)
          ensures Before(d, s[p], j)
        {
          assert j in s;
          var q :| 0 <= q < |s| && s[q] == j;
          assert p < q;
        }
    }
  }
}
