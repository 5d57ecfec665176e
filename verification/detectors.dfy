/** The consecutive-sample release and landing detectors.

    Three copies share one counting rule -- a counter that grows on a
    qualifying sample, drops to 0 on any other, and succeeds once it
    reaches `consecutive_checks` -- and differ in what qualifies, in
    whether the first sample is evaluated, and in the verdict given when
    the wall-clock timeout expires:

      - `check_release` (toukashiken.py): baseline from the first sample,
        timeout gives False;
      - `RoverReleaseDetector.check_landing` (class/release.py): the same
        release test, but timeout gives True;
      - `check_landing` (EM_land.py): a settle test against the previous
        sample, timeout gives True, after an optional wait for the BNO055
        calibration;
      - `check_landing` (toukashiken.py): the same, except that its
        calibration wait names a variable that does not exist and raises
        `NameError` on its first status line.

    The samples taken before the timeout are a finite sequence; the
    timeout is the end of that sequence. */
module Detectors {
  import opened Common

  /** What a detector returned and how many samples it read. */
  datatype Detection = Detection(detected: bool, consumed: nat)

  /** A run of `need` qualifying samples, all at or after `start`, ends at
      sample `i`.  With `need <= 0` every evaluated sample completes a run. */
  ghost predicate RunEndsAt(hits: seq<bool>, start: nat, need: int, i: nat)
    requires start <= i < |hits|
  {
    need <= i - start + 1 && forall j :: i - need < j <= i ==> hits[j]
  }

  /** No run ends in [start, stop). */
  ghost predicate NoRunBefore(hits: seq<bool>, start: nat, need: int, stop: nat)
    requires stop <= |hits|
  {
    forall k :: start <= k < stop ==> !RunEndsAt(hits, start, need, k)
  }

  /** `count` is the length of the run of qualifying samples ending just
      before `i` (counted from `start`). */
  ghost predicate TrailingRun(hits: seq<bool>, start: nat, i: nat, count: nat)
    requires start <= i <= |hits|
  {
    && count <= i - start
    && (forall j :: i - count <= j < i ==> hits[j])
    && (i - count > start ==> !hits[i - count - 1])
  }

  /** The counting loop from sample `i` on.  The result is success at the
      first sample that completes a run, or `onTimeout` once the samples
      run out. */
  function CountRun(hits: seq<bool>, start: nat, need: int, i: nat, count: nat, onTimeout: bool): (d: Detection)
    requires start <= i <= |hits|
    requires TrailingRun(hits, start, i, count)
    requires NoRunBefore(hits, start, need, i)
    decreases |hits| - i
    ensures forall k :: i <= k < |hits| && RunEndsAt(hits, start, need, k) && NoRunBefore(hits, start, need, k) ==>
              d == Detection(true, k + 1)
    ensures NoRunBefore(hits, start, need, |hits|) ==> d == Detection(onTimeout, |hits|)
  {
    if i == |hits| then Detection(onTimeout, |hits|)
    else
      var c: nat := if hits[i] then count + 1 else 0;
      assert TrailingRun(hits, start, i + 1, c);
      assert c >= need <==> RunEndsAt(hits, start, need, i) by {
        if hits[i] && need > c {
          assert i - c >= start ==> !hits[i - c];
        }
      }
      if c >= need then Detection(true, i + 1)
      else CountRun(hits, start, need, i + 1, c, onTimeout)
  }

  /** Counting from `start` with an empty counter: the first completed run
      decides, and without one the timeout verdict is returned after every
      sample has been read. */
  function Detect(hits: seq<bool>, start: nat, need: int, onTimeout: bool): (d: Detection)
    ensures start >= |hits| ==> d == Detection(onTimeout, |hits|)
    ensures start < |hits| ==>
              && (forall k :: start <= k < |hits| && RunEndsAt(hits, start, need, k) && NoRunBefore(hits, start, need, k) ==>
                    d == Detection(true, k + 1))
              && (NoRunBefore(hits, start, need, |hits|) ==> d == Detection(onTimeout, |hits|))
  {
    if start >= |hits| then Detection(onTimeout, |hits|)
    else CountRun(hits, start, need, start, 0, onTimeout)
  }

  /** Some run ends in [start, |hits|): then there is a first one. */
  lemma {:induction false} FirstRun(hits: seq<bool>, start: nat, need: int, k: nat) returns (m: nat)
    requires start <= k < |hits| && RunEndsAt(hits, start, need, k)
    ensures start <= m <= k && RunEndsAt(hits, start, need, m) && NoRunBefore(hits, start, need, m)
  {
    m := k;
    while m > start && exists j :: start <= j < m && RunEndsAt(hits, start, need, j)
      invariant start <= m <= k && RunEndsAt(hits, start, need, m)
      decreases m
    {
      var j :| start <= j < m && RunEndsAt(hits, start, need, j);
      m := j;
    }
  }

  /** A run that ends at `k` gives success no later than sample `k`. */
  lemma {:induction false} DetectSucceedsByRun(hits: seq<bool>, start: nat, need: int, onTimeout: bool, k: nat)
    requires start <= k < |hits| && RunEndsAt(hits, start, need, k)
    ensures Detect(hits, start, need, onTimeout).detected
    ensures Detect(hits, start, need, onTimeout).consumed <= k + 1
  {
    var m := FirstRun(hits, start, need, k);
  }

  // ---------------------------------------------------------------- release

  /** One release sample: barometric pressure (hPa) and linear Z acceleration. */
  datatype ReleaseSample = ReleaseSample(pressure: real, accZ: real)

  /** Release thresholds (defaults 0.3 hPa, 4.0 m/s^2, 3 checks). */
  datatype ReleaseConfig = ReleaseConfig(pressureChange: real, accZAbs: real, consecutive: int)

  /** Sample `j` meets the release condition against the baseline taken
      from the first sample: `|p - p0| >= threshold and |acc_z| > threshold`. */
  predicate ReleaseCondition(s: seq<ReleaseSample>, cfg: ReleaseConfig, j: nat)
    requires 0 <= j < |s|
  {
    Abs(s[j].pressure - s[0].pressure) >= cfg.pressureChange && Abs(s[j].accZ) > cfg.accZAbs
  }

  /** Qualifying flags; the first sample only sets the baseline. */
  function ReleaseHits(s: seq<ReleaseSample>, cfg: ReleaseConfig): (h: seq<bool>)
    ensures |h| == |s|
    ensures forall j :: 1 <= j < |s| ==> h[j] == ReleaseCondition(s, cfg, j)
  {
    seq(|s|, j requires 0 <= j < |s| => j >= 1 && ReleaseCondition(s, cfg, j))
  }

  /** `check_release` (toukashiken.py): BNO055 `begin()` failure gives False
      before sampling; otherwise the release counter runs from the second
      sample on, and the timeout gives False. */
  function CheckRelease(bnoBegins: bool, s: seq<ReleaseSample>, cfg: ReleaseConfig): (d: Detection)
    ensures !bnoBegins ==> d == Detection(false, 0)
    ensures bnoBegins && NoRunBefore(ReleaseHits(s, cfg), 1, cfg.consecutive, |s|) ==>
              d == Detection(false, |s|)
    ensures bnoBegins ==>
              forall k :: (1 <= k < |s| && RunEndsAt(ReleaseHits(s, cfg), 1, cfg.consecutive, k) &&
                           NoRunBefore(ReleaseHits(s, cfg), 1, cfg.consecutive, k)) ==> d == Detection(true, k + 1)
  {
    if !bnoBegins then Detection(false, 0)
    else Detect(ReleaseHits(s, cfg), 1, cfg.consecutive, false)
  }

  /** `RoverReleaseDetector.check_landing` (class/release.py), which in fact
      detects release: every call restarts from an empty counter and no
      baseline, the baseline is the call's first sample, the test is the
      release test, and the timeout gives True whatever the count. */
  function DetectorCheckLanding(s: seq<ReleaseSample>, cfg: ReleaseConfig): (d: Detection)
    ensures NoRunBefore(ReleaseHits(s, cfg), 1, cfg.consecutive, |s|) ==>
              d == Detection(true, |s|)
    ensures forall k :: (1 <= k < |s| && RunEndsAt(ReleaseHits(s, cfg), 1, cfg.consecutive, k) &&
                         NoRunBefore(ReleaseHits(s, cfg), 1, cfg.consecutive, k)) ==> d == Detection(true, k + 1)
  {
    Detect(ReleaseHits(s, cfg), 1, cfg.consecutive, true)
  }

  /** The two release copies agree except on timeout: when no run is
      completed, toukashiken.py reports failure and class/release.py
      success. */
  lemma ReleaseCopiesDifferOnlyOnTimeout(s: seq<ReleaseSample>, cfg: ReleaseConfig)
    ensures var a := CheckRelease(true, s, cfg);
            var b := DetectorCheckLanding(s, cfg);
            && a.consumed == b.consumed
            && (a.detected ==> b.detected)
            && (a.detected != b.detected <==> !a.detected && a.consumed == |s|)
  {
    var h := ReleaseHits(s, cfg);
    if !NoRunBefore(h, 1, cfg.consecutive, |s|) {
      var k :| 1 <= k < |s| && RunEndsAt(h, 1, cfg.consecutive, k);
      var m := FirstRun(h, 1, cfg.consecutive, k);
    }
  }

  /** The first sample only sets the baseline: with fewer than two samples
      no release test is ever made, and each copy gives its timeout
      verdict. */
  lemma ReleaseNeedsTwoSamples(s: seq<ReleaseSample>, cfg: ReleaseConfig)
    requires |s| <= 1
    ensures CheckRelease(true, s, cfg) == Detection(false, |s|)
    ensures DetectorCheckLanding(s, cfg) == Detection(true, |s|)
  {
  }

  /** A run of `consecutive` samples that qualify, ending at sample `k`,
      gives a release no later than `k` in both copies; and no release is
      reported while the counter has been reset within the last
      `consecutive` samples. */
  lemma {:induction false} ReleaseByConsecutiveRun(s: seq<ReleaseSample>, cfg: ReleaseConfig, k: nat)
    requires 1 <= k < |s| && cfg.consecutive <= k
    requires forall j :: k - cfg.consecutive < j <= k ==> ReleaseCondition(s, cfg, j)
    ensures CheckRelease(true, s, cfg).detected && CheckRelease(true, s, cfg).consumed <= k + 1
  {
    var h := ReleaseHits(s, cfg);
    assert RunEndsAt(h, 1, cfg.consecutive, k);
    DetectSucceedsByRun(h, 1, cfg.consecutive, false, k);
  }

  // ---------------------------------------------------------------- landing

  /** One landing sample: pressure, linear acceleration and angular rate. */
  datatype LandingSample = LandingSample(pressure: real, accX: real, accY: real, accZ: real,
                                         gyroX: real, gyroY: real, gyroZ: real)

  /** Landing thresholds (defaults 0.1 hPa, 0.5 m/s^2, 0.5 deg/s, 3 checks). */
  datatype LandingConfig = LandingConfig(pressureChange: real, accAbs: real, gyroAbs: real, consecutive: int)

  /** The rover is still at sample `j`: pressure change since the previous
      sample at most the threshold, every acceleration and rate strictly
      below theirs.  The first sample's change is infinite, so it never
      qualifies. */
  predicate Settled(s: seq<LandingSample>, cfg: LandingConfig, j: nat)
    requires 0 <= j < |s|
  {
    && j >= 1
    && Abs(s[j].pressure - s[j - 1].pressure) <= cfg.pressureChange
    && Abs(s[j].accX) < cfg.accAbs && Abs(s[j].accY) < cfg.accAbs && Abs(s[j].accZ) < cfg.accAbs
    && Abs(s[j].gyroX) < cfg.gyroAbs && Abs(s[j].gyroY) < cfg.gyroAbs && Abs(s[j].gyroZ) < cfg.gyroAbs
  }

  function LandingHits(s: seq<LandingSample>, cfg: LandingConfig): (h: seq<bool>)
    ensures |h| == |s|
    ensures forall j :: 0 <= j < |s| ==> h[j] == Settled(s, cfg, j)
  {
    seq(|s|, j requires 0 <= j < |s| => Settled(s, cfg, j))
  }

  /** The sampling loop of `check_landing` once the sensors are set up:
      every sample, the first included, is evaluated, and the timeout gives
      True whatever the count. */
  function SampleLanding(s: seq<LandingSample>, cfg: LandingConfig): (d: Detection)
    ensures NoRunBefore(LandingHits(s, cfg), 0, cfg.consecutive, |s|) ==> d == Detection(true, |s|)
    ensures forall k :: (0 <= k < |s| && RunEndsAt(LandingHits(s, cfg), 0, cfg.consecutive, k) &&
                         NoRunBefore(LandingHits(s, cfg), 0, cfg.consecutive, k)) ==> d == Detection(true, k + 1)
  {
    Detect(LandingHits(s, cfg), 0, cfg.consecutive, true)
  }

  /** One answer of `getCalibration()`: system, gyroscope, accelerometer
      and magnetometer levels. */
  datatype CalibrationStatus = CalibrationStatus(sys: int, gyro: int, accel: int, mag: int)

  /** The calibration wait ends at a status with gyroscope and
      magnetometer both at level 3. */
  predicate Calibrated(c: CalibrationStatus) {
    c.gyro == 3 && c.mag == 3
  }

  /** The `while True` calibration wait over the statuses read every 0.5 s:
      the index of the status that ends it, or None when none of them does
      and the wait is still going. */
  function CalibrationWait(statuses: seq<CalibrationStatus>): (k: Option<nat>)
    ensures k.None? <==> forall j :: 0 <= j < |statuses| ==> !Calibrated(statuses[j])
    ensures k.Some? ==> k.value < |statuses| && Calibrated(statuses[k.value]) &&
                        forall j :: 0 <= j < k.value ==> !Calibrated(statuses[j])
  {
    if |statuses| == 0 then None
    else if Calibrated(statuses[0]) then Some(0)
    else
      var k := CalibrationWait(statuses[1..]);
      assert forall j :: 1 <= j < |statuses| ==> statuses[j] == statuses[1..][j - 1];
      if k.None? then None else Some(k.value + 1)
  }

  /** How a call of `check_landing` ends: with a verdict, still waiting for
      calibration, or with an exception escaping to the caller. */
  datatype LandingRun = Verdict(d: Detection) | StillCalibrating | Raises

  /** `check_landing` (EM_land.py): BNO055 `begin()` failure gives False
      before sampling; with `calibrate_bno055` the sampling starts only once
      the calibration wait ends.  toukashiken.py's copy with `acc_cal` read
      as `accel_cal` is the same function. */
  function CheckLanding(bnoBegins: bool, calibrate: bool, statuses: seq<CalibrationStatus>,
                        s: seq<LandingSample>, cfg: LandingConfig): (r: LandingRun)
    ensures !bnoBegins ==> r == Verdict(Detection(false, 0))
    ensures r == StillCalibrating <==> bnoBegins && calibrate && forall j :: 0 <= j < |statuses| ==> !Calibrated(statuses[j])
    ensures r != Raises
    ensures bnoBegins && r.Verdict? ==> r.d == SampleLanding(s, cfg)
  {
    if !bnoBegins then Verdict(Detection(false, 0))
    else if calibrate && CalibrationWait(statuses).None? then StillCalibrating
    else Verdict(SampleLanding(s, cfg))
  }

  /** `check_landing` (toukashiken.py) as written: the calibration status
      line formats `acc_cal`, which is never assigned (line 206 binds
      `accel_cal`), so with `calibrate_bno055` the call raises `NameError`
      before its first sample, outside the `try` that would catch it. */
  function ToukashikenCheckLanding(bnoBegins: bool, calibrate: bool, statuses: seq<CalibrationStatus>,
                                   s: seq<LandingSample>, cfg: LandingConfig): (r: LandingRun)
    ensures bnoBegins && calibrate <==> r == Raises
    ensures !calibrate ==> r == CheckLanding(bnoBegins, calibrate, statuses, s, cfg)
  {
    if !bnoBegins then Verdict(Detection(false, 0))
    else if calibrate then Raises
    else Verdict(SampleLanding(s, cfg))
  }

  /** The only call of toukashiken.py's `check_landing` (lines 667-675)
      asks for calibration, so it never reports a landing: it either stops
      at `begin()` or raises. */
  lemma ToukashikenNeverLands(bnoBegins: bool, statuses: seq<CalibrationStatus>, s: seq<LandingSample>, cfg: LandingConfig)
    ensures var r := ToukashikenCheckLanding(bnoBegins, true, statuses, s, cfg);
            !(r.Verdict? && r.d.detected)
  {
  }

  /** Once the BNO055 has started and any calibration wait has ended,
      landing is always reported: either a run completes or the timeout
      forces success. */
  lemma {:induction false} LandingAlwaysSucceedsOnceStarted(calibrate: bool, statuses: seq<CalibrationStatus>,
                                                            s: seq<LandingSample>, cfg: LandingConfig)
    requires calibrate ==> exists j :: 0 <= j < |statuses| && Calibrated(statuses[j])
    ensures var r := CheckLanding(true, calibrate, statuses, s, cfg);
            r.Verdict? && r.d.detected
  {
    var h := LandingHits(s, cfg);
    if !NoRunBefore(h, 0, cfg.consecutive, |s|) {
      var k :| 0 <= k < |s| && RunEndsAt(h, 0, cfg.consecutive, k);
      DetectSucceedsByRun(h, 0, cfg.consecutive, true, k);
    }
  }

  /** With a positive count required, the first sample alone never lands
      the rover before the timeout: its pressure change is infinite. */
  lemma FirstLandingSampleNeverQualifies(s: seq<LandingSample>, cfg: LandingConfig)
    requires |s| >= 1 && cfg.consecutive >= 1
    ensures !LandingHits(s, cfg)[0]
    ensures SampleLanding(s, cfg).consumed >= 2 || |s| == 1
  {
    var h := LandingHits(s, cfg);
    assert !h[0];
    assert !RunEndsAt(h, 0, cfg.consecutive, 0);
    if !NoRunBefore(h, 0, cfg.consecutive, |s|) {
      var k :| 0 <= k < |s| && RunEndsAt(h, 0, cfg.consecutive, k);
      var m := FirstRun(h, 0, cfg.consecutive, k);
    }
  }

  /** Each landing test compares with the sample just before it, qualifying
      or not: the verdict on sample `j` depends on samples `j - 1` and `j`
      only. */
  lemma SettledIsLocal(s: seq<LandingSample>, t: seq<LandingSample>, cfg: LandingConfig, j: nat)
    requires 1 <= j < |s| && j < |t|
    requires s[j - 1].pressure == t[j - 1].pressure && s[j] == t[j]
    ensures Settled(s, cfg, j) == Settled(t, cfg, j)
  {
  }

  /** Release fails on timeout and landing succeeds on timeout, given the
      same count of qualifying samples (none): toukashiken.py's release
      check against class/release.py's detector and EM_land.py's landing
      check without calibration. */
  lemma TimeoutAsymmetry(r: seq<ReleaseSample>, rc: ReleaseConfig, l: seq<LandingSample>, lc: LandingConfig)
    requires NoRunBefore(ReleaseHits(r, rc), 1, rc.consecutive, |r|)
    requires NoRunBefore(LandingHits(l, lc), 0, lc.consecutive, |l|)
    ensures !CheckRelease(true, r, rc).detected
    ensures DetectorCheckLanding(r, rc).detected
    ensures CheckLanding(true, false, [], l, lc) == Verdict(Detection(true, |l|))
  {
  }
}
