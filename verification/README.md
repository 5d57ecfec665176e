# A verified model of the EM rover's decision logic

The EM rover is a small Raspberry Pi ground rover for a recovery
mission. It is released from a carrier and detects the release and then
its landing, using a BME280 barometer and a BNO055 inertial unit. It then
steers by compass and GPS (`$GNRMC` sentences), avoids its parachute and
red obstacles seen by its camera, and approaches a red goal cone or flags
marked with shapes. It radios its position through an IM920 module.

This project models the decision logic of the rover's Python scripts in Dafny as pure
functions over finite input sequences. It proves what the decisions
guarantee. The inputs are:

- the sensor readings a loop would poll;
- the verdicts the image processing would return;
- the serial chunks the GPS would deliver.

Running out of the sequence models a timeout.

The modules follow the scripts:

| module | file | what it models |
|---|---|---|
| `Common` | common.dfy | `Option`, the pivot side, and the real absolute value |
| `AngleMath` | angle_math.dfy | Python's floor-based `% 360` on headings, and the signed heading error |
| `TurnControl` | turn_control.dfy | the compass-reading retries and the pulse-and-brake relative turn loops |
| `Detectors` | detectors.dfy | the release and landing detectors, which count consecutive qualifying samples |
| `Bme280` | bme280.dfy | the calibration-word decoding and the integer parts of the BME280 raw readings |
| `GoalScan` | goal_scan.dfy | the red-cone scans of C_GOAL_DETECTIVE_ARLISS.py, and the choice of the second-best bearing |
| `GoalMission` | goal_mission.dfy | the goal-approach cycle, including the flag that is left unbound |
| `Vision` | vision.dfy | the camera-verdict decisions of toukashiken.py: grid verdicts, the centering and guidance loops, avoidance and re-scan |
| `Text` | text.dfy | the subset of Python string handling the GPS code uses: `split`, `strip`, `in`, slicing, `int`, `float` and ASCII decoding |
| `Gps` | gps.dfy | RMC sentence acceptance, coordinate conversion, location reading and the downlink framing |
| `Steering` | steering.dfy | the heading correction and red avoidance after landing in EM_Parachute_Avoidance.py |
| `FlagHunt` | flag_hunt.dfy | the flag-hunting state machine of Flag_hota.py |

Headings, pressures and ratios are exact reals. Python's `%` on floats
is floored, so the model reduces modulo 360 into [0, 360).

The signed heading error `(t - c + 180 + 360) % 360 - 180` therefore lies
in [-180, 180). An exact half turn gives -180, never +180, so the rover
pivots left for it (`AngleMath.SignedErrorHalfTurn`). A shortest-rotation
convention of (-180, 180] would give +180 here; the model follows the
code.

## Model

| member | source | states |
|---|---|---|
| AngleMath.Mod360 | toukashiken.py:565 | Python's float `% 360` with a positive modulus: the result lies in [0, 360) and differs from the argument by a whole number of turns |
| AngleMath.Mod360Unique | toukashiken.py:565 | any value in [0, 360) that differs from `x` by whole turns is `x % 360`, so the remainder is the only such value |
| AngleMath.TargetHeading | toukashiken.py:565 | the absolute target `(initial + offset + 360) % 360` lies in [0, 360) for every offset and points the same way as `initial + offset` |
| AngleMath.SignedError | toukashiken.py:579 | the error `(t - c + 180 + 360) % 360 - 180` lies in [-180, 180) and differs from `t - c` by whole turns |
| AngleMath.SignedErrorUnique | toukashiken.py:579 | the signed error is the only value in [-180, 180) differing from `t - c` by whole turns |
| AngleMath.SignedErrorHalfTurn | toukashiken.py:579-590 | an exact half-turn difference gives -180, never +180, so the loop pivots left for it |
| AngleMath.SignedErrorAntisymmetric | toukashiken.py:579 | swapping target and current negates the error, except at a half turn |
| AngleMath.SignedErrorZero | toukashiken.py:579 | a heading already on target has error 0 |
| TurnControl.FirstReading | toukashiken.py:378-387 | the first reading of a retry window that is not `None`, and `None` exactly when every attempt failed |
| TurnControl.GetHeading | toukashiken.py:377-390 | `get_heading` returns the first read when present, otherwise the first successful retry, and `None` only when all of them failed |
| TurnControl.GetBnoHeading | C_GOAL_DETECTIVE_ARLISS.py:94-108 | `_get_bno_heading` never yields `None`: the first available reading, or 0.0 when the whole window failed |
| TurnControl.PulseFor | toukashiken.py:587-594 | a pulse pivots left exactly when the error is negative, uses the turn speed, and is held `0.02 + abs(e)/180*0.2` s, within [0.02, 0.22] |
| TurnControl.PulseGrowsWithError | toukashiken.py:587 | a larger absolute error never gives a shorter pulse |
| TurnControl.TurnLoop | toukashiken.py:570-605 | the loop succeeds exactly when some reading within the budget is in tolerance, and stops at the first such reading; otherwise it polls every reading. When no reading of the window was present, the closing warning reads the never-assigned `angle_error` and raises UnboundLocalError, after one brake per missing reading and no final brake. Every pivot is followed by a brake, and a brake ends every other outcome |
| TurnControl.TurnLoopPivotsFromReadings | toukashiken.py:579-597 | every pivot issued is the pulse computed from one of the readings the loop polled, and a loop that has seen a reading never raises at the warning |
| TurnControl.TurnLoopPairs | toukashiken.py:570-605 | with no missing readings the commands are one pivot-and-brake pair per failed reading plus the final brake, and the warning raises only for an empty window |
| TurnControl.TurnToRelative | toukashiken.py:556-605 | `turn_to_relative_angle`: no initial heading gives False with no motor command. Otherwise it polls at most `max_turn_attempts` readings and gives True exactly when one of them is within tolerance. It raises UnboundLocalError at the warning (:602) exactly when every reading of the window is `None`, a budget of 0 included, after one brake per attempt. Every other False is braked before returning |
| TurnControl.GdaTurnToRelative | C_GOAL_DETECTIVE_ARLISS.py:161-210 | `GDA._turn_to_relative_angle` over readings that are never `None`: True exactly when some error within the budget is in tolerance. The warning at :207 raises UnboundLocalError exactly when the budget is 0. Otherwise it is braked before both returns, with two commands per failed reading plus the final brake |
| Detectors.CountRun | toukashiken.py:125-171 | the counting loop ends with success at the first sample completing `need` consecutive hits, and with the timeout verdict after the last sample when no run completes |
| Detectors.Detect | toukashiken.py:125-171 | counting from an empty counter: success at the first completed run, the timeout verdict with every sample read otherwise |
| Detectors.DetectSucceedsByRun | toukashiken.py:156-171 | any run of `need` hits ending at sample `k` gives success after at most `k + 1` samples |
| Detectors.ReleaseHits | toukashiken.py:145-161 | sample `j >= 1` qualifies exactly when its change from the first pressure is at least the threshold and its Z acceleration exceeds its threshold |
| Detectors.CheckRelease | toukashiken.py:99-171 | `check_release`: False without sampling when the BNO055 does not begin, success at the first run of qualifying samples after the baseline, False on timeout |
| Detectors.DetectorCheckLanding | class/release.py:118-207 | `RoverReleaseDetector.check_landing`: the same counting from the second sample, but True on timeout whatever the count |
| Detectors.ReleaseCopiesDifferOnlyOnTimeout | class/release.py:161-164 | the two release copies give the same verdict after the same samples whenever a run completes, and opposite verdicts when none does |
| Detectors.ReleaseNeedsTwoSamples | class/release.py:178-182 | the first sample only sets the baseline, so one sample is never enough for a release |
| Detectors.ReleaseByConsecutiveRun | toukashiken.py:156-171 | `consecutive` qualifying samples in a row ending at `k` make `check_release` succeed within `k + 1` samples |
| Detectors.LandingHits | EM_land.py:170-190 | sample `j` qualifies exactly when the pressure change from the previous sample is within the threshold and every acceleration and rate is strictly below its threshold; sample 0 has an infinite change |
| Detectors.CheckLanding | EM_land.py:85-207 | `check_landing`: False when the BNO055 does not begin. With the calibration flag it waits for the first status with gyroscope and magnetometer at level 3, and never starts sampling when none comes. Once sampling starts, it gives success at the first completed run and True on timeout. It never raises |
| Detectors.SampleLanding | EM_land.py:137-207 | the sampling loop: success after the sample completing the first run of `consecutive_checks` landing samples, and success after every sample when no run completes |
| Detectors.CalibrationWait | EM_land.py:116-124 | the wait ends at the first status with gyroscope and magnetometer both at level 3, and never ends exactly when no status has both |
| Detectors.ToukashikenCheckLanding | toukashiken.py:187-279 | the toukashiken.py `check_landing` raises NameError exactly when the BNO055 has begun and the calibration flag is set, since its first status print names the undefined `acc_cal`; without the flag it is the EM_land.py function |
| Detectors.ToukashikenNeverLands | toukashiken.py:201-207 | with the calibration flag set, as the only call (toukashiken.py:667-675) has it, the toukashiken.py `check_landing` never reports a landing |
| Detectors.LandingAlwaysSucceedsOnceStarted | EM_land.py:112-207 | once the BNO055 has begun and any calibration wait has ended, landing is always reported, by a run or by the timeout |
| Detectors.FirstLandingSampleNeverQualifies | EM_land.py:172-174 | the first sample never qualifies, so a success by count needs at least two samples |
| Detectors.SettledIsLocal | EM_land.py:172-192 | each landing test depends only on the sample and the pressure just before it |
| Detectors.TimeoutAsymmetry | toukashiken.py:132-134 | with no completed run, `check_release` reports failure at the timeout, while the class/release.py landing check and the EM_land.py `check_landing` without the calibration wait report success after every sample |
| Bme280.WordFields | toukashiken.py:36 | `(hi << 8) \| lo` fits 16 bits and gives back both bytes |
| Bme280.Signed16 | toukashiken.py:37-39 | `if v >= 32768: v -= 65536` gives the two's complement value in [-32768, 32768), congruent to the word |
| Bme280.Signed8 | toukashiken.py:56-57 | `if v >= 128: v -= 256` gives a value in [-128, 128), congruent to the byte |
| Bme280.Words | toukashiken.py:41 | the list comprehension over `range(0, 18, 2)` yields one little-endian word per byte pair, each in [0, 65536) |
| Bme280.SignRange | toukashiken.py:42-44 | the sign loop over `range(lo, hi)` converts exactly the entries with index in [lo, hi) and leaves the rest unchanged |
| Bme280.HumidityNibbles | EM_land.py:34-46 | dig_H4 and dig_H5 are 12-bit values (0..4095), so the `>= 32768` test that `range(3, 4)` applies to dig_H4 never fires, dig_H5 is not tested at all, and together they hold every bit of the shared register |
| Bme280.ReadCompensate | class/release.py:54-70 | the trimming lists as written: dig_T1, dig_T3, dig_P1 and dig_P9 stay unsigned words, the other T and P words are signed 16-bit, dig_H2 signed 16-bit, dig_H6 signed 8-bit, and every entry is congruent to its register bytes |
| Bme280.ReadCompensateDatasheet | class/release.py:54-70 | the trimming lists as section 4.2.2 of the BME280 datasheet types them: dig_T2, dig_T3 and dig_P2..dig_P9 signed, with the same bytes and the same humidity list |
| Bme280.CompensateDiffersOnlyInT3P9 | class/release.py:56-63 | the two readings agree on every entry but dig_T3 and dig_P9, and differ there exactly when the word is at least 32768 |
| Bme280.NegativeT3ReadAsPositive | toukashiken.py:37-39 | the dig_T3 bytes `00 80` are read as 32768 where the datasheet gives -32768 |
| Bme280.Adc20Fields | class/release.py:110-112 | `(b0 << 16 \| b1 << 8 \| b2) >> 4` equals `b0*4096 + b1*16 + b2/16`, is below 2^20, and gives back the msb, lsb and top nibble of xlsb |
| Bme280.AdcIgnoresLowNibble | EM_land.py:76-78 | the low nibble of xlsb never reaches the raw value |
| Bme280.RawPressureTemperature | toukashiken.py:89-91 | raw pressure from bytes 0-2 and raw temperature from bytes 3-5, each a 20-bit value built from its own three bytes |
| GoalScan.RecordedMembers | C_GOAL_DETECTIVE_ARLISS.py:282-284 | a heading is in the recorded list exactly when some valid sample at that heading reaches the threshold, with at most one entry per sample |
| GoalScan.RecordedEmpty | C_GOAL_DETECTIVE_ARLISS.py:375 | the recorded list is empty exactly when no valid sample reaches the threshold |
| GoalScan.FinalScan | C_GOAL_DETECTIVE_ARLISS.py:228-309 | `_perform_final_scan_and_terminate`: True exactly when some valid sample among `360 // step` reaches the high threshold, returning at the first one without recording it; otherwise all samples are examined, the recorded headings are those reaching `final_threshold`, and the result is False exactly when there are at least `min_red_detections_to_terminate` of them, None otherwise |
| GoalScan.AngleAverage | C_GOAL_DETECTIVE_ARLISS.py:212-226 | `_calculate_angle_average` gives None exactly for the empty list, and otherwise the supplied mean direction normalised into [0, 360) without changing where it points |
| GoalScan.AlignmentScan | C_GOAL_DETECTIVE_ARLISS.py:311-398 | `_perform_initial_alignment_scan`: the detected list is the headings reaching the threshold in scan order; with none, the best heading, the first with the largest valid ratio, is reported alone and turned to; the list is empty and `aligned` False exactly when every sample was an error; a 270 degree turn then step turns, `2n - 1` in all when no sample is skipped |
| GoalScan.ValidOnlyMembers | C_GOAL_DETECTIVE_ARLISS.py:500-505 | `scan_detections` holds only valid samples taken from the scan |
| GoalScan.ForwardScan | C_GOAL_DETECTIVE_ARLISS.py:489-520 | the 18-step forward scan advances exactly when some valid sample reaches 0.05, stopping at the first; the collected detections are the valid samples up to that one, or all of them, each below 0.05, when it never advances |
| GoalScan.Insert | C_GOAL_DETECTIVE_ARLISS.py:526 | inserting one index into a sorted index list adds exactly that index |
| GoalScan.InsertSorted | C_GOAL_DETECTIVE_ARLISS.py:526 | insertion keeps the descending-percentage order, ties in original order |
| GoalScan.SortDesc | C_GOAL_DETECTIVE_ARLISS.py:526 | the sort is a permutation of the detection indices |
| GoalScan.SortDescSorted | C_GOAL_DETECTIVE_ARLISS.py:526 | the sort orders by descending percentage and is stable, as Python's `sorted(..., reverse=True)` is |
| GoalScan.FirstFar | C_GOAL_DETECTIVE_ARLISS.py:530-534 | the loop stops at the first sorted detection more than 20 degrees from the aligned heading, and finds none only when no detection is that far |
| GoalScan.SecondBest | C_GOAL_DETECTIVE_ARLISS.py:522-534 | the second-best choice, when made, is one of the forward-scan detections |
| GoalScan.SecondBestIsFirstLargestFar | C_GOAL_DETECTIVE_ARLISS.py:522-534 | with at least two detections the choice is the far detection with the largest percentage, the earliest among equals, and there is no choice only with fewer than two detections or none far |
| GoalMission.BranchSkipsForwardScan | C_GOAL_DETECTIVE_ARLISS.py:422-475 | four or more detections go straight to the final-scan loop, two or three turn to their centre, which always exists, and only none or one run the forward scan |
| GoalMission.FinalLoop | C_GOAL_DETECTIVE_ARLISS.py:674-685 | the final-scan loop repeats on True, ends the mission at the first False and leaves at the first None, and keeps scanning only while every verdict is True |
| GoalMission.CycleAsWritten | C_GOAL_DETECTIVE_ARLISS.py:420-688 | a cycle as written aborts exactly when the flag was never bound, the cycle took the two-or-three branch and the final-scan loop ended with None; the flag is bound after the cycle exactly when it was before or the forward scan ran |
| GoalMission.FirstCycleWithTwoDetectionsAborts | C_GOAL_DETECTIVE_ARLISS.py:687 | a first cycle with two detections and an inconclusive final scan reads the unbound flag |
| GoalMission.CycleCorrected | C_GOAL_DETECTIVE_ARLISS.py:420-688 | with the flag cleared at the start of each cycle a cycle never aborts, ends the mission exactly on a False final scan, and makes the long advance exactly when there were no detections and the forward scan did not move |
| GoalMission.CorrectedAgreesWhenBound | C_GOAL_DETECTIVE_ARLISS.py:687 | when the flag is bound, or the cycle does not take the two-or-three branch, the cycle as written and the corrected cycle end the same way |
| GoalMission.RunAsWritten | C_GOAL_DETECTIVE_ARLISS.py:406-688 | successive cycles as written, each starting from the flag the earlier ones left: the run ends with the end of the first cycle that does not continue, after exactly that many cycles, every earlier cycle having continued; it ends in `Continue` only when every given cycle continued |
| GoalMission.RunCorrected | C_GOAL_DETECTIVE_ARLISS.py:406-688 | successive corrected cycles never abort, and end likewise with the first cycle that does not continue, after exactly that many cycles |
| GoalMission.RunsAgreeOnceBound | C_GOAL_DETECTIVE_ARLISS.py:687 | once the flag is bound, the runs as written and corrected are identical |
| Vision.GridVerdictOf | toukashiken.py:462-554 | `detect_red_in_grid`: `high_percentage_overall` exactly when the whole-frame ratio is at least 0.80, before any cell; an error exactly when capture or a cell fails; otherwise `left_bottom` iff bottom-left qualifies and bottom-right does not, `right_bottom` symmetrically, `none_detected` iff no bottom cell qualifies, and `bottom_middle` in every other case |
| Vision.GridVerdictIgnoresCells | toukashiken.py:497-500 | two frames with the same high whole-frame ratio get the same verdict whatever their cells hold |
| Vision.Bucket | toukashiken.py:343-355 | the bucket of an on-screen centroid is always between 1 and 5 |
| Vision.BlockNumber | toukashiken.py:338-362 | `get_block_number_approach` gives None exactly when no centroid was found, otherwise a block in 1..5 |
| Vision.BucketMonotone | toukashiken.py:343-355 | moving the centroid right never lowers the bucket |
| Vision.BucketIsClampedQuotient | toukashiken.py:343-355 | with `w = width // 5` the bucket is `cx // w + 1` capped at 5, so any `cx >= 4w`, the remainder columns included, and any width below 5 give 5 |
| Vision.BucketOfQuotient | toukashiken.py:345-352 | a centroid in the `q`-th strip of width `w` (q below 4) is in bucket `q + 1` |
| Vision.SearchPivots | toukashiken.py:687-696 | the search pivots right once per frame before the first frame above 5 percent, and has not ended while no frame shows one |
| Vision.CenteringStep | toukashiken.py:699-724 | the centering table stops exactly at bucket 3, turns left for buckets 1 and 2 and right otherwise, at speed 45 for buckets 2 and 4 and 60 otherwise |
| Vision.CenteringLoop | toukashiken.py:699-724 | the centering loop issues one table motion per reading and ends exactly at the first reading of bucket 3 |
| Vision.GuidanceStep | toukashiken.py:727-770 | the guidance table brakes exactly at the goal (centred and above 60 percent), creeps or follows forward when centred short of it, pivots right for buckets 1 and 2 and left for 4 and 5 (at 100 for the outer buckets), and turns right at 60 when there is no centroid |
| Vision.GuidanceLoop | toukashiken.py:727-774 | the guidance loop issues the table motion for each view and finishes exactly at the first view at the goal, with a brake |
| Vision.CenteringOpposesGuidance | toukashiken.py:701-766 | for the same off-centre bucket the centering table and the guidance table turn to opposite sides |
| Vision.CreepShortensWhenCloser | toukashiken.py:738-746 | with the object centred, a larger percentage never gives a longer creep |
| Vision.NetRotationAppend | toukashiken.py:860-881 | the net rotation of two maneuver lists in sequence is the sum of their rotations |
| Vision.AvoidanceFor | toukashiken.py:858-894 | every grid verdict is followed by its avoidance list ending in a brake; only left, right and middle verdicts turn |
| Vision.AvoidanceTurnsAway | toukashiken.py:860-881 | the commanded turn offsets sum to 90 degrees right for red at the bottom left or middle, to 90 left for red at the bottom right, and to 0 for other verdicts |
| Vision.ScanTurnsCancel | toukashiken.py:949-961 | the commanded offsets of the four turns of the three-point look sum to 0 |
| Vision.RescanDecision | toukashiken.py:963-991 | all clear exactly when all three looks report `none_detected`; otherwise the left look decides first, then the right, then the front, and the final `else` branch is unreachable |
| Vision.RescanManeuvers | toukashiken.py:967-995 | nothing moves when all clear; every other decision ends with the five-second run at 90 and a brake |
| Vision.RescanTurnsAway | toukashiken.py:973-988 | after a detection the commanded turn offsets sum to 90 degrees right for the left look, 90 left for the right look, and 90 right for the front look |
| Gps.From | EM_Parachute_Avoidance.py:36 | `coord[lo:]` is the suffix from `lo`, and the empty string when `lo` lies past the end |
| Gps.Combine | EM_Parachute_Avoidance.py:35-40 | a value exists exactly when both the degree and the minute field parse |
| Gps.ConvertToDecimal | EM_Parachute_Avoidance.py:34-40 | a conversion succeeds only on a field longer than its two (N/S) or three (E/W) degree digits |
| Gps.ConvertToDecimalAsWritten | toukashiken.py:393-400 | for N and S the toukashiken.py conversion agrees with the correct one |
| Gps.FieldMinutes | EM_Parachute_Avoidance.py:36 | the minutes part of a well-formed `dddmm.ffff` field reads back as the minutes written |
| Gps.FieldDegrees | EM_Parachute_Avoidance.py:35 | the degree digits of a well-formed field read back as the degrees written |
| Gps.FieldDegreesAsWritten | toukashiken.py:395 | `coord[1:3]` of a three-digit degree field reads the degrees modulo 100 |
| Gps.ConvertRoundTrip | EM_Parachute_Avoidance.py:34-40 | converting the field a receiver writes for any degrees, minutes and direction gives back that signed decimal value |
| Gps.ConvertFromParts | EM_Parachute_Avoidance.py:34-40 | the conversion is degrees plus minutes over 60, negated for S and W, whenever both fields parse |
| Gps.AsWrittenFromParts | toukashiken.py:395-400 | the toukashiken.py E/W conversion combines the two digits at `coord[1:3]` with the minutes |
| Gps.AsWrittenDropsHundreds | toukashiken.py:395 | every well-formed longitude field is read with its hundreds of degrees dropped |
| Gps.LowDigits | toukashiken.py:395 | the last two of three zero-padded digits are the digits of the number modulo 100 |
| Gps.LongitudeHundredsLost | toukashiken.py:395 | the field `13954.0000` E is read as 39.9 degrees by toukashiken.py and as 139.9 by the other scripts |
| Gps.RmcFields | EM_Parachute_Avoidance.py:52-53 | an accepted line has more than six comma fields with status `A`, and its fields join back to the stripped line |
| Gps.FixOf | EM_Parachute_Avoidance.py:53-56 | a chunk yields a fix exactly when both coordinate pairs convert, and the fix carries the converted latitude (fields 3, 4) and longitude (fields 5, 6); otherwise the chunk is abandoned |
| Gps.FirstAccepted | EM_Parachute_Avoidance.py:50-52 | the index found is that of an accepted line and every earlier line is rejected |
| Gps.FirstFixDecidedByFirstAccepted | EM_Parachute_Avoidance.py:50-58 | the first accepted line alone decides a chunk, whatever follows it |
| Gps.FirstFix | EM_Parachute_Avoidance.py:50-56 | the line scan of one chunk gives no fix exactly when no line is accepted; otherwise the first accepted line decides, with its fix or with the error that abandons the chunk |
| Gps.ToukashikenChunk | toukashiken.py:407-422 | one chunk read by toukashiken.py, from its bytes: no fix exactly when no decoded line carries `$GPRMC` or `$GNRMC` and passes the RMC test; otherwise the result of the first accepted line with the toukashiken.py conversion |
| Gps.ParachuteChunk | EM_Parachute_Avoidance.py:47-56 | one chunk read by EM_Parachute_Avoidance.py, from its bytes: the result of the line scan over the decoded lines, whatever the chunk-level `$GNRMC` test says |
| Gps.ParachutePrecheckRedundant | EM_Parachute_Avoidance.py:49-52 | the chunk-level `$GNRMC` test never changes the outcome of the line scan |
| Gps.Location | EM_Parachute_Avoidance.py:42-60 | a location is returned exactly when some chunk yields a fix, and it is the fix of the first such chunk; otherwise the read times out |
| Gps.FrameRoundTrip | EM_GPS_downlink.py:58-59 | the `TXDA 0003,` framing is inverted by unframing, and a message that unframes to a payload is exactly its framing |
| Gps.DownlinkMessages | EM_GPS_downlink.py:48-64 | at most one message per line, every message is a well-framed radio command, and a chunk without accepted `$GNRMC` lines sends nothing |
| Gps.DownlinkStartsWithFirstFix | EM_GPS_downlink.py:50-59 | a chunk sends a message exactly when the location reader would find a fix in it, and the first message carries that fix |
| Gps.DownlinkSendsAcceptedFixesInOrder | EM_GPS_downlink.py:50-64 | message `i` carries the fix of accepted line `i`, in order, and when an accepted line is left unsent it is one whose coordinates do not convert, which ends the chunk |
| Gps.DownlinkChunk | EM_GPS_downlink.py:47-64 | the messages for one chunk, from its bytes, are those of the line scan over the decoded lines, whatever the chunk-level `$GNRMC` test says |
| Steering.HeadingOrZero | EM_Parachute_Avoidance.py:124-126 | a missing compass reading counts as heading 0, a present one is used as is |
| Steering.CourseDiff | EM_Parachute_Avoidance.py:129 | the course difference lies in [0, 360) and points the same way as target minus heading |
| Steering.TurnFor | EM_Parachute_Avoidance.py:129-140 | right exactly for differences strictly between 10 and 180, left exactly from 180 on, hold exactly up to 10 |
| Steering.TurnMove | EM_Parachute_Avoidance.py:130-140 | the command for a decision: `changing_right` at 40 exactly for a right turn, `changing_left` at 40 exactly for a left turn, and a free stop exactly when holding course |
| Steering.CorrectionFollowsSignedError | EM_Parachute_Avoidance.py:129-140 | the first command of the run is `changing_left` exactly for a negative signed error, `changing_right` exactly above 10 degrees, and a free stop in between |
| Steering.TurnAgreesWithSignedError | EM_Parachute_Avoidance.py:129-140 | read as a signed error in [-180, 180): every negative error turns left, a positive error turns right only above 10 degrees |
| Steering.DiffFromError | EM_Parachute_Avoidance.py:129 | the course difference is the signed error shifted into [0, 360) |
| Steering.Avoidance | EM_Parachute_Avoidance.py:144-156 | the sequence ends with a brake and contains a forward run, and it swerves right exactly when red is seen |
| Steering.ParachuteRun | EM_Parachute_Avoidance.py:116-161 | nothing moves exactly when the GPS read times out; otherwise one heading-correction command precedes the avoidance sequence |
| Steering.TurnIgnoresWholeTurns | EM_Parachute_Avoidance.py:69-70 | normalising the bearing makes the decision independent of whole turns added to it |
| FlagHunt.FindTargetFlag | Flag_hota.py:20-26 | no flag is returned exactly when no detected flag carries the shape; a returned flag is one of the detections and carries it |
| FlagHunt.FindTargetFlagFirst | Flag_hota.py:22-25 | the flag returned is the first in detection order carrying the shape |
| FlagHunt.Terminal | Flag_hota.py:67-79 | a hunt stops as reached exactly at a centred flag of at least 20 percent, and as abandoned exactly after 50 fruitless pivots |
| FlagHunt.Step | Flag_hota.py:56-150 | the commands each phase issues before the next detection, and the phase the detection leads to: searching, advancing or tracking with the newest flag, and a lost flag sending the hunt back to the top |
| FlagHunt.TrackActions | Flag_hota.py:106-142 | the tracking commands: nothing exactly for a flag without a position, the two-step creep exactly for a centred flag, and for a flag off centre one speed-60 `petit` pair and a brake, `petit_right` exactly when the flag is at the left |
| FlagHunt.Run | Flag_hota.py:56-150 | a hunt consumes at most the frames available, and all of them when it runs out |
| FlagHunt.Rotations | Flag_hota.py:67-75 | `n` search rounds are `n` alternating pivot-right and brake pairs |
| FlagHunt.SearchGivesUp | Flag_hota.py:66-79 | from any count, a target unseen in the remaining search frames is abandoned after exactly the remaining pivots |
| FlagHunt.CenteringTurnsTowardsFlag | Flag_hota.py:104-142 | a flag at the left makes the rover pivot right, one at the right pivot left, and a centred flag below the threshold creep two steps |
| FlagHunt.LosingFlagRestarts | Flag_hota.py:144-150 | losing the flag while tracking returns to a fresh search |
| FlagHunt.ReachedOnlyWhenLargeAndCentred | Flag_hota.py:129-140 | a hunt is reached only at a centred flag of at least the threshold carrying the target shape |
| FlagHunt.Mission | Flag_hota.py:52-56 | the targets are hunted in order, each at most once, and only running out of frames ends the mission early |
| FlagHunt.TargetShapesDistinct | Flag_hota.py:17 | the four target names are distinct |
| FlagHunt.MissionHuntsEachOnce | Flag_hota.py:17-52 | no shape is hunted twice in one mission |
| Text.Split | EM_Parachute_Avoidance.py:50 | `split` never returns an empty list |
| Text.SplitPiecesWithout | EM_Parachute_Avoidance.py:50 | no piece of a split contains the separator |
| Text.JoinSplit | EM_Parachute_Avoidance.py:52 | joining the pieces of a split with the separator gives back the text |
| Text.SplitJoin | EM_Parachute_Avoidance.py:52 | splitting a join of separator-free pieces gives back the pieces |
| Text.StripLeft | EM_Parachute_Avoidance.py:52 | the result is a suffix not starting with whitespace, and everything removed is whitespace |
| Text.StripRight | EM_Parachute_Avoidance.py:52 | the result is a prefix not ending with whitespace, and everything removed is whitespace |
| Text.StripIsLeftThenRight | EM_Parachute_Avoidance.py:52 | `strip` is the left strip followed by the right strip |
| Text.Strip | EM_Parachute_Avoidance.py:52 | `strip` keeps the middle slice of the text, removes only whitespace on either side, and leaves no whitespace at either end |
| Text.ContainsAt | EM_Parachute_Avoidance.py:51 | `pat in s` holds whenever the pattern occurs at some offset |
| Text.Contains | EM_Parachute_Avoidance.py:51 | the empty pattern is in every text, and no pattern is in a shorter text |
| Text.ContainsWitness | EM_Parachute_Avoidance.py:51 | conversely, `pat in s` holds only when the pattern occurs at some offset |
| Text.PieceContains | EM_Parachute_Avoidance.py:49-51 | a text contains whatever one of its split lines contains |
| Text.Slice | EM_Parachute_Avoidance.py:35-36 | a slice has the length of the clamped range and is the plain subsequence when the range fits |
| Text.AsciiDecode | EM_Parachute_Avoidance.py:48 | decoding with errors ignored keeps only characters below 128, and keeps every byte of a pure-ASCII input |
| Text.AsciiDecodeByte | EM_Parachute_Avoidance.py:48 | one byte below 128 decodes to its character, and one byte from 128 on decodes to nothing |
| Text.AsciiDecodeAppend | EM_Parachute_Avoidance.py:48 | decoding works byte by byte: the decoding of two byte strings in sequence is the two decodings in sequence, so the result is the input with the bytes from 128 on removed, in order |
| Text.ValDigitsOf | EM_Parachute_Avoidance.py:35 | the zero-padded digits of a number read back as that number |
| Text.ValAppend | EM_Parachute_Avoidance.py:35 | the value of concatenated digit strings is the left value scaled by the right length plus the right value |
| Text.ParseIntDigits | EM_Parachute_Avoidance.py:35 | `int` of zero-padded digits is the number written |
| Text.MagnitudeDecimal | EM_Parachute_Avoidance.py:36 | digits, a point and digits read as integer part plus fraction over a power of ten |
| Text.ParseRealDigits | EM_Parachute_Avoidance.py:36 | `float` of a zero-padded `a.f` text is the decimal written |
| Text.ParseInt | EM_Parachute_Avoidance.py:35 | `int` of a field: a negative value comes only from a leading `-`, and a leading `-` never gives a positive value |
| Text.ParseIntUnsigned | EM_Parachute_Avoidance.py:35 | a non-empty digit string reads as its value |
| Text.ParseIntSigned | EM_Parachute_Avoidance.py:35 | digits after a leading `+` read as their value, and after a leading `-` as its negation |
| Text.ParseReal | EM_Parachute_Avoidance.py:36 | `float` of a field: a negative value comes only from a leading `-`, and a leading `-` never gives a positive value |
| Text.ParseRealSigned | EM_Parachute_Avoidance.py:36 | an unsigned numeral reads as its magnitude, with a leading `+` the same, and with a leading `-` as its negation |

## Left out

- Floating point: headings, pressures, ratios and coordinates are exact reals, so float rounding is not modelled.
- The BME280 float compensation (`bme280_compensate_t` and `_p`) is numeric work on reals, so only the integer decoding feeding it is modelled.
- Trigonometry is left out. This covers `get_bearing_to_goal`, `get_distance_to_goal`, `calculate_heading` and the sine/cosine body of `_calculate_angle_average`. The bearing and the circular mean are inputs of the model.
- Camera and OpenCV processing are left out: capture, HSV masks, contours, moments, `detect_red_object` and `FlagDetector.detect`. Ratios, centroids, grid-cell results, flag positions and area percentages are inputs.
- Wall-clock timing, sleeps and the 0.2 s sampling cadence are left out. A timeout is the end of a finite sample sequence, and a retry budget is the length of a reading window.
- Hardware and I/O are left out: I2C, BNO055 set-up, GPIO, pigpio, the serial port and IM920 transmission. Only the text of a downlink message is modelled.
- The calibration wait of `check_landing` is modelled by Detectors.CalibrationWait over a finite list of `getCalibration()` answers. A list without a calibrated answer stands for a wait that never ends.
- `MotorDriver`, `following` and `FlagDetector` are not part of this model. Motor calls appear only as command values in the order they are issued.
- Four Python exceptions are modelled as outcomes. A GPS field that does not convert raises ValueError, which abandons the chunk (`Gps.FixOf`). The turn loops raise UnboundLocalError at their warning print (`TurnControl.TurnLoop`). toukashiken.py raises NameError in its calibration wait (`Detectors.ToukashikenCheckLanding`). The goal cycle reads an unbound flag (`GoalMission.CycleAsWritten`). What happens to these exceptions after they leave the modelled function is not modelled.
- Exceptions raised by device reads are left out, because device errors are not inputs of the model. This covers the detectors' `except Exception: return False` paths, `finally` clean-up and `KeyboardInterrupt`.
- Vision.AvoidanceTurnsAway, Vision.ScanTurnsCancel and Vision.RescanTurnsAway state the sum of the commanded turn offsets. The rotation actually made differs, because each relative turn stops anywhere within its tolerance, or gives up after its attempts.
- The GPS re-alignment loops of toukashiken.py (818-853 and 906-939) are left out. They combine the trigonometric bearing with the turn controller, and the turn controller is modelled on its own.
- test_Contour_detection.py, AAA_A.py, test_motor_distance.py and test_motor_turning.py are not part of this model. The first two are not valid Python. The last two are hardware calibration runs.
- The `__main__` block of C_GOAL_DETECTIVE_ARLISS.py is not part of this model. It instantiates a class the file does not define.
- Text.ParseInt and Text.ParseReal accept only an optional sign followed by digits, with at most one decimal point. Python's `int` and `float` also accept surrounding whitespace, underscores, exponents, `inf` and `nan`. Receivers do not write those forms in coordinate fields.
- Gps.Payload is a parameter. The float formatting of `f'{lat, lon}'` is supplied as the `show` function.
- GoalScan.SecondBest states only that its choice indexes the detections. What the choice is, is stated in GoalScan.SecondBestIsFirstLargestFar.
- GoalScan.AngleAverage takes the circular mean as an input (see trigonometry above). It states the empty-list answer and the normalisation.
- FlagHunt.Run states only how many frames a hunt consumes. Its outcomes and commands are stated in FlagHunt.SearchGivesUp, FlagHunt.CenteringTurnsTowardsFlag, FlagHunt.LosingFlagRestarts and FlagHunt.ReachedOnlyWhenLargeAndCentred.
- Gps.ConvertToDecimal states only the length its success needs. Its values are stated in Gps.ConvertRoundTrip and Gps.ConvertFromParts.
- Gps.DownlinkMessages does not repeat the chunk-level `"$GNRMC" in text` test. Gps.ParachutePrecheckRedundant shows that this test never changes the outcome.
- Gps.DownlinkMessages does not model the per-chunk serial loop that runs without end.

## Findings

| source | as written | input that shows it | evidently intended | confidence | as-written member | corrected member |
|---|---|---|---|---|---|---|
| class/release.py:56-63 | dig_T3 and dig_P9 are kept as unsigned 16-bit words; only the other T and P trimming words are sign-converted | registers `00 80` for dig_T3 give 32768 | section 4.2.2 of the BME280 datasheet types dig_T3 and dig_P9 as signed 16-bit, so the reading is -32768 | not executed | Bme280.NegativeT3ReadAsPositive | Bme280.ReadCompensateDatasheet |
| C_GOAL_DETECTIVE_ARLISS.py:687 | `any_red_detected_and_moved_this_scan` is assigned only in the zero-or-one-detection branch, but is read after every final-scan loop | a first cycle with two initial detections whose final scan returns None | the flag cleared to False at the start of every cycle, so the cycle continues | not executed | GoalMission.FirstCycleWithTwoDetectionsAborts | GoalMission.CycleCorrected |
| toukashiken.py:207 | the calibration status print names `acc_cal`, but line 206 binds `accel_cal`, so NameError is raised before any sample is read | the only call, toukashiken.py:667-675, with `calibrate_bno055=True`, once `begin()` succeeds | `accel_cal`, making the function the EM_land.py `check_landing` | not executed | Detectors.ToukashikenNeverLands | Detectors.LandingAlwaysSucceedsOnceStarted |
| toukashiken.py:395 | E/W degrees are read from `coord[1:3]`, dropping the hundreds digit | longitude field `13954.0000` with `E` gives 39.9 | `coord[:3]`, as the other two scripts have it, giving 139.9 | not executed | Gps.LongitudeHundredsLost | Gps.ConvertRoundTrip |
