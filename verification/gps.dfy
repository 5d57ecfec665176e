/** NMEA 0183 RMC handling in toukashiken.py, EM_Parachute_Avoidance.py
    and EM_GPS_downlink.py: accepting `$GNRMC` (and, in toukashiken.py,
    `$GPRMC`) sentences whose status field is `A`, converting the
    `ddmm.mmmm` / `dddmm.mmmm` fields 3 to 6 to signed decimal degrees,
    and framing the downlink message for the IM920 radio.  A conversion
    that raises `ValueError` is `None` here. */
module Gps {
  import opened Common
  import opened Text

  // ---------------------------------------------------------------------
  // convert_to_decimal
  // ---------------------------------------------------------------------

  /** Directions whose degrees take two digits (`direction in ['N', 'S']`). */
  predicate LatitudeLike(direction: string) {
    direction == "N" || direction == "S"
  }

  /** Directions that negate the value (`direction in ['S', 'W']`). */
  predicate Negative(direction: string) {
    direction == "S" || direction == "W"
  }

  /** `s[lo:]`. */
  function From(s: string, lo: nat): (r: string)
    ensures lo <= |s| ==> r == s[lo..]
    ensures lo > |s| ==> r == ""
  {
    if lo <= |s| then s[lo..] else ""
  }

  /** `degrees + minutes / 60`, negated for S and W. */
  function Degrees(degrees: int, minutes: real, direction: string): real {
    var v := degrees as real + minutes / 60.0;
    if Negative(direction) then -v else v
  }

  /** The signed value when both fields parse. */
  function Combine(degrees: Option<int>, minutes: Option<real>, direction: string): (r: Option<real>)
    ensures r.Some? <==> degrees.Some? && minutes.Some?
  {
    if degrees.Some? && minutes.Some? then
      Some(Degrees(degrees.value, minutes.value, direction))
    else None
  }

  /** `convert_to_decimal` of EM_Parachute_Avoidance.py and
      EM_GPS_downlink.py: two degree digits for N/S, three otherwise. */
  function ConvertToDecimal(coord: string, direction: string): (r: Option<real>)
    ensures r.Some? ==> |coord| > (if LatitudeLike(direction) then 2 else 3)
  {
    if LatitudeLike(direction) then
      Combine(ParseInt(Slice(coord, 0, 2)), ParseReal(From(coord, 2)), direction)
    else
      Combine(ParseInt(Slice(coord, 0, 3)), ParseReal(From(coord, 3)), direction)
  }

  /** `convert_to_decimal` of toukashiken.py: the E/W degrees are taken
      from `coord[1:3]`, which skips the first of the three digits. */
  function ConvertToDecimalAsWritten(coord: string, direction: string): (r: Option<real>)
    ensures LatitudeLike(direction) ==> r == ConvertToDecimal(coord, direction)
  {
    if LatitudeLike(direction) then
      Combine(ParseInt(Slice(coord, 0, 2)), ParseReal(From(coord, 2)), direction)
    else
      Combine(ParseInt(Slice(coord, 1, 3)), ParseReal(From(coord, 3)), direction)
  }

  /** The field a receiver writes for `deg` degrees and `mm.f` minutes,
      with `k` fractional digits. */
  function CoordField(deg: nat, degWidth: nat, mm: nat, f: nat, k: nat): string
  {
    DigitsOf(deg, degWidth) + DigitsOf(mm, 2) + "." + DigitsOf(f, k)
  }

  /** The value a coordinate field denotes. */
  function Decimal(deg: nat, mm: nat, f: nat, k: nat, direction: string): real
  {
    Degrees(deg, DecimalValue(mm, f, k), direction)
  }

  function DegreeWidth(direction: string): nat {
    if LatitudeLike(direction) then 2 else 3
  }

  lemma FieldParts(deg: nat, w: nat, mm: nat, f: nat, k: nat)
    requires w > 0
    ensures Slice(CoordField(deg, w, mm, f, k), 0, w) == DigitsOf(deg, w)
    ensures From(CoordField(deg, w, mm, f, k), w) == DigitsOf(mm, 2) + "." + DigitsOf(f, k)
  {
    var s := CoordField(deg, w, mm, f, k);
    assert s == DigitsOf(deg, w) + (DigitsOf(mm, 2) + "." + DigitsOf(f, k));
  }

  /** The minutes of a well-formed field read back. */
  lemma FieldMinutes(deg: nat, w: nat, mm: nat, f: nat, k: nat)
    requires w > 0 && mm < 100 && f < Pow10(k)
    ensures ParseReal(From(CoordField(deg, w, mm, f, k), w)) == Some(DecimalValue(mm, f, k))
  {
    FieldParts(deg, w, mm, f, k);
    ParseRealDigits(mm, 2, f, k);
  }

  /** The degrees of a well-formed field read back. */
  lemma FieldDegrees(deg: nat, w: nat, mm: nat, f: nat, k: nat)
    requires w > 0 && deg < Pow10(w)
    ensures ParseInt(Slice(CoordField(deg, w, mm, f, k), 0, w)) == Some(deg)
  {
    FieldParts(deg, w, mm, f, k);
    ParseIntDigits(deg, w);
  }

  /** What `coord[1:3]` reads from a three-digit degree field. */
  lemma FieldDegreesAsWritten(deg: nat, mm: nat, f: nat, k: nat)
    requires deg < 1000
    ensures ParseInt(Slice(CoordField(deg, 3, mm, f, k), 1, 3)) == Some(deg % 100)
  {
    var s := CoordField(deg, 3, mm, f, k);
    assert s == DigitsOf(deg, 3) + (DigitsOf(mm, 2) + "." + DigitsOf(f, k));
    assert Slice(s, 1, 3) == DigitsOf(deg, 3)[1..];
    LowDigits(deg);
    ParseIntDigits(deg % 100, 2);
  }

  /** Reading a well-formed field back: the conversion inverts
      CoordField for every direction. */
  lemma ConvertRoundTrip(deg: nat, mm: nat, f: nat, k: nat, direction: string)
    requires deg < Pow10(DegreeWidth(direction)) && mm < 100 && f < Pow10(k)
    ensures ConvertToDecimal(CoordField(deg, DegreeWidth(direction), mm, f, k), direction)
            == Some(Decimal(deg, mm, f, k, direction))
  {
    var w := DegreeWidth(direction);
    var s := CoordField(deg, w, mm, f, k);
    FieldParses(s, deg, w, mm, f, k);
    ConvertFromParts(s, direction, deg, DecimalValue(mm, f, k));
  }

  /** Both halves of a well-formed field read back. */
  lemma FieldParses(s: string, deg: nat, w: nat, mm: nat, f: nat, k: nat)
    requires s == CoordField(deg, w, mm, f, k)
    requires w > 0 && deg < Pow10(w) && mm < 100 && f < Pow10(k)
    ensures ParseInt(Slice(s, 0, w)) == Some(deg)
    ensures ParseReal(From(s, w)) == Some(DecimalValue(mm, f, k))
  {
    FieldDegrees(deg, w, mm, f, k);
    FieldMinutes(deg, w, mm, f, k);
  }

  /** The conversion in terms of what its two fields parse to. */
  lemma ConvertFromParts(coord: string, direction: string, d: nat, m: real)
    requires ParseInt(Slice(coord, 0, DegreeWidth(direction))) == Some(d)
    requires ParseReal(From(coord, DegreeWidth(direction))) == Some(m)
    ensures ConvertToDecimal(coord, direction) == Some(Degrees(d, m, direction))
  {
  }

  lemma AsWrittenFromParts(coord: string, direction: string, d: int, m: real)
    requires !LatitudeLike(direction)
    requires ParseInt(Slice(coord, 1, 3)) == Some(d)
    requires ParseReal(From(coord, 3)) == Some(m)
    ensures ConvertToDecimalAsWritten(coord, direction) == Some(Degrees(d, m, direction))
  {
  }

  /** The toukashiken.py conversion keeps only the last two of the three
      longitude degree digits. */
  lemma AsWrittenDropsHundreds(deg: nat, mm: nat, f: nat, k: nat, direction: string)
    requires !LatitudeLike(direction)
    requires deg < 1000 && mm < 100 && f < Pow10(k)
    ensures ConvertToDecimalAsWritten(CoordField(deg, 3, mm, f, k), direction)
            == Some(Decimal(deg % 100, mm, f, k, direction))
  {
    var s := CoordField(deg, 3, mm, f, k);
    assert ParseInt(Slice(s, 1, 3)) == Some(deg % 100) by { FieldDegreesAsWritten(deg, mm, f, k); }
    assert ParseReal(From(s, 3)) == Some(DecimalValue(mm, f, k)) by { FieldMinutes(deg, 3, mm, f, k); }
    AsWrittenFromParts(CoordField(deg, 3, mm, f, k), direction, deg % 100, DecimalValue(mm, f, k));
  }

  /** The last two of three digits are the digits of `deg % 100`. */
  lemma LowDigits(deg: nat)
    ensures DigitsOf(deg, 3)[1..] == DigitsOf(deg % 100, 2)
  {
    var low := deg % 100;
    DigitSplit(deg);
    assert DigitsOf(deg, 3) == DigitsOf(deg / 10, 2) + [('0' as int + deg % 10) as char];
    assert DigitsOf(deg / 10, 2) == DigitsOf(deg / 100, 1) + [('0' as int + (deg / 10) % 10) as char];
    assert DigitsOf(low, 2) == DigitsOf(low / 10, 1) + [('0' as int + low % 10) as char];
    assert DigitsOf(low / 10, 1) == [('0' as int + (low / 10) % 10) as char];
  }

  lemma DigitSplit(deg: nat)
    ensures (deg / 10) / 10 == deg / 100
    ensures (deg % 100) / 10 % 10 == (deg / 10) % 10
    ensures (deg % 100) % 10 == deg % 10
  {
    var q, b, c := deg / 100, (deg / 10) % 10, deg % 10;
    assert deg == 100 * q + 10 * b + c;
  }

  /** The concrete longitude 139 deg 54 min E is read as 39.9 instead of
      139.9. */
  lemma LongitudeHundredsLost()
    ensures ConvertToDecimalAsWritten("13954.0000", "E") == Some(39.9)
    ensures ConvertToDecimal("13954.0000", "E") == Some(139.9)
  {
    assert CoordField(139, 3, 54, 0, 4) == "13954.0000" by {
      assert DigitsOf(139, 3) == "139";
      assert DigitsOf(54, 2) == "54";
      assert DigitsOf(0, 4) == "0000";
    }
    assert Shifted(0.0, 4) == 0.0;
    assert Decimal(139 % 100, 54, 0, 4, "E") == 39.9;
    assert Decimal(139, 54, 0, 4, "E") == 139.9;
    AsWrittenDropsHundreds(139, 54, 0, 4, "E");
    ConvertRoundTrip(139, 54, 0, 4, "E");
  }

  // ---------------------------------------------------------------------
  // RMC acceptance and get_current_location
  // ---------------------------------------------------------------------

  const GNRMC: string := "$GNRMC"
  const GPRMC: string := "$GPRMC"

  /** Which `convert_to_decimal` a script uses. */
  datatype Converter = AsWritten | Corrected

  function Convert(conv: Converter, coord: string, direction: string): Option<real> {
    match conv
    case AsWritten => ConvertToDecimalAsWritten(coord, direction)
    case Corrected => ConvertToDecimal(coord, direction)
  }

  /** `line.strip().split(",")` when it has more than six fields and the
      status field reads `A`. */
  function RmcFields(line: string): (parts: Option<seq<string>>)
    ensures parts.Some? ==> |parts.value| > 6 && parts.value[2] == "A"
    ensures parts.Some? ==> Join(parts.value, ',') == Strip(line)
  {
    var parts := Split(Strip(line), ',');
    JoinSplit(Strip(line), ',');
    if |parts| > 6 && parts[2] == "A" then Some(parts) else None
  }

  /** The tag test: `"$GNRMC" in line`, or in toukashiken.py also
      `"$GPRMC" in line`. */
  predicate Tagged(line: string, acceptGprmc: bool) {
    Contains(line, GNRMC) || (acceptGprmc && Contains(line, GPRMC))
  }

  /** A line the reader acts on: it carries one of the accepted tags and
      its fields pass the RMC test. */
  predicate Accepted(line: string, acceptGprmc: bool) {
    Tagged(line, acceptGprmc) && RmcFields(line).Some?
  }

  datatype ChunkResult = Fix(lat: real, lon: real) | NoFix | Malformed

  /** Latitude from fields 3/4 and longitude from fields 5/6; a field that
      does not convert raises, which abandons the chunk. */
  function FixOf(conv: Converter, parts: seq<string>): (r: ChunkResult)
    requires |parts| > 6
    ensures r != NoFix
    ensures r.Fix? <==> Convert(conv, parts[3], parts[4]).Some? && Convert(conv, parts[5], parts[6]).Some?
    ensures r.Fix? ==> r.lat == Convert(conv, parts[3], parts[4]).value
                       && r.lon == Convert(conv, parts[5], parts[6]).value
  {
    var lat := Convert(conv, parts[3], parts[4]);
    var lon := Convert(conv, parts[5], parts[6]);
    if lat.Some? && lon.Some? then Fix(lat.value, lon.value) else Malformed
  }

  /** The position of the first accepted line, `|lines|` when none is. */
  function FirstAccepted(lines: seq<string>, acceptGprmc: bool): (k: nat)
    ensures k <= |lines|
    ensures k < |lines| ==> Accepted(lines[k], acceptGprmc)
    ensures forall j :: 0 <= j < k ==> !Accepted(lines[j], acceptGprmc)
  {
    if |lines| == 0 then 0
    else if Accepted(lines[0], acceptGprmc) then 0
    else
      var k := FirstAccepted(lines[1..], acceptGprmc);
      assert forall j :: 1 <= j < |lines| ==> lines[j] == lines[1..][j - 1];
      k + 1
  }

  /** The scan over the lines of one decoded chunk: the first accepted
      line decides, with a fix or with the error that ends the chunk; a
      chunk without accepted lines has no fix. */
  function FirstFix(lines: seq<string>, acceptGprmc: bool, conv: Converter): (r: ChunkResult)
    ensures r == NoFix <==> forall j :: 0 <= j < |lines| ==> !Accepted(lines[j], acceptGprmc)
    ensures r != NoFix ==> exists k :: 0 <= k < |lines| && Accepted(lines[k], acceptGprmc)
                                     && (forall j :: 0 <= j < k ==> !Accepted(lines[j], acceptGprmc))
                                     && r == FixOf(conv, RmcFields(lines[k]).value)
  {
    var k := FirstAccepted(lines, acceptGprmc);
    if k == |lines| then NoFix else FixOf(conv, RmcFields(lines[k]).value)
  }

  /** Whatever line is the first accepted one decides the chunk. */
  lemma FirstFixDecidedByFirstAccepted(lines: seq<string>, acceptGprmc: bool, conv: Converter, k: nat)
    requires k < |lines| && Accepted(lines[k], acceptGprmc)
    requires forall j :: 0 <= j < k ==> !Accepted(lines[j], acceptGprmc)
    ensures FirstFix(lines, acceptGprmc, conv) == FixOf(conv, RmcFields(lines[k]).value)
  {
  }

  /** The lines of one serial chunk: `data.decode("ascii", errors="ignore")`
      split at newlines. */
  function ChunkLines(data: seq<int>): seq<string>
    requires IsBytes(data)
  {
    Split(AsciiDecode(data), '\n')
  }

  /** One serial chunk as toukashiken.py reads it: decoded, split into
      lines, `$GPRMC` or `$GNRMC` lines accepted, with its own
      conversion. */
  function ToukashikenChunk(data: seq<int>): (r: ChunkResult)
    requires IsBytes(data)
    ensures r == NoFix <==> forall j :: 0 <= j < |ChunkLines(data)| ==> !Accepted(ChunkLines(data)[j], true)
    ensures r != NoFix ==> exists k :: 0 <= k < |ChunkLines(data)| && Accepted(ChunkLines(data)[k], true)
                                     && (forall j :: 0 <= j < k ==> !Accepted(ChunkLines(data)[j], true))
                                     && r == FixOf(AsWritten, RmcFields(ChunkLines(data)[k]).value)
  {
    FirstFix(ChunkLines(data), true, AsWritten)
  }

  /** A text without the `$GNRMC` tag has no line that carries it, so the
      chunk-level `"$GNRMC" in text` test never changes the outcome. */
  lemma ParachutePrecheckRedundant(text: string)
    ensures !Contains(text, GNRMC) ==>
              forall i :: 0 <= i < |Split(text, '\n')| ==> !Accepted(Split(text, '\n')[i], false)
  {
    var lines := Split(text, '\n');
    if !Contains(text, GNRMC) {
      forall i | 0 <= i < |lines| ensures !Accepted(lines[i], false) {
        if Contains(lines[i], GNRMC) {
          PieceContains(text, '\n', i, GNRMC);
        }
      }
    }
  }

  /** One serial chunk as EM_Parachute_Avoidance.py reads it: only
      `$GNRMC` lines, and only when the chunk mentions `$GNRMC` at all --
      which gives the same result as scanning the lines without that
      test. */
  function ParachuteChunk(data: seq<int>): (r: ChunkResult)
    requires IsBytes(data)
    ensures r == FirstFix(ChunkLines(data), false, Corrected)
  {
    var text := AsciiDecode(data);
    ParachutePrecheckRedundant(text);
    if Contains(text, GNRMC) then FirstFix(Split(text, '\n'), false, Corrected) else NoFix
  }

  /** `get_current_location`: successive serial chunks until one yields a
      fix; running out of chunks is the timeout (None). */
  function Location(chunks: seq<ChunkResult>): (r: Option<(real, real)>)
    ensures r.Some? <==> exists i :: 0 <= i < |chunks| && chunks[i].Fix?
    ensures r.Some? ==> exists i :: 0 <= i < |chunks| && chunks[i] == Fix(r.value.0, r.value.1)
                                   && forall j :: 0 <= j < i ==> !chunks[j].Fix?
  {
    if |chunks| == 0 then None
    else if chunks[0].Fix? then Some((chunks[0].lat, chunks[0].lon))
    else
      var r := Location(chunks[1..]);
      assert forall i :: 1 <= i < |chunks| ==> chunks[i] == chunks[1..][i - 1];
      r
  }

  // ---------------------------------------------------------------------
  // EM_GPS_downlink.py framing
  // ---------------------------------------------------------------------

  /** The IM920 transmit command to node 0003. */
  const TxPrefix: string := "TXDA 0003,"

  function FrameMessage(payload: string): string {
    TxPrefix + payload + "\r"
  }

  /** What the receiving side reads out of a framed message. */
  function Unframe(msg: string): Option<string> {
    if |msg| > |TxPrefix| && msg[..|TxPrefix|] == TxPrefix && msg[|msg| - 1] == '\r' then
      Some(msg[|TxPrefix|..|msg| - 1])
    else None
  }

  /** Framing is invertible in both directions. */
  lemma FrameRoundTrip(payload: string, msg: string)
    ensures Unframe(FrameMessage(payload)) == Some(payload)
    ensures Unframe(msg) == Some(payload) ==> FrameMessage(payload) == msg
  {
    var m := FrameMessage(payload);
    assert m[..|TxPrefix|] == TxPrefix;
    assert m[|TxPrefix|..|m| - 1] == payload;
    if Unframe(msg) == Some(payload) {
      assert msg == msg[..|TxPrefix|] + msg[|TxPrefix|..|msg| - 1] + [msg[|msg| - 1]];
    }
  }

  /** `f'{lat, lon}'`: the tuple text; the float formatting is `show`. */
  function Payload(lat: real, lon: real, show: real -> string): string {
    "(" + show(lat) + ", " + show(lon) + ")"
  }

  /** The messages sent for one chunk: one per accepted `$GNRMC` line, in
      order, until a line whose fields do not convert raises and abandons
      the rest of the chunk. */
  function DownlinkMessages(lines: seq<string>, show: real -> string): (msgs: seq<string>)
    ensures |msgs| <= |lines|
    ensures forall i :: 0 <= i < |msgs| ==> Unframe(msgs[i]).Some?
    ensures (forall i :: 0 <= i < |lines| ==> !Accepted(lines[i], false)) ==> msgs == []
    decreases |lines|
  {
    var k := FirstAccepted(lines, false);
    if k == |lines| then []
    else
      match FixOf(Corrected, RmcFields(lines[k]).value)
      case Fix(lat, lon) =>
        var m := FrameMessage(Payload(lat, lon, show));
        FrameRoundTrip(Payload(lat, lon, show), m);
        var rest := DownlinkMessages(lines[k + 1..], show);
        FramedCons(m, rest);
        [m] + rest
      case _ => []
  }

  lemma FramedCons(m: string, rest: seq<string>)
    requires Unframe(m).Some?
    requires forall i :: 0 <= i < |rest| ==> Unframe(rest[i]).Some?
    ensures forall i :: 0 <= i < |[m] + rest| ==> Unframe(([m] + rest)[i]).Some?
  {
    assert forall i :: 1 <= i < |[m] + rest| ==> ([m] + rest)[i] == rest[i - 1];
  }

  /** The first message of a chunk carries the fix the location reader
      would take from the same lines, and there is one exactly when that
      reader finds a fix. */
  lemma DownlinkStartsWithFirstFix(lines: seq<string>, show: real -> string)
    ensures var msgs := DownlinkMessages(lines, show);
            var f := FirstFix(lines, false, Corrected);
            && (msgs != [] <==> f.Fix?)
            && (f.Fix? ==> msgs[0] == FrameMessage(Payload(f.lat, f.lon, show)))
  {
  }

  /** The messages sent for one serial chunk: decoded, tested for `$GNRMC`
      as a whole, then scanned line by line.  The whole-chunk test never
      changes what is sent. */
  function DownlinkChunk(data: seq<int>, show: real -> string): (msgs: seq<string>)
    requires IsBytes(data)
    ensures msgs == DownlinkMessages(ChunkLines(data), show)
  {
    var text := AsciiDecode(data);
    ParachutePrecheckRedundant(text);
    if Contains(text, GNRMC) then DownlinkMessages(Split(text, '\n'), show) else []
  }

  /** The accepted `$GNRMC` lines of a chunk, in order. */
  function AcceptedLines(lines: seq<string>): (a: seq<string>)
    ensures |a| <= |lines|
  {
    if |lines| == 0 then []
    else if Accepted(lines[0], false) then [lines[0]] + AcceptedLines(lines[1..])
    else AcceptedLines(lines[1..])
  }

  /** What one line yields when it is converted. */
  function LineFix(line: string): ChunkResult {
    if RmcFields(line).Some? then FixOf(Corrected, RmcFields(line).value) else NoFix
  }

  /** `msgs` frames the fixes of the first `|msgs|` accepted lines, in
      order, and if any accepted line is left it is one that does not
      convert. */
  ghost predicate SendsInOrder(accepted: seq<string>, msgs: seq<string>, show: real -> string) {
    && |msgs| <= |accepted|
    && (forall i :: 0 <= i < |msgs| ==>
          LineFix(accepted[i]).Fix? &&
          msgs[i] == FrameMessage(Payload(LineFix(accepted[i]).lat, LineFix(accepted[i]).lon, show)))
    && (|msgs| < |accepted| ==> LineFix(accepted[|msgs|]) == Malformed)
  }

  /** The downlink sends one message per accepted line, in order, carrying
      that line's fix, until the first accepted line that does not convert
      ends the chunk. */
  lemma {:induction false} DownlinkSendsAcceptedFixesInOrder(lines: seq<string>, show: real -> string)
    ensures SendsInOrder(AcceptedLines(lines), DownlinkMessages(lines, show), show)
    decreases |lines|
  {
    var k := FirstAccepted(lines, false);
    AcceptedLinesSkip(lines, k);
    if k < |lines| {
      assert lines[k..][1..] == lines[k + 1..];
      assert AcceptedLines(lines) == [lines[k]] + AcceptedLines(lines[k + 1..]);
      var f := FixOf(Corrected, RmcFields(lines[k]).value);
      assert LineFix(lines[k]) == f;
      if f.Fix? {
        DownlinkSendsAcceptedFixesInOrder(lines[k + 1..], show);
        SendsCons(lines[k], AcceptedLines(lines[k + 1..]), DownlinkMessages(lines[k + 1..], show), show);
      }
    }
  }

  /** Lines before the first accepted one contribute nothing. */
  lemma {:induction false} AcceptedLinesSkip(lines: seq<string>, k: nat)
    requires k <= |lines|
    requires forall j :: 0 <= j < k ==> !Accepted(lines[j], false)
    ensures AcceptedLines(lines) == AcceptedLines(lines[k..])
  {
    if k > 0 {
      assert lines[1..][k - 1..] == lines[k..];
      AcceptedLinesSkip(lines[1..], k - 1);
    }
  }

  lemma SendsCons(line: string, accepted: seq<string>, msgs: seq<string>, show: real -> string)
    requires SendsInOrder(accepted, msgs, show) && LineFix(line).Fix?
    ensures SendsInOrder([line] + accepted,
                         [FrameMessage(Payload(LineFix(line).lat, LineFix(line).lon, show))] + msgs, show)
  {
    var a := [line] + accepted;
    var m := [FrameMessage(Payload(LineFix(line).lat, LineFix(line).lon, show))] + msgs;
    forall i | 0 <= i < |m|
      ensures LineFix(a[i]).Fix? && m[i] == FrameMessage(Payload(LineFix(a[i]).lat, LineFix(a[i]).lon, show))
    {
      if i > 0 {
        assert m[i] == msgs[i - 1] && a[i] == accepted[i - 1];
      }
    }
    if |m| < |a| {
      assert a[|m|] == accepted[|msgs|];
    }
  }
}
