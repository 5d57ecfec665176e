/** The fragment of Python's string handling the GPS code relies on:
    `str.split(sep)` with a one-character separator, `str.strip()`, the
    `in` substring test, clamped slicing, ASCII decoding with
    `errors="ignore"`, and `int`/`float` on plain decimal text. */
module Text {
  import opened Common

  // ---------------------------------------------------------------------
  // split and join
  // ---------------------------------------------------------------------

  /** `s.split(c)`: the pieces between occurrences of `c`; never empty. */
  function Split(s: string, c: char): (parts: seq<string>)
    ensures |parts| > 0
  {
    if |s| == 0 then [""]
    else if s[0] == c then [""] + Split(s[1..], c)
    else
      var r := Split(s[1..], c);
      [[s[0]] + r[0]] + r[1..]
  }

  /** `c.join(parts)`. */
  function Join(parts: seq<string>, c: char): string
    requires |parts| > 0
  {
    if |parts| == 1 then parts[0] else parts[0] + [c] + Join(parts[1..], c)
  }

  /** No piece contains the separator. */
  lemma {:induction false} SplitPiecesWithout(s: string, c: char)
    ensures forall i :: 0 <= i < |Split(s, c)| ==> c !in Split(s, c)[i]
  {
    if |s| > 0 {
      SplitPiecesWithout(s[1..], c);
      var r := Split(s[1..], c);
      var parts := Split(s, c);
      if s[0] == c {
        assert forall i :: 1 <= i < |parts| ==> parts[i] == r[i - 1];
      } else {
        assert parts[0] == [s[0]] + r[0];
        assert forall i :: 1 <= i < |parts| ==> parts[i] == r[i];
      }
    }
  }

  /** Joining the pieces gives back the text. */
  lemma {:induction false} JoinSplit(s: string, c: char)
    ensures Join(Split(s, c), c) == s
  {
    if |s| > 0 {
      JoinSplit(s[1..], c);
      var r := Split(s[1..], c);
      if s[0] == c {
        assert Split(s, c)[1..] == r;
        assert s == [c] + s[1..];
      } else if |r| == 1 {
        assert s == [s[0]] + s[1..];
      } else {
        var parts := Split(s, c);
        assert parts[1..] == r[1..];
        assert Join(r, c) == r[0] + [c] + Join(r[1..], c);
        assert s == [s[0]] + s[1..];
      }
    }
  }

  lemma {:induction false} SplitWithout(x: string, c: char)
    requires c !in x
    ensures Split(x, c) == [x]
  {
    if |x| > 0 {
      SplitWithout(x[1..], c);
      assert [x[0]] + x[1..] == x;
    }
  }

  lemma {:induction false} SplitAfterPiece(x: string, c: char, y: string)
    requires c !in x
    ensures Split(x + [c] + y, c) == [x] + Split(y, c)
  {
    if |x| == 0 {
      assert x + [c] + y == [c] + y;
      assert ([c] + y)[1..] == y;
    } else {
      SplitAfterPiece(x[1..], c, y);
      assert (x + [c] + y)[1..] == x[1..] + [c] + y;
      assert [x[0]] + x[1..] == x;
    }
  }

  /** Splitting a join of separator-free pieces gives back the pieces, so
      Split and Join are inverse bijections. */
  lemma {:induction false} SplitJoin(parts: seq<string>, c: char)
    requires |parts| > 0
    requires forall i :: 0 <= i < |parts| ==> c !in parts[i]
    ensures Split(Join(parts, c), c) == parts
  {
    if |parts| == 1 {
      SplitWithout(parts[0], c);
    } else {
      SplitJoin(parts[1..], c);
      SplitAfterPiece(parts[0], c, Join(parts[1..], c));
      assert [parts[0]] + parts[1..] == parts;
    }
  }

  // ---------------------------------------------------------------------
  // strip, substring, slicing, decoding
  // ---------------------------------------------------------------------

  /** The ASCII characters `str.isspace` accepts. */
  predicate IsSpace(ch: char) {
    ch == ' ' || 9 <= ch as int <= 13 || 28 <= ch as int <= 31
  }

  /** The index of the first non-whitespace character at or after `k`,
      `|s|` when there is none. */
  function SkipSpace(s: string, k: nat): (n: nat)
    requires k <= |s|
    ensures k <= n <= |s|
    ensures forall i :: k <= i < n ==> IsSpace(s[i])
    ensures n < |s| ==> !IsSpace(s[n])
    decreases |s| - k
  {
    if k < |s| && IsSpace(s[k]) then SkipSpace(s, k + 1) else k
  }

  /** The end of `s[lo..hi]` once its trailing whitespace is removed. */
  function SkipSpaceBack(s: string, lo: nat, hi: nat): (e: nat)
    requires lo <= hi <= |s|
    ensures lo <= e <= hi
    ensures forall i :: e <= i < hi ==> IsSpace(s[i])
    ensures e > lo ==> !IsSpace(s[e - 1])
  {
    if hi > lo && IsSpace(s[hi - 1]) then SkipSpaceBack(s, lo, hi - 1) else hi
  }

  /** The number of leading whitespace characters. */
  function Leading(s: string): nat
  {
    SkipSpace(s, 0)
  }

  function StripLeft(s: string): (r: string)
    ensures |r| <= |s| && r == s[|s| - |r|..]
    ensures |r| > 0 ==> !IsSpace(r[0])
    ensures forall i :: 0 <= i < |s| - |r| ==> IsSpace(s[i])
  {
    s[Leading(s)..]
  }

  function StripRight(s: string): (r: string)
    ensures |r| <= |s| && r == s[..|r|]
    ensures |r| > 0 ==> !IsSpace(r[|r| - 1])
    ensures forall i :: |r| <= i < |s| ==> IsSpace(s[i])
  {
    s[..SkipSpaceBack(s, 0, |s|)]
  }

  /** `s.strip()`: the text between the leading and the trailing
      whitespace. */
  function Strip(s: string): (r: string)
    ensures Leading(s) + |r| <= |s| && r == s[Leading(s)..Leading(s) + |r|]
    ensures forall i :: 0 <= i < Leading(s) ==> IsSpace(s[i])
    ensures forall i :: Leading(s) + |r| <= i < |s| ==> IsSpace(s[i])
    ensures |r| > 0 ==> !IsSpace(r[0]) && !IsSpace(r[|r| - 1])
  {
    var lo := Leading(s);
    s[lo..SkipSpaceBack(s, lo, |s|)]
  }

  /** Scanning back over `s[lo..]` from its end is scanning back over `s`
      down to `lo`. */
  lemma {:induction false} SkipSpaceBackShift(s: string, lo: nat, hi: nat)
    requires lo <= hi <= |s|
    ensures SkipSpaceBack(s[lo..], 0, hi - lo) + lo == SkipSpaceBack(s, lo, hi)
    decreases hi
  {
    if hi > lo {
      assert s[lo..][hi - lo - 1] == s[hi - 1];
      if IsSpace(s[hi - 1]) {
        SkipSpaceBackShift(s, lo, hi - 1);
      }
    }
  }

  /** `strip` is `lstrip` followed by `rstrip`. */
  lemma StripIsLeftThenRight(s: string)
    ensures Strip(s) == StripRight(StripLeft(s))
  {
    var lo := Leading(s);
    SkipSpaceBackShift(s, lo, |s|);
  }

  /** `pat in s`: the empty pattern is in every text, and no pattern is
      in a shorter text. */
  predicate Contains(s: string, pat: string): (b: bool)
    ensures |pat| == 0 ==> b
    ensures b ==> |pat| <= |s|
  {
    |pat| <= |s| && (s[..|pat|] == pat || Contains(s[1..], pat))
  }

  /** Contains holds whenever the pattern occurs at some offset. */
  lemma {:induction false} ContainsAt(s: string, pat: string, i: nat)
    requires i + |pat| <= |s| && s[i..i + |pat|] == pat
    ensures Contains(s, pat)
  {
    if i > 0 && s[..|pat|] != pat {
      assert s[1..][i - 1..i - 1 + |pat|] == s[i..i + |pat|];
      ContainsAt(s[1..], pat, i - 1);
    }
  }

  /** Conversely, Contains holds only when the pattern occurs at some
      offset, and the offset returned is one. */
  lemma {:induction false} ContainsWitness(s: string, pat: string) returns (i: nat)
    requires Contains(s, pat)
    ensures i + |pat| <= |s| && s[i..i + |pat|] == pat
  {
    if s[..|pat|] == pat {
      i := 0;
    } else {
      var j := ContainsWitness(s[1..], pat);
      assert s[1..][j..j + |pat|] == s[j + 1..j + 1 + |pat|];
      i := j + 1;
    }
  }

  /** An occurrence survives appending text. */
  lemma {:induction false} ContainsPrefix(s: string, t: string, pat: string)
    requires Contains(s, pat)
    ensures Contains(s + t, pat)
  {
    if s[..|pat|] != pat {
      assert (s + t)[1..] == s[1..] + t;
      ContainsPrefix(s[1..], t, pat);
    } else {
      assert (s + t)[..|pat|] == s[..|pat|];
    }
  }

  /** A text contains whatever one of its split pieces contains. */
  lemma {:induction false} PieceContains(s: string, c: char, i: nat, pat: string)
    requires i < |Split(s, c)| && Contains(Split(s, c)[i], pat)
    ensures Contains(s, pat)
  {
    var parts := Split(s, c);
    if i == 0 {
      JoinSplit(s, c);
      if |parts| > 1 {
        ContainsPrefix(parts[0], [c] + Join(parts[1..], c), pat);
        assert parts[0] + ([c] + Join(parts[1..], c)) == s;
      }
    } else {
      var r := Split(s[1..], c);
      if s[0] == c {
        assert parts[i] == r[i - 1];
        PieceContains(s[1..], c, i - 1, pat);
      } else {
        assert parts[i] == r[i];
        PieceContains(s[1..], c, i, pat);
      }
    }
  }

  /** `s[lo:hi]` for non-negative bounds: Python clamps them to the
      length instead of failing. */
  function Slice(s: string, lo: nat, hi: nat): (r: string)
    requires lo <= hi
    ensures |r| == (if hi <= |s| then hi else |s|) - (if lo <= |s| then lo else |s|)
    ensures hi <= |s| ==> r == s[lo..hi]
  {
    var h := if hi <= |s| then hi else |s|;
    var l := if lo <= h then lo else h;
    s[l..h]
  }

  /** Every element is a byte value. */
  predicate IsBytes(data: seq<int>) {
    forall i :: 0 <= i < |data| ==> 0 <= data[i] < 256
  }

  /** `data.decode("ascii", errors="ignore")`: bytes above 127 are dropped. */
  function AsciiDecode(data: seq<int>): (s: string)
    requires IsBytes(data)
    ensures |s| <= |data|
    ensures forall i :: 0 <= i < |s| ==> s[i] as int < 128
    ensures (forall i :: 0 <= i < |data| ==> data[i] < 128) ==>
              |s| == |data| && forall i :: 0 <= i < |s| ==> s[i] as int == data[i]
  {
    if |data| == 0 then ""
    else
      var rest := AsciiDecode(data[1..]);
      if data[0] < 128 then [data[0] as char] + rest else rest
  }

  /** A single byte decodes to its character when it is ASCII and to
      nothing otherwise. */
  lemma AsciiDecodeByte(x: int)
    requires 0 <= x < 256
    ensures AsciiDecode([x]) == if x < 128 then [x as char] else ""
  {
    assert [x][1..] == [];
  }

  /** Decoding works byte by byte: the decoding of a concatenation is the
      concatenation of the decodings, so with AsciiDecodeByte the result
      is the data with every byte above 127 removed, in order. */
  lemma {:induction false} AsciiDecodeAppend(a: seq<int>, b: seq<int>)
    requires IsBytes(a) && IsBytes(b)
    ensures AsciiDecode(a + b) == AsciiDecode(a) + AsciiDecode(b)
  {
    if |a| > 0 {
      assert (a + b)[1..] == a[1..] + b;
      AsciiDecodeAppend(a[1..], b);
    } else {
      assert a + b == b;
    }
  }

  // ---------------------------------------------------------------------
  // Decimal numbers
  // ---------------------------------------------------------------------

  predicate IsDigit(ch: char) {
    '0' <= ch <= '9'
  }

  predicate AllDigits(s: string) {
    forall i :: 0 <= i < |s| ==> IsDigit(s[i])
  }

  function Pow10(k: nat): (p: nat)
    ensures p >= 1
  {
    if k == 0 then 1 else 10 * Pow10(k - 1)
  }

  /** The value of a string of decimal digits. */
  function Val(s: string): (v: nat)
    requires AllDigits(s)
    ensures v < Pow10(|s|)
  {
    if |s| == 0 then 0
    else Val(s[..|s| - 1]) * 10 + (s[|s| - 1] as int - '0' as int)
  }

  /** `n` written with exactly `w` digits, zero-padded (the low `w` digits
      when `n` is larger). */
  function DigitsOf(n: nat, w: nat): (s: string)
    ensures |s| == w && AllDigits(s)
  {
    if w == 0 then "" else DigitsOf(n / 10, w - 1) + [('0' as int + n % 10) as char]
  }

  /** Reading back what DigitsOf wrote. */
  lemma {:induction false} ValDigitsOf(n: nat, w: nat)
    requires n < Pow10(w)
    ensures Val(DigitsOf(n, w)) == n
  {
    if w > 0 {
      var s := DigitsOf(n, w);
      assert s[..w - 1] == DigitsOf(n / 10, w - 1);
      ValDigitsOf(n / 10, w - 1);
    }
  }

  lemma AllDigitsAppend(a: string, b: string)
    requires AllDigits(a) && AllDigits(b)
    ensures AllDigits(a + b)
  {
    assert forall i :: 0 <= i < |a + b| ==> (a + b)[i] == if i < |a| then a[i] else b[i - |a|];
  }

  /** Digits read left to right: the value of a concatenation. */
  lemma {:induction false} ValAppend(a: string, b: string)
    requires AllDigits(a) && AllDigits(b)
    ensures AllDigits(a + b)
    ensures Val(a + b) == Val(a) * Pow10(|b|) + Val(b)
  {
    AllDigitsAppend(a, b);
    if |b| > 0 {
      var b' := b[..|b| - 1];
      assert (a + b)[..|a + b| - 1] == a + b';
      AllDigitsAppend(a, b');
      ValAppend(a, b');
      var d := b[|b| - 1] as int - '0' as int;
      assert Val(a + b) == Val(a + b') * 10 + d;
      assert Val(b) == Val(b') * 10 + d;
      Shift(Val(a), Pow10(|b'|), Val(b'), d);
    } else {
      assert a + b == a;
    }
  }

  lemma Shift(x: int, p: int, y: int, d: int)
    ensures (x * p + y) * 10 + d == x * (10 * p) + (y * 10 + d)
  {
  }

  /** `int(s)` on an optional sign followed by digits; None where Python
      raises `ValueError`.  Only a leading `-` gives a negative value. */
  function ParseInt(s: string): (r: Option<int>)
    ensures r.Some? ==> |s| > 0
    ensures r.Some? && r.value < 0 ==> s[0] == '-'
    ensures r.Some? && s[0] == '-' ==> r.value <= 0
  {
    var neg := |s| > 0 && s[0] == '-';
    var body := Unsigned(s);
    if |body| > 0 && AllDigits(body) then Some(if neg then -(Val(body) as int) else Val(body) as int) else None
  }

  /** The text after an optional leading sign. */
  function Unsigned(s: string): (body: string)
    ensures |body| <= |s|
  {
    if |s| > 0 && (s[0] == '-' || s[0] == '+') then s[1..] else s
  }

  /** `x` with the decimal point moved `k` places left. */
  function Shifted(x: real, k: nat): (r: real)
    ensures x >= 0.0 ==> r >= 0.0
  {
    if k == 0 then x else Shifted(x, k - 1) / 10.0
  }

  /** `ip.fp` where `fp` has `k` digits: `ip + fp / 10^k`. */
  function DecimalValue(ip: nat, fp: nat, k: nat): real {
    ip as real + Shifted(fp as real, k)
  }

  lemma {:induction false} ShiftedIsQuotient(x: real, k: nat)
    ensures Shifted(x, k) == x / Pow10(k) as real
  {
    if k > 0 {
      ShiftedIsQuotient(x, k - 1);
      assert Pow10(k) as real == 10.0 * Pow10(k - 1) as real;
    }
  }

  /** The unsigned value of digits with at most one decimal point and a
      digit on at least one side of it. */
  function Magnitude(body: string): (m: Option<real>)
    ensures m.Some? ==> m.value >= 0.0
  {
    var parts := Split(body, '.');
    if |parts| == 1 && |body| > 0 && AllDigits(body) then Some(Val(body) as real)
    else if |parts| == 2 && |parts[0]| + |parts[1]| > 0 && AllDigits(parts[0]) && AllDigits(parts[1]) then
      Some(DecimalValue(Val(parts[0]), Val(parts[1]), |parts[1]|))
    else None
  }

  /** `float(s)` on an optional sign followed by a Magnitude; None where
      Python raises `ValueError`.  Only a leading `-` gives a negative
      value. */
  function ParseReal(s: string): (r: Option<real>)
    ensures r.Some? ==> |s| > 0
    ensures r.Some? && r.value < 0.0 ==> s[0] == '-'
    ensures r.Some? && s[0] == '-' ==> r.value <= 0.0
  {
    var neg := |s| > 0 && s[0] == '-';
    match Magnitude(Unsigned(s))
    case None => None
    case Some(m) => Some(if neg then -m else m)
  }

  /** A digit string reads as its value. */
  lemma ParseIntUnsigned(x: string)
    requires |x| > 0 && AllDigits(x)
    ensures ParseInt(x) == Some(Val(x) as int)
  {
    assert IsDigit(x[0]);
  }

  /** After a leading `+` the digits read the same, and after a leading
      `-` as their negation. */
  lemma ParseIntSigned(s: string)
    requires |s| > 1 && (s[0] == '+' || s[0] == '-') && AllDigits(s[1..])
    ensures s[0] == '+' ==> ParseInt(s) == Some(Val(s[1..]) as int)
    ensures s[0] == '-' ==> ParseInt(s) == Some(-(Val(s[1..]) as int))
  {
  }

  /** The same for `float`: a sign in front of an unsigned magnitude
      keeps or negates it. */
  lemma ParseRealSigned(body: string)
    requires |body| > 0 && body[0] != '-' && body[0] != '+' && Magnitude(body).Some?
    ensures ParseReal(body) == Magnitude(body)
    ensures ParseReal("+" + body) == Magnitude(body)
    ensures ParseReal("-" + body) == Some(-Magnitude(body).value)
  {
    assert ("+" + body)[1..] == body;
    assert ("-" + body)[1..] == body;
  }

  lemma ParseIntDigits(n: nat, w: nat)
    requires 0 < w && n < Pow10(w)
    ensures ParseInt(DigitsOf(n, w)) == Some(n)
  {
    ValDigitsOf(n, w);
  }

  lemma SplitDecimal(x: string, y: string)
    requires AllDigits(x) && AllDigits(y)
    ensures Split(x + "." + y, '.') == [x, y]
  {
    assert '.' !in x && '.' !in y by {
      assert !IsDigit('.');
    }
    SplitAfterPiece(x, '.', y);
    SplitWithout(y, '.');
    assert x + "." + y == x + ['.'] + y;
  }

  /** A digit string, a point and a digit string read as a decimal. */
  lemma MagnitudeDecimal(x: string, y: string)
    requires AllDigits(x) && AllDigits(y) && |x| + |y| > 0
    ensures Unsigned(x + "." + y) == x + "." + y
    ensures Magnitude(x + "." + y) == Some(DecimalValue(Val(x), Val(y), |y|))
  {
    var s := x + "." + y;
    if |x| > 0 {
      assert s[0] == x[0] && IsDigit(x[0]);
    } else {
      assert s[0] == '.';
    }
    SplitDecimal(x, y);
  }

  /** Reading back a decimal written as `DigitsOf(a, w) + "." + DigitsOf(f, k)`. */
  lemma ParseRealDigits(a: nat, w: nat, f: nat, k: nat)
    requires a < Pow10(w) && f < Pow10(k) && w + k > 0
    ensures ParseReal(DigitsOf(a, w) + "." + DigitsOf(f, k)) == Some(DecimalValue(a, f, k))
  {
    MagnitudeDecimal(DigitsOf(a, w), DigitsOf(f, k));
    ValDigitsOf(a, w);
    ValDigitsOf(f, k);
  }
}
