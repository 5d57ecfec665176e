/** Degree arithmetic shared by the turn controllers, the goal detector and
    the heading-difference steering.  Python's float `%` with a positive
    divisor is floor based, so `x % 360` is modelled by `Mod360`. */
module AngleMath {

  /** `k` whole turns, in degrees. */
  function Turns(k: int): real {
    360.0 * (k as real)
  }

  /** `a` and `b` denote the same direction. */
  ghost predicate SameDirection(a: real, b: real) {
    exists k: int :: a - b == Turns(k)
  }

  /** Python `x % 360` for a float `x`. */
  function Mod360(x: real): (r: real)
    ensures 0.0 <= r < 360.0
    ensures SameDirection(r, x)
  {
    var k := (x / 360.0).Floor;
    assert (x - Turns(k)) - x == Turns(-k);
    x - Turns(k)
  }

  /** `Mod360` is the only representative of a direction in [0, 360). */
  lemma Mod360Unique(x: real, y: real)
    requires 0.0 <= y < 360.0
    requires SameDirection(y, x)
    ensures y == Mod360(x)
  {
    var r := Mod360(x);
    var k1: int :| y - x == Turns(k1);
    var k2: int :| r - x == Turns(k2);
    assert y - r == Turns(k1 - k2);
  }

  /** The absolute target of a relative turn, `(initial + offset + 360) % 360`. */
  function TargetHeading(initial: real, offset: real): (r: real)
    ensures 0.0 <= r < 360.0
    ensures SameDirection(r, initial + offset)
  {
    var m := Mod360(initial + offset + 360.0);
    assert (initial + offset + 360.0) - (initial + offset) == Turns(1);
    SameDirectionTrans(m, initial + offset + 360.0, initial + offset);
    m
  }

  lemma SameDirectionTrans(a: real, b: real, c: real)
    requires SameDirection(a, b) && SameDirection(b, c)
    ensures SameDirection(a, c)
  {
    var k1: int :| a - b == Turns(k1);
    var k2: int :| b - c == Turns(k2);
    assert a - c == Turns(k1 + k2);
  }

  /** The signed heading error `(t - c + 180 + 360) % 360 - 180` used by every
      turn loop: the rotation from `current` to `target`, in [-180, 180). */
  function SignedError(target: real, current: real): (e: real)
    ensures -180.0 <= e < 180.0
    ensures SameDirection(e, target - current)
  {
    var m := Mod360(target - current + 180.0 + 360.0);
    assert (m - 180.0) - (target - current) == m - (target - current + 180.0 + 360.0) + Turns(1);
    var k: int :| m - (target - current + 180.0 + 360.0) == Turns(k);
    assert (m - 180.0) - (target - current) == Turns(k + 1);
    m - 180.0
  }

  /** The error is the unique representative of `target - current` in
      [-180, 180): any other such value equals it. */
  lemma {:induction false} SignedErrorUnique(target: real, current: real, e: real)
    requires -180.0 <= e < 180.0
    requires SameDirection(e, target - current)
    ensures e == SignedError(target, current)
  {
    var x := target - current + 180.0 + 360.0;
    var k: int :| e - (target - current) == Turns(k);
    assert (e + 180.0) - x == Turns(k - 1);
    Mod360Unique(x, e + 180.0);
  }

  /** An exact half turn in either direction yields -180 (so a turn loop
      pivots left), never +180. */
  lemma SignedErrorHalfTurn(target: real, current: real)
    requires target - current == 180.0 || target - current == -180.0
    ensures SignedError(target, current) == -180.0
  {
    if target - current == 180.0 {
      assert -180.0 - (target - current) == Turns(-1);
    } else {
      assert -180.0 - (target - current) == Turns(0);
    }
    SignedErrorUnique(target, current, -180.0);
  }

  /** Swapping target and current negates the error, except at the
      half-turn boundary where both directions give -180. */
  lemma SignedErrorAntisymmetric(target: real, current: real)
    requires SignedError(target, current) != -180.0
    ensures SignedError(current, target) == -SignedError(target, current)
  {
    var e := SignedError(target, current);
    var k: int :| e - (target - current) == Turns(k);
    assert -e - (current - target) == Turns(-k);
    SignedErrorUnique(current, target, -e);
  }

  /** A heading already within [0, 360) needs no turn to reach itself. */
  lemma SignedErrorZero(h: real)
    ensures SignedError(h, h) == 0.0
  {
    assert 0.0 - (h - h) == Turns(0);
    SignedErrorUnique(h, h, 0.0);
  }
}
