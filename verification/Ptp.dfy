/** lib-gd32/include/gd32_ptp.h: times of the precision clock, in nanoseconds and in units of 2^-31 seconds. */
module Ptp {
  import opened Words

  const BILLION := 1_000_000_000
  const HALF_WORD := 0x8000_0000

  // ---------------------------------------------------------------- subseconds

  /** The cast drops the bits above 2^32. */
  function Nanosecond2Subsecond(n: u32): u32 {
    Wrap(n * HALF_WORD / BILLION)
  }

  function Subsecond2Nanosecond(s: u32): u32 {
    s * BILLION / HALF_WORD
  }

  /** A subsecond is 1/2^31 of a second: both conversions give the whole units in the time given. */
  lemma WholeUnits(n: u32, s: u32)
    ensures var c := Nanosecond2Subsecond(n);
            n < 2 * BILLION ==> c * BILLION <= n * HALF_WORD < (c + 1) * BILLION
    ensures var c := Subsecond2Nanosecond(s); c * HALF_WORD <= s * BILLION < (c + 1) * HALF_WORD
  {
    if n < 2 * BILLION { WrapsToItself(n * HALF_WORD / BILLION); }
  }

  /** Nanoseconds survive the way there and back up to one, if and only if they are below two seconds. */
  lemma NanosecondsThereAndBack(n: u32)
    ensures var m := Subsecond2Nanosecond(Nanosecond2Subsecond(n));
            n - 1 <= m <= n <==> n < 2 * BILLION
  {
    var s := n * HALF_WORD / BILLION;
    if n >= 2 * BILLION {
      assert Nanosecond2Subsecond(n) == s - WORD || Nanosecond2Subsecond(n) == s - 2 * WORD;
    }
  }

  /** Every subsecond count loses at most three. */
  lemma SubsecondsThereAndBack(s: u32)
    ensures s - 3 <= Nanosecond2Subsecond(Subsecond2Nanosecond(s)) <= s
  {
  }

  /** The bounds are attained. */
  lemma LossesAttained()
    ensures Subsecond2Nanosecond(Nanosecond2Subsecond(1)) == 0
    ensures exists s: u32 :: Nanosecond2Subsecond(Subsecond2Nanosecond(s)) == s - 3
  {
    assert Nanosecond2Subsecond(Subsecond2Nanosecond(15)) == 12;
  }

  lemma SubsecondsMonotone(a: u32, b: u32)
    requires a <= b
    ensures Subsecond2Nanosecond(a) <= Subsecond2Nanosecond(b)
    ensures b < 2 * BILLION ==> Nanosecond2Subsecond(a) <= Nanosecond2Subsecond(b)
  {
  }

  // ---------------------------------------------------------------- seconds and nanoseconds

  type int32 = x: int | -0x8000_0000 <= x < 0x8000_0000

  predicate IsInt32(x: int) {
    -0x8000_0000 <= x < 0x8000_0000
  }

  class Time {
    var sec: int32
    var nsec: int32

    constructor (sec: int32, nsec: int32)
      ensures this.sec == sec && this.nsec == nsec
    {
      this.sec, this.nsec := sec, nsec;
    }

    ghost function Total(): int
      reads this
    {
      Nanoseconds(sec, nsec)
    }
  }

  function Nanoseconds(sec: int, nsec: int): int {
    sec * BILLION + nsec
  }

  /** Less than a second of nanoseconds, and no opposite signs. */
  predicate Normal(sec: int, nsec: int) {
    -BILLION < nsec < BILLION && !(sec > 0 && nsec < 0) && !(sec < 0 && nsec > 0)
  }

  method NormalizeTime(r: Time)
    requires IsInt32(r.sec + Quot(r.nsec, BILLION))
    modifies r
    ensures Normal(r.sec, r.nsec) && r.Total() == old(r.Total())
  {
    var q := Quot(r.nsec, BILLION);
    r.sec := r.sec + q;
    r.nsec := r.nsec - q * BILLION;
    if r.sec > 0 && r.nsec < 0 {
      r.sec := r.sec - 1;
      r.nsec := r.nsec + BILLION;
    } else if r.sec < 0 && r.nsec > 0 {
      r.sec := r.sec + 1;
      r.nsec := r.nsec - BILLION;
    }
  }

  /** No sum that `SubTime` forms leaves 32 bits. */
  predicate DifferenceFits(xs: int, xn: int, ys: int, yn: int) {
    IsInt32(xs - ys) && IsInt32(xn - yn) && IsInt32(xs - ys + Quot(xn - yn, BILLION))
  }

  /** `r` may be one of the operands. */
  method SubTime(r: Time, x: Time, y: Time)
    requires DifferenceFits(x.sec, x.nsec, y.sec, y.nsec)
    modifies r
    ensures Normal(r.sec, r.nsec) && r.Total() == old(x.Total() - y.Total())
  {
    r.sec := x.sec - y.sec;
    r.nsec := x.nsec - y.nsec;
    NormalizeTime(r);
  }

  /** The normal form of an amount is unique. */
  lemma NormalUnique(s: int, n: int, s': int, n': int)
    requires Normal(s, n) && Normal(s', n')
    ensures Nanoseconds(s, n) == Nanoseconds(s', n') <==> s == s' && n == n'
    ensures Nanoseconds(s, n) == -Nanoseconds(s', n') <==> s == -s' && n == -n'
    ensures Nanoseconds(s, n) <= Nanoseconds(s', n') <==> s < s' || (s == s' && n <= n')
  {
  }

  /** Exchanging the operands negates the difference, component by component. */
  method SubTimeBothWays(x: Time, y: Time) returns (r: Time, r': Time)
    requires DifferenceFits(x.sec, x.nsec, y.sec, y.nsec) && DifferenceFits(y.sec, y.nsec, x.sec, x.nsec)
    ensures r.sec + r'.sec == 0 && r.nsec + r'.nsec == 0
    ensures r.sec == 0 && r.nsec == 0 <==> x.Total() == y.Total()
  {
    r := new Time(0, 0);
    r' := new Time(0, 0);
    SubTime(r, x, y);
    SubTime(r', y, x);
    NormalUnique(r.sec, r.nsec, r'.sec, r'.nsec);
  }
}
