/** lib-device/include/ema.h: an exponential moving average in 16-bit unsigned arithmetic. */
module Ema {
  import opened Words

  /** What a 16-bit shift by at most 15 can divide by. */
  predicate IsWeight(p: int) {
    0 < p <= HALFWORD / 2 && HALFWORD % p == 0 && (p == 1 || p % 2 == 0)
  }

  lemma WeightTable(k: nat)
    requires k < 16
    ensures IsWeight(Power2(k))
  {
    var q := Cofactor(k);
    Divides(Power2(k), q);
    if k > 0 { Even(Power2(k - 1)); }
  }

  lemma {:induction false} Cofactor(k: nat) returns (q: nat)
    requires k < 16
    ensures Power2(k) * q == HALFWORD && q >= 2
    decreases 16 - k
  {
    if k == 15 {
      assert Power2(7) == 128;
      assert Power2(15) == 256 * Power2(7);
      q := 2;
    } else {
      var r := Cofactor(k + 1);
      q := 2 * r;
      Regroup(Power2(k), 2, r);
    }
  }

  lemma Divides(p: nat, q: nat)
    requires p > 0 && q >= 2 && p * q == HALFWORD
    ensures p <= HALFWORD / 2 && HALFWORD % p == 0
  {
    Times(p, 2, q);
    ModShift(p, q, 0);
  }

  lemma Even(n: int)
    ensures 2 * n % 2 == 0
  {
  }

  // ---------------------------------------------------------------- one step

  /** The shift, after adding half a unit: the nearest integer to t / p. */
  function Rounded(p: int, t: int): int
    requires p > 0
  {
    (t + p / 2) / p
  }

  function Output(p: int, s: u16, x: u16): (r: u16)
    requires IsWeight(p)
  {
    RoundedBounds(p, Wrap16(s + x));
    Rounded(p, Wrap16(s + x))
  }

  function Next(p: int, s: u16, x: u16): u16
    requires IsWeight(p)
  {
    Wrap16(Wrap16(s + x) - Output(p, s, x))
  }

  function Start(p: int, v: u16): u16 {
    Wrap16(Wrap16(v * p) - v)
  }

  class Filter {
    const k: nat
    var state: u16

    constructor (k: nat, initial: u16)
      requires k < 16
      ensures this.k == k && state == Start(Power2(k), initial)
      ensures initial * Power2(k) < HALFWORD ==> Between(Power2(k), state, initial, initial)
    {
      this.k := k;
      state := Wrap16(Wrap16(initial * Power2(k)) - initial);
      if initial * Power2(k) < HALFWORD { StandsFor(Power2(k), initial); }
    }

    method Reset(value: u16)
      requires k < 16
      modifies this
      ensures state == Start(Power2(k), value)
      ensures value * Power2(k) < HALFWORD ==> Between(Power2(k), state, value, value)
    {
      state := Wrap16(Wrap16(value * Power2(k)) - value);
      if value * Power2(k) < HALFWORD { StandsFor(Power2(k), value); }
    }

    /** `kHalf` */
    function Half(): (h: nat)
      ensures h == Power2(k) / 2
    {
      if k > 0 then Power2(k - 1) else 0
    }

    /** `lo` and `hi` bound the inputs so far, and what the filter was started at: they bound the output, too. */
    method Filter(input: u16, ghost lo: int, ghost hi: int) returns (output: u16)
      requires k < 16
      modifies this
      ensures IsWeight(Power2(k))
      ensures output == Output(Power2(k), old(state), input) && state == Next(Power2(k), old(state), input)
      ensures 0 <= lo <= input <= hi && hi * Power2(k) < HALFWORD && Between(Power2(k), old(state), lo, hi) ==>
                lo <= output <= hi && Between(Power2(k), state, lo, hi)
    {
      WeightTable(k);
      if Range(Power2(k), lo, hi) && lo <= input <= hi && Between(Power2(k), state, lo, hi) {
        StepBounds(Power2(k), state, input, lo, hi);
      }
      state := Wrap16(state + input);
      RoundedBounds(Power2(k), state);
      output := (state + Half()) / Power2(k);
      state := Wrap16(state - output);
    }
  }

  // ---------------------------------------------------------------- arithmetic

  lemma RoundedShift(p: int, x: int, e: int)
    requires p > 0
    ensures Rounded(p, p * x + e) == x + Rounded(p, e)
  {
    DivShift(p, x, e + p / 2);
    assert p * x + e + p / 2 == p * x + (e + p / 2);
  }

  /** A rounded p-th part of a number lies between zero and the number. */
  lemma RoundedBounds(p: int, e: int)
    requires p == 1 || (p > 0 && p % 2 == 0)
    ensures e >= 0 ==> 0 <= Rounded(p, e) <= e
    ensures e <= 0 ==> e <= Rounded(p, e) <= 0
    ensures Rounded(p, e) == 0 <==> -p <= 2 * e && (if p == 1 then e == 0 else 2 * e < p)
  {
    var h := p / 2;
    if p > 1 {
      if -h <= e < h {
        DivUnique(e + h, p, 0, e + h);
      } else if e >= h {
        QuotientAtMost(e + h, p, e);
        if (e + h) / p < 1 { Times(p, (e + h) / p, 0); }
      } else {
        RoundedNegative(p, e);
      }
    }
  }

  lemma RoundedNegative(p: int, e: int)
    requires p > 1 && p % 2 == 0 && 2 * e < -p
    ensures e <= Rounded(p, e) < 0
  {
    Times(-e, 1, p);
    QuotientAtLeast(e + p / 2, p, e);
  }

  lemma QuotientAtLeast(t: int, p: nat, q: int)
    requires p > 0 && p * q <= t
    ensures t / p >= q
  {
    if t / p < q { Times(p, t / p + 1, q); }
  }

  // ---------------------------------------------------------------- bounds

  predicate Range(p: int, lo: int, hi: int) {
    IsWeight(p) && 0 <= lo <= hi && hi * p < HALFWORD
  }

  /** The states between those that stand for the constant inputs `lo` and `hi`. */
  predicate Between(p: int, s: int, lo: int, hi: int) {
    (p - 1) * lo <= s <= (p - 1) * hi
  }

  /** The sum, less what it is in a filter settled at `x`. */
  function Error(p: int, s: int, x: int): int {
    s + x - p * x
  }

  /** Where the sum does not wrap, the output is off by the rounded part of the error, which the state then loses. */
  lemma Step(p: int, s: u16, x: u16, y: int)
    requires IsWeight(p) && s + x < HALFWORD
    ensures Output(p, s, x) == y + Rounded(p, s + x - p * y)
    ensures Next(p, s, x) == s + x - Output(p, s, x)
  {
    NotWrapped(p, s, x);
    RoundedAbout(p, y, s + x);
  }

  lemma NotWrapped(p: int, s: u16, x: u16)
    requires IsWeight(p) && s + x < HALFWORD
    ensures Output(p, s, x) == Rounded(p, s + x) && Next(p, s, x) == s + x - Output(p, s, x)
  {
    var t := s + x;
    assert Wrap16(t) == t;
    RoundedBounds(p, t);
  }

  lemma RoundedAbout(p: int, y: int, t: int)
    requires p > 0
    ensures Rounded(p, t) == y + Rounded(p, t - p * y)
  {
    var e := t - p * y;
    RoundedShift(p, y, e);
    assert p * y + e == t;
  }

  lemma SumBounds(p: int, s: int, x: int, lo: int, hi: int)
    requires Range(p, lo, hi) && lo <= x <= hi && Between(p, s, lo, hi)
    ensures p * lo <= s + x <= p * hi < HALFWORD
  {
    assert (p - 1) * lo + lo == p * lo && (p - 1) * hi + hi == p * hi;
  }

  /** Outputs stay in the range of the inputs, and the state neither leaves its range nor wraps. */
  lemma StepBounds(p: int, s: u16, x: u16, lo: int, hi: int)
    requires Range(p, lo, hi) && lo <= x <= hi && Between(p, s, lo, hi)
    ensures s + x < HALFWORD && lo <= Output(p, s, x) <= hi && Between(p, Next(p, s, x), lo, hi)
  {
    SumBounds(p, s, x, lo, hi);
    Step(p, s, x, lo);
    Step(p, s, x, hi);
    RoundedBounds(p, s + x - p * lo);
    RoundedBounds(p, s + x - p * hi);
    assert (p - 1) * lo == p * lo - lo && (p - 1) * hi == p * hi - hi;
  }

  /** Of each sum, reduced to 16 bits, the output is the nearest p-th part, halves upwards, and the state the rest. */
  lemma StepSplits(p: int, s: u16, x: u16)
    requires IsWeight(p)
    ensures var t, y := (s + x) % HALFWORD, Output(p, s, x);
            && p * (2 * y - 1) <= 2 * t < p * (2 * y + 1) + p % 2
            && Next(p, s, x) == t - y
  {
    var t := Wrap16(s + x);
    var y := Output(p, s, x);
    RoundedBounds(p, t);
    NearestPart(p, t, y);
  }

  lemma NearestPart(p: int, t: nat, y: int)
    requires IsWeight(p) && y == Rounded(p, t)
    ensures p * (2 * y - 1) <= 2 * t < p * (2 * y + 1) + p % 2
  {
    var r := (t + p / 2) % p;
    assert t + p / 2 == p * y + r;
    assert p * (2 * y - 1) == 2 * (p * y) - p && p * (2 * y + 1) == 2 * (p * y) + p;
  }

  function Sum(xs: seq<u16>): int {
    if xs == [] then 0 else xs[0] + Sum(xs[1..])
  }

  /** Over every run nothing is lost but multiples of 2^16: what went in came out or is still in the state. */
  lemma {:induction false} RunConserves(p: int, s: u16, xs: seq<u16>)
    requires IsWeight(p)
    ensures (s + Sum(xs) - Sum(Outputs(p, s, xs)) - After(p, s, xs)) % HALFWORD == 0
    decreases |xs|
  {
    if xs == [] {
    } else {
      var y, s', ys := Output(p, s, xs[0]), Next(p, s, xs[0]), Outputs(p, s, xs);
      StepSplits(p, s, xs[0]);
      RunConserves(p, s', xs[1..]);
      assert ys[0] == y && ys[1..] == Outputs(p, s', xs[1..]);
      SameRest(s + xs[0] - y - s', s' + Sum(xs[1..]) - Sum(ys[1..]) - After(p, s', xs[1..]));
    }
  }

  lemma SameRest(a: int, b: int)
    requires a % HALFWORD == 0 && b % HALFWORD == 0
    ensures (a + b) % HALFWORD == 0
  {
  }

  /** The outputs for a run of inputs. */
  function Outputs(p: int, s: u16, xs: seq<u16>): (r: seq<u16>)
    requires IsWeight(p)
    ensures |r| == |xs|
    decreases |xs|
  {
    if xs == [] then [] else [Output(p, s, xs[0])] + Outputs(p, Next(p, s, xs[0]), xs[1..])
  }

  function After(p: int, s: u16, xs: seq<u16>): u16
    requires IsWeight(p)
    decreases |xs|
  {
    if xs == [] then s else After(p, Next(p, s, xs[0]), xs[1..])
  }

  lemma {:induction false} RunBounds(p: int, s: u16, xs: seq<u16>, lo: int, hi: int)
    requires Range(p, lo, hi) && Between(p, s, lo, hi) && forall i :: 0 <= i < |xs| ==> lo <= xs[i] <= hi
    ensures Between(p, After(p, s, xs), lo, hi)
    ensures forall i :: 0 <= i < |xs| ==> lo <= Outputs(p, s, xs)[i] <= hi
    decreases |xs|
  {
    if xs == [] {
    } else {
      StepBounds(p, s, xs[0], lo, hi);
      RunBounds(p, Next(p, s, xs[0]), xs[1..], lo, hi);
    }
  }

  /** A filter started at `v` stands for the constant input `v`, and passes it, if and only if the shift fits. */
  lemma StartPasses(p: int, v: u16)
    requires IsWeight(p)
    ensures Output(p, Start(p, v), v) == v <==> v * p < HALFWORD
    ensures v * p < HALFWORD ==> Between(p, Start(p, v), v, v)
    ensures (Start(p, v) + v - v * p) % HALFWORD == 0
  {
    SameRemainder(v * p, v);
    var q, j := HALFWORD / p, v * p / HALFWORD;
    Multiple(p, q, v, j);
    RoundedShift(p, v - q * j, 0);
    RoundedBounds(p, 0);
    if j > 0 { Times(q, 1, j); } else { StandsFor(p, v); }
  }

  lemma SameRemainder(a: int, v: u16)
    ensures (Wrap16(Wrap16(a) - v) + v - a) % HALFWORD == 0
  {
  }

  lemma StandsFor(p: int, v: u16)
    requires 0 < p && v * p < HALFWORD
    ensures Between(p, Start(p, v), v, v)
  {
    assert (p - 1) * v == v * p - v;
    assert v * 1 <= v * p by { Times(v, 1, p); }
  }

  lemma Multiple(p: int, q: int, v: u16, j: int)
    requires IsWeight(p) && p * q == HALFWORD && j == v * p / HALFWORD
    ensures Wrap16(Start(p, v) + v) == p * (v - q * j) + 0
    ensures q >= 2 && j >= 0 && (j == 0 <==> v * p < HALFWORD)
  {
    Regroup(p, q, j);
    SameWrap(v * p, v);
    assert v * p >= 0 by { Times(v, 0, p); }
    if q < 2 { Times(p, q, 1); }
  }

  lemma SameWrap(a: int, v: u16)
    ensures Wrap16(Wrap16(Wrap16(a) - v) + v) == Wrap16(a)
  {
  }

  lemma Regroup(p: int, q: int, j: int)
    ensures (p * q) * j == p * (q * j)
  {
  }

  // ---------------------------------------------------------------- convergence

  /** The state after `n` times the input `x`. */
  function AfterConstant(p: int, s: u16, x: u16, n: nat): u16
    requires IsWeight(p)
    decreases n
  {
    if n == 0 then s else AfterConstant(p, Next(p, s, x), x, n - 1)
  }

  function Abs(n: int): nat {
    if n >= 0 then n else -n
  }

  /** Under a constant input the error keeps its sign and shrinks until the output is the input; then it rests. */
  lemma Approach(p: int, s: u16, x: u16, hi: int)
    requires Range(p, 0, hi) && x <= hi && Between(p, s, 0, hi)
    ensures var e, e' := Error(p, s, x), Error(p, Next(p, s, x), x);
            if Output(p, s, x) == x then Next(p, s, x) == s
            else Abs(e') < Abs(e) && (e > 0 ==> e' >= 0 && Output(p, s, x) > x)
                 && (e < 0 ==> e' <= 0 && Output(p, s, x) < x)
  {
    StepBounds(p, s, x, 0, hi);
    Step(p, s, x, x);
    RoundedBounds(p, Error(p, s, x));
  }

  /** The output is exactly the constant input after at most |error| steps, and stays there. */
  lemma {:induction false} Settles(p: int, s: u16, x: u16, hi: int, n: nat)
    requires Range(p, 0, hi) && x <= hi && Between(p, s, 0, hi)
    requires n >= Abs(Error(p, s, x))
    ensures Output(p, AfterConstant(p, s, x, n), x) == x
    decreases n
  {
    Approach(p, s, x, hi);
    StepBounds(p, s, x, 0, hi);
    if n > 0 {
      if Output(p, s, x) == x { Rests(p, s, x, n); } else { Settles(p, Next(p, s, x), x, hi, n - 1); }
    } else {
      Step(p, s, x, x);
      RoundedBounds(p, 0);
    }
  }

  lemma {:induction false} Rests(p: int, s: u16, x: u16, n: nat)
    requires IsWeight(p)
    ensures Next(p, s, x) == s ==> AfterConstant(p, s, x, n) == s
    decreases n
  {
    if n == 0 {
    } else {
      Rests(p, s, x, n - 1);
    }
  }
}
