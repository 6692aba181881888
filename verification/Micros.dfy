/** lib-gd32/src/delayus.cpp: microseconds from a 32-bit cycle counter, `perUs` cycles a microsecond. */
module Micros {
  import opened Words

  predicate TicksPerUs(perUs: int) {
    0 < perUs < WORD
  }

  // ---------------------------------------------------------------- Gd32Micros

  /** The three statics. */
  datatype Clock = Clock(previous: u32, accumulated: u32, remainder: u32)

  const START := Clock(0, 0, 0)

  function Read(c: Clock, now: u32, perUs: int): Clock
    requires TicksPerUs(perUs)
  {
    var total := Wrap(c.remainder + Wrap(now - c.previous));
    Clock(now, Wrap(c.accumulated + total / perUs), total % perUs)
  }

  class MicrosecondClock {
    const perUs: int
    var previous: u32
    var accumulated: u32
    var remainder: u32

    ghost function State(): Clock
      reads this
    {
      Clock(previous, accumulated, remainder)
    }

    constructor (perUs: int)
      requires TicksPerUs(perUs)
      ensures this.perUs == perUs && State() == START
    {
      this.perUs := perUs;
      previous, accumulated, remainder := 0, 0, 0;
    }

    /**
     * `now` is what the cycle counter holds, `gap` cycles after the last call, which was at `cycles`. An exact clock
     * stays exact, and gives the elapsed microseconds modulo 2^32, if and only if the gap fits.
     */
    method Gd32Micros(now: u32, ghost cycles: nat, ghost gap: nat) returns (micros: u32)
      requires TicksPerUs(perUs) && now == Wrap(cycles + gap)
      modifies this
      ensures State() == Read(old(State()), now, perUs) && micros == accumulated
      ensures Exact(old(State()), cycles, perUs) && gap < WORD ==>
                (Exact(State(), cycles + gap, perUs) <==> cycles % perUs + gap < WORD)
      ensures Exact(State(), cycles + gap, perUs) ==> micros == Wrap((cycles + gap) / perUs)
    {
      if Exact(State(), cycles, perUs) && gap < WORD { ReadingExact(State(), cycles, gap, perUs); }
      var delta := Wrap(now - previous);
      previous := now;
      var total := Wrap(remainder + delta);
      accumulated := Wrap(accumulated + total / perUs);
      remainder := total % perUs;
      return accumulated;
    }
  }

  /** The clock agrees with the number of cycles since the counter was started. */
  predicate Exact(c: Clock, cycles: nat, perUs: int)
    requires TicksPerUs(perUs)
  {
    c == Clock(Wrap(cycles), Wrap(cycles / perUs), cycles % perUs)
  }

  /** A reading keeps the clock exact if and only if the cycles since the last one and the remainder fit the word. */
  lemma ReadingExact(c: Clock, cycles: nat, gap: nat, perUs: int)
    requires TicksPerUs(perUs) && Exact(c, cycles, perUs) && gap < WORD
    ensures Exact(Read(c, Wrap(cycles + gap), perUs), cycles + gap, perUs) <==> cycles % perUs + gap < WORD
  {
    var q, r := cycles / perUs, cycles % perUs;
    GapSeen(cycles, gap);
    LaterCycles(cycles, gap, perUs);
    WrapOnce(r + gap);
    if r + gap < WORD {
      WrapAdds(q, (r + gap) / perUs);
    } else {
      LostWord(perUs, r + gap - WORD, q);
    }
  }

  lemma LaterCycles(cycles: nat, gap: nat, perUs: int)
    requires perUs > 0
    ensures (cycles + gap) / perUs == cycles / perUs + (cycles % perUs + gap) / perUs
    ensures (cycles + gap) % perUs == (cycles % perUs + gap) % perUs
  {
    var q, r := cycles / perUs, cycles % perUs;
    assert cycles + gap == perUs * q + (r + gap);
    DivShift(perUs, q, r + gap);
    ModShift(perUs, q, r + gap);
  }

  lemma WrapOnce(n: nat)
    requires n < 2 * WORD
    ensures Wrap(n) == if n < WORD then n else n - WORD
  {
  }

  lemma GapSeen(cycles: nat, gap: nat)
    requires gap < WORD
    ensures Wrap(Wrap(cycles + gap) - Wrap(cycles)) == gap
  {
  }

  /** Losing 2^32 cycles loses a number of microseconds that no wrap-around hides. */
  lemma LostWord(perUs: int, t: nat, q: int)
    requires 2 <= perUs < WORD
    ensures Wrap(Wrap(q) + t / perUs) != Wrap(q + (t + WORD) / perUs)
  {
    var e, r := t / perUs, t % perUs;
    var d := (r + WORD) / perUs;
    assert t + WORD == perUs * e + (r + WORD);
    DivShift(perUs, e, r + WORD);
    QuotientAtMost(r + WORD, perUs, WORD - 1);
    if d <= 0 { Times(perUs, d + 1, 1); }
    WrapAdds(q, e);
    WrapDiffers(q + e, d);
  }

  /** The cycles that pass between successive readings, summed. */
  function Total(gaps: seq<nat>): nat {
    if gaps == [] then 0 else Total(gaps[..|gaps| - 1]) + gaps[|gaps| - 1]
  }

  function AfterReadings(gaps: seq<nat>, perUs: int): Clock
    requires TicksPerUs(perUs)
  {
    if gaps == [] then START else Read(AfterReadings(gaps[..|gaps| - 1], perUs), Wrap(Total(gaps)), perUs)
  }

  predicate ExactThroughout(gaps: seq<nat>, perUs: int)
    requires TicksPerUs(perUs)
  {
    && Exact(AfterReadings(gaps, perUs), Total(gaps), perUs)
    && (gaps == [] || ExactThroughout(gaps[..|gaps| - 1], perUs))
  }

  /** Every gap, with the cycles of the unfinished microsecond before it, fits the word. */
  predicate GapsFit(gaps: seq<nat>, perUs: int)
    requires TicksPerUs(perUs)
  {
    gaps == [] ||
      var before := gaps[..|gaps| - 1];
      Total(before) % perUs + gaps[|gaps| - 1] < WORD && GapsFit(before, perUs)
  }

  /** No drift over a run of readings less than 2^32 cycles apart, if and only if the gaps fit. */
  lemma {:induction false} NeverDrifts(gaps: seq<nat>, perUs: int)
    requires TicksPerUs(perUs) && forall k :: 0 <= k < |gaps| ==> gaps[k] < WORD
    ensures ExactThroughout(gaps, perUs) <==> GapsFit(gaps, perUs)
  {
    if gaps == [] {
    } else {
      var before := gaps[..|gaps| - 1];
      NeverDrifts(before, perUs);
      if GapsFit(before, perUs) {
        ReadingExact(AfterReadings(before, perUs), Total(before), gaps[|gaps| - 1], perUs);
      }
    }
  }

  /** Readings at most 2^32 - perUs cycles apart always give the elapsed microseconds modulo 2^32. */
  lemma {:induction false} CloseReadings(gaps: seq<nat>, perUs: int)
    requires TicksPerUs(perUs) && forall k :: 0 <= k < |gaps| ==> gaps[k] <= WORD - perUs
    ensures GapsFit(gaps, perUs) && AfterReadings(gaps, perUs).accumulated == Wrap(Total(gaps) / perUs)
  {
    if gaps == [] {
    } else {
      CloseReadings(gaps[..|gaps| - 1], perUs);
    }
    NeverDrifts(gaps, perUs);
  }

  // ---------------------------------------------------------------- DelayUs

  /** What the branches of the busy loop add; the last one is a tick short. */
  function Delta(previous: u32, now: u32): nat {
    if now == previous then 0
    else if now > previous then now - previous
    else WORD - 1 - previous + now
  }

  /**
   * True cycle counts: first of the stamp the delay starts from, then of every look at the counter.
   * Looks are less than 2^32 cycles apart.
   */
  ghost predicate Looks(clock: nat -> nat) {
    forall i: nat :: NextLook(clock, i)
  }

  predicate NextLook(clock: nat -> nat, i: nat) {
    clock(i) <= clock(i + 1) < clock(i) + WORD
  }

  function Tallied(count: u32, previous: u32, now: u32): u32 {
    Wrap(count + Delta(previous, now))
  }

  /** `ticks_count` after look `i`. */
  function Count(clock: nat -> nat, i: nat): u32
    decreases i
  {
    if i == 0 then 0 else Tallied(Count(clock, i - 1), Wrap(clock(i - 1)), Wrap(clock(i)))
  }

  /** The loop is left at look `i`. */
  predicate Leaves(clock: nat -> nat, ticks: u32, i: nat) {
    i > 0 && Wrap(clock(i)) != Wrap(clock(i - 1)) && Count(clock, i) >= ticks
  }

  /**
   * `offset` is the counter at the stamp, or 0 to start from the first look. The delay ends with the first look
   * that leaves the loop; `end` is one such look.
   */
  method DelayUs(micros: u32, offset: u32, perUs: int, clock: nat -> nat, ghost end: nat) returns (looks: nat)
    requires TicksPerUs(perUs) && Looks(clock) && Leaves(clock, Wrap(micros * perUs), end)
    requires offset == 0 || offset == Wrap(clock(0))
    ensures Leaves(clock, Wrap(micros * perUs), looks)
    ensures forall i :: 0 < i < looks ==> !Leaves(clock, Wrap(micros * perUs), i)
    ensures micros * perUs < WORD ==> clock(looks) - clock(0) >= micros * perUs
  {
    var previous := if offset == 0 then Wrap(clock(0)) else offset;
    looks := BusyLoop(Wrap(micros * perUs), previous, clock, end);
    CountBelowElapsed(clock, looks);
    WrapsToItself(micros * perUs);
  }

  method BusyLoop(ticks: u32, start: u32, clock: nat -> nat, ghost end: nat) returns (looks: nat)
    requires Leaves(clock, ticks, end) && start == Wrap(clock(0))
    ensures Leaves(clock, ticks, looks)
    ensures forall i :: 0 < i < looks ==> !Leaves(clock, ticks, i)
  {
    var count: u32 := 0;
    var previous := start;
    looks := 0;
    var done := false;
    while !done
      invariant looks <= end && previous == Wrap(clock(looks)) && count == Count(clock, looks)
      invariant done == Leaves(clock, ticks, looks)
      invariant forall i :: 0 < i < looks ==> !Leaves(clock, ticks, i)
      decreases end - looks
    {
      looks := looks + 1;
      var now := Wrap(clock(looks));
      count := Tally(count, previous, now);
      done := now != previous && count >= ticks;
      previous := now;
    }
  }

  method Tally(count: u32, previous: u32, now: u32) returns (count': u32)
    ensures count' == Tallied(count, previous, now)
  {
    if now == previous {
      count' := count;
    } else if now > previous {
      count' := Wrap(count + (now - previous));
    } else {
      count' := Wrap(count + (WORD - 1 - previous + now));
    }
  }

  /** How often the counter has wrapped. */
  function Wraps(clock: nat -> nat, i: nat): int {
    clock(i) / WORD - clock(0) / WORD
  }

  lemma DeltaOfGap(a: nat, b: nat)
    requires a <= b < a + WORD
    ensures Delta(Wrap(a), Wrap(b)) == b - a - (b / WORD - a / WORD)
    ensures 0 <= b / WORD - a / WORD <= b - a
  {
  }

  /** Every wrap-around of the counter makes the count one tick short; it is never long. */
  lemma {:induction false} CountBelowElapsed(clock: nat -> nat, i: nat)
    requires Looks(clock)
    ensures clock(0) <= clock(i) && Count(clock, i) <= clock(i) - clock(0)
    decreases i
  {
    if i == 0 {
    } else {
      CountBelowElapsed(clock, i - 1);
      assert NextLook(clock, i - 1);
      DeltaOfGap(clock(i - 1), clock(i));
      CountStep(clock, i);
    }
  }

  lemma CountStep(clock: nat -> nat, i: nat)
    requires i > 0
    ensures var n := Count(clock, i - 1) + Delta(Wrap(clock(i - 1)), Wrap(clock(i)));
            Count(clock, i) == Wrap(n) <= n && (n < WORD ==> Count(clock, i) == n)
  {
  }

  /** However the counter is looked at, the delay is at least as long as asked for. */
  ghost predicate NeverEarly(micros: u32, perUs: int)
    requires TicksPerUs(perUs)
  {
    forall clock: nat -> nat, i: nat :: Looks(clock) && Leaves(clock, Wrap(micros * perUs), i) ==>
      clock(i) - clock(0) >= micros * perUs
  }

  lemma EarlyOnlyOnOverflow(micros: u32, perUs: int)
    requires TicksPerUs(perUs)
    ensures NeverEarly(micros, perUs) <==> micros * perUs < WORD
  {
    if micros * perUs < WORD {
      EnoughTicks(micros, micros * perUs, perUs);
    } else {
      EarlyOnSteadyCounter(micros, micros * perUs, perUs);
    }
  }

  lemma EnoughTicks(micros: u32, ticks: u32, perUs: int)
    requires TicksPerUs(perUs) && ticks == micros * perUs
    ensures NeverEarly(micros, perUs)
  {
    WrapsToItself(ticks);
    forall clock: nat -> nat, i: nat | Looks(clock) && Leaves(clock, ticks, i) ensures clock(i) - clock(0) >= ticks {
      CountBelowElapsed(clock, i);
    }
  }

  lemma EarlyOnSteadyCounter(micros: u32, ticks: nat, perUs: int)
    requires TicksPerUs(perUs) && ticks == micros * perUs >= WORD
    ensures !NeverEarly(micros, perUs)
  {
    var steady := (i: nat) => i;
    var i := Max(Wrap(ticks), 1);
    SteadyCount(steady, i);
    SteadyLooks(steady, i);
    assert Leaves(steady, Wrap(micros * perUs), i);
    assert steady(i) - steady(0) < micros * perUs;
  }

  lemma SteadyLooks(clock: nat -> nat, i: nat)
    requires 0 < i < WORD && forall k: nat :: clock(k) == k
    ensures Looks(clock) && Wrap(clock(i)) != Wrap(clock(i - 1))
  {
    WrapsToItself(i);
    WrapsToItself(i - 1);
  }

  lemma {:induction false} SteadyCount(clock: nat -> nat, i: nat)
    requires i < WORD && forall k: nat :: clock(k) == k
    ensures Count(clock, i) == i
  {
    if i == 0 {
    } else {
      SteadyCount(clock, i - 1);
      WrapOnce(i - 1);
      WrapOnce(i);
      CountStep(clock, i);
    }
  }

  /** The counter advances between looks, by at most `g` cycles. */
  ghost predicate Steps(clock: nat -> nat, g: nat) {
    forall i: nat :: StepAt(clock, g, i)
  }

  predicate StepAt(clock: nat -> nat, g: nat, i: nat) {
    clock(i) < clock(i + 1) <= clock(i) + g
  }

  lemma {:induction false} Advances(clock: nat -> nat, g: nat, i: nat)
    requires Steps(clock, g)
    ensures clock(i) - clock(0) >= i
  {
    if i == 0 {
    } else {
      assert StepAt(clock, g, i - 1);
      Advances(clock, g, i - 1);
    }
  }

  lemma LookSeen(a: nat, b: nat)
    requires a < b < a + WORD
    ensures Wrap(a) != Wrap(b)
  {
  }

  /** While the loop runs the count is the elapsed cycles less one for each wrap-around of the counter. */
  lemma {:induction false} CountExact(clock: nat -> nat, ticks: u32, g: nat, i: nat)
    requires Steps(clock, g) && ticks + g <= WORD && 0 < g < WORD && i > 0
    requires forall k :: 0 < k < i ==> !Leaves(clock, ticks, k)
    ensures Count(clock, i) == clock(i) - clock(0) - Wraps(clock, i)
    decreases i
  {
    assert StepAt(clock, g, i - 1);
    DeltaOfGap(clock(i - 1), clock(i));
    CountStep(clock, i);
    if i > 1 {
      CountExact(clock, ticks, g, i - 1);
      assert !Leaves(clock, ticks, i - 1);
      assert StepAt(clock, g, i - 2);
      LookSeen(clock(i - 2), clock(i - 1));
    }
  }

  lemma FewWraps(a: nat, b: nat, ticks: u32)
    requires a <= b && b - a - (b / WORD - a / WORD) < ticks
    ensures b - a <= ticks
  {
  }

  lemma InsideLoop(clock: nat -> nat, ticks: u32, g: nat, i: nat)
    requires Steps(clock, g) && ticks + g <= WORD && 0 < g < WORD
    requires forall k :: 0 < k <= i ==> !Leaves(clock, ticks, k)
    ensures i <= clock(i) - clock(0) <= ticks
  {
    Advances(clock, g, i);
    if i > 0 {
      CountExact(clock, ticks, g, i);
      assert !Leaves(clock, ticks, i) && StepAt(clock, g, i - 1);
      LookSeen(clock(i - 1), clock(i));
      FewWraps(clock(0), clock(i), ticks);
    }
  }

  lemma StepsAreLooks(clock: nat -> nat, g: nat)
    requires Steps(clock, g) && g < WORD
    ensures Looks(clock)
  {
    forall i: nat ensures NextLook(clock, i) { assert StepAt(clock, g, i); }
  }

  /** The delay is exact up to the distance of two looks. */
  lemma DelayOnTime(clock: nat -> nat, ticks: u32, g: nat, looks: nat)
    requires Steps(clock, g) && ticks + g <= WORD && 0 < g < WORD
    requires Leaves(clock, ticks, looks) && forall i :: 0 < i < looks ==> !Leaves(clock, ticks, i)
    ensures ticks <= clock(looks) - clock(0) <= ticks + g
  {
    StepsAreLooks(clock, g);
    CountBelowElapsed(clock, looks);
    NotLate(clock, ticks, g, looks);
  }

  lemma NotLate(clock: nat -> nat, ticks: u32, g: nat, looks: nat)
    requires Steps(clock, g) && ticks + g <= WORD && 0 < g < WORD
    requires looks > 0 && forall i :: 0 < i < looks ==> !Leaves(clock, ticks, i)
    ensures clock(looks) - clock(0) <= ticks + g
  {
    InsideLoop(clock, ticks, g, looks - 1);
    assert StepAt(clock, g, looks - 1);
  }

  /** The loop ends. */
  lemma DelayEnds(clock: nat -> nat, ticks: u32, g: nat)
    requires Steps(clock, g) && ticks + g <= WORD && 0 < g < WORD
    ensures exists i :: 0 < i <= ticks + 1 && Leaves(clock, ticks, i)
  {
    if forall i :: 0 < i <= ticks + 1 ==> !Leaves(clock, ticks, i) {
      InsideLoop(clock, ticks, g, ticks + 1);
    }
  }
}
