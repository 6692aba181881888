/**
 * lib-gd32/src/timer6.cpp: milliseconds from a hardware counter that wraps once a second, and an interrupt handler
 * that counts the seconds. The counter runs on between any two instructions.
 */
module Timer6 {
  import opened Words

  /** Counter ticks of a tenth of a millisecond in a second. */
  const PERIOD := 10000

  /** Where the handler is: after reading the flag, and after counting. `seen` is the flag it read. */
  datatype Isr = Idle | Flagged(seen: bool) | Counted(seen: bool)

  /** `uptime`, the hardware counter and its update flag, and the handler. */
  datatype Timer = Timer(uptime: u32, count: nat, flag: bool, isr: Isr)

  const START := Timer(0, 0, false, Idle)

  datatype Event = Tick | ReadFlag | CountSecond | ClearFlag

  /** The handler's steps come in order, and start when nothing else of it runs. */
  predicate Enabled(s: Timer, e: Event) {
    match e
    case Tick => true
    case ReadFlag => s.isr.Idle?
    case CountSecond => s.isr.Flagged?
    case ClearFlag => s.isr.Counted?
  }

  function Overflows(s: Timer): bool {
    s.count + 1 >= PERIOD
  }

  /** Writing the complement of the flags read clears those flags and leaves the others. */
  function Step(s: Timer, e: Event): Timer {
    match e
    case Tick => if Overflows(s) then s.(count := 0, flag := true) else s.(count := s.count + 1)
    case ReadFlag => s.(isr := Flagged(s.flag))
    case CountSecond =>
      if !s.isr.Flagged? then s
      else s.(uptime := if s.isr.seen then Wrap(s.uptime + 1) else s.uptime, isr := Counted(s.isr.seen))
    case ClearFlag =>
      if s.isr.Counted? then s.(flag := s.flag && !s.isr.seen, isr := Idle) else s
  }

  /** A timer and its past: ticks passed, seconds the handler counted, overflows that found the flag still set. */
  datatype History = History(timer: Timer, time: nat, counted: nat, lost: nat)

  const POWER_ON := History(START, 0, 0, 0)

  function Advance(h: History, e: Event): History {
    History(
      Step(h.timer, e),
      if e == Tick then h.time + 1 else h.time,
      if e == CountSecond && h.timer.isr == Flagged(true) then h.counted + 1 else h.counted,
      if e == Tick && Overflows(h.timer) && h.timer.flag then h.lost + 1 else h.lost)
  }

  /** An overflow is signalled and not yet counted. */
  function Pending(s: Timer): nat {
    if s.flag && s.isr != Counted(true) then 1 else 0
  }

  /** Conservation: every second that passed is counted once, pending, or lost to a flag that was still set. */
  predicate Conserved(h: History) {
    && h.time / PERIOD == h.counted + Pending(h.timer) + h.lost
    && Registers(h.timer, h.time, h.counted)
    && ((h.timer.isr == Flagged(true) || h.timer.isr == Counted(true)) ==> h.timer.flag)
  }

  /** The hardware counts the running second, `uptime` those the handler counted. */
  predicate Registers(s: Timer, time: nat, counted: nat) {
    s.count == time % PERIOD && s.uptime == Wrap(counted)
  }

  lemma PowerOn(h: History)
    requires h.timer.uptime == h.timer.count == h.time == h.counted == h.lost == 0
    requires !h.timer.flag && h.timer.isr == Idle
    ensures Conserved(h)
  {
  }

  lemma AdvanceConserves(h: History, e: Event)
    requires Conserved(h) && Enabled(h.timer, e)
    ensures Conserved(Advance(h, e))
  {
    NextTick(h.time);
  }

  lemma NextTick(t: nat)
    ensures if t % PERIOD + 1 == PERIOD then (t + 1) / PERIOD == t / PERIOD + 1 && (t + 1) % PERIOD == 0
            else (t + 1) / PERIOD == t / PERIOD && (t + 1) % PERIOD == t % PERIOD + 1
  {
  }

  function Final(es: seq<Event>): History {
    if es == [] then POWER_ON else Advance(Final(es[..|es| - 1]), es[|es| - 1])
  }

  predicate Legal(es: seq<Event>) {
    es == [] || (Legal(es[..|es| - 1]) && Enabled(Final(es[..|es| - 1]).timer, es[|es| - 1]))
  }

  /** In every run, with ticks between any two steps of the handler. */
  lemma {:induction false} NoSecondTwice(es: seq<Event>)
    requires Legal(es)
    ensures Conserved(Final(es))
  {
    if es == [] {
    } else {
      NoSecondTwice(es[..|es| - 1]);
      AdvanceConserves(Final(es[..|es| - 1]), es[|es| - 1]);
    }
  }

  // ---------------------------------------------------------------- the registers, read and written in place

  /** `TIMER_CNT`, `TIMER_INTF` and `gv_seconds`, with their past. */
  class Timer6 {
    var uptime: u32
    var count: nat
    var flag: bool
    ghost var past: History

    ghost predicate Valid()
      reads this
    {
      Conserved(past) && past.timer.uptime == uptime && past.timer.count == count && past.timer.flag == flag
    }

    ghost predicate HandlerIdle()
      reads this
    {
      past.timer.isr.Idle?
    }

    constructor ()
      ensures Valid() && HandlerIdle() && past.time == past.counted == past.lost == 0
    {
      uptime, count, flag := 0, 0, false;
      new;
      past := History(Timer(uptime, count, flag, Idle), 0, 0, 0);
      PowerOn(past);
    }

    /** The hardware, while the program does nothing to the timer. */
    method Elapse(n: nat)
      requires Valid()
      modifies this`count, this`flag, this`past
      ensures Valid() && past.time == old(past.time) + n && past.counted == old(past.counted)
      ensures past.timer.isr == old(past.timer.isr)
      ensures flag == (old(flag) || past.time / PERIOD > old(past.time) / PERIOD)
    {
      for i := 0 to n
        invariant Valid() && past.time == old(past.time) + i && past.counted == old(past.counted)
        invariant past.timer.isr == old(past.timer.isr)
        invariant flag == (old(flag) || past.time / PERIOD > old(past.time) / PERIOD)
      {
        AdvanceConserves(past, Tick);
        NextTick(past.time);
        past := Advance(past, Tick);
        if count + 1 >= PERIOD {
          count, flag := 0, true;
        } else {
          count := count + 1;
        }
      }
    }

    /** `before` and `after` ticks pass between the handler's accesses. */
    method IrqHandler(before: nat, after: nat)
      requires Valid() && HandlerIdle()
      modifies this
      ensures Valid() && HandlerIdle() && past.time == old(past.time) + before + after
      ensures past.counted == old(past.counted) + if old(flag) then 1 else 0
      ensures uptime == if old(flag) then Wrap(old(uptime) + 1) else old(uptime)
      ensures flag == (!old(flag) && past.time / PERIOD > old(past.time) / PERIOD)
      ensures past.lost == old(past.lost) + past.time / PERIOD - old(past.time) / PERIOD - if flag then 1 else 0
    {
      var intFlag := flag;
      Record(ReadFlag);
      Elapse(before);
      if intFlag {
        uptime := Wrap(uptime + 1);
      }
      Record(CountSecond);
      Elapse(after);
      flag := flag && !intFlag;
      Record(ClearFlag);
    }

    /** A step of the handler enters the past. */
    ghost method Record(e: Event)
      requires Conserved(past) && Enabled(past.timer, e)
      requires Step(past.timer, e) == Timer(uptime, count, flag, Step(past.timer, e).isr)
      modifies this`past
      ensures Valid() && past == Advance(old(past), e)
    {
      AdvanceConserves(past, e);
      past := Advance(past, e);
    }

    ghost function Now(): Moment
      reads this
    {
      Moment(past.time, flag)
    }

    /** Between two reads of the program ticks pass, and the handler may preempt it. */
    method Interlude(g: Gap)
      requires Valid() && HandlerIdle() && past.lost == 0 && Room(Now(), Length(g))
      modifies this
      ensures Valid() && HandlerIdle() && past.lost == 0 && Now() == Pass(old(Now()), g)
      ensures past.counted == old(past.counted) + if Counts(old(Now()), g) then 1 else 0
    {
      Elapse(g.before);
      if g.handler {
        IrqHandler(g.during, g.after);
      } else {
        Elapse(g.during + g.after);
      }
    }

    /**
     * `g1`, `g2` and, where the counter is read again, `g3` lie between the reads. With no second lost and at most
     * one to be counted, the result is the elapsed time at `at`, when the counter was last read, if and only if the
     * call is not `Stale`. Otherwise it is a second short, and then it is the elapsed time at some instant of the
     * call if and only if the call had taken a second when the counter was read.
     */
    method GetElapsedMilliseconds(g1: Gap, g2: Gap, g3: Gap) returns (ms: u32, ghost at: nat)
      requires Valid() && HandlerIdle() && past.lost == 0
      requires Room(Now(), Length(g1) + Length(g2) + Length(g3))
      modifies this
      ensures Valid() && HandlerIdle() && past.lost == 0
      ensures old(past.time) <= at <= past.time <= old(past.time) + Length(g1) + Length(g2) + Length(g3)
      ensures Now() == Reading(old(Now()), g1, g2, g3) && at == CounterRead(old(Now()), g1, g2, g3)
      ensures (exists t: nat :: old(past.time) <= t <= past.time && ms == Milliseconds(t))
         <==> !Stale(old(Now()), g1, g2) || old(past.time) / 10 + 1000 <= at / 10
      ensures ms == Milliseconds(at) <==> !Stale(old(Now()), g1, g2)
      ensures Stale(old(Now()), g1, g2) ==> ms == Wrap(at / 10 - 1000)
    {
      ghost var stale := Stale(Now(), g1, g2);
      var seconds, cnt;
      seconds, cnt, at := ReadRegisters(g1, g2, g3);
      ms := Assemble(seconds, cnt, at, if stale then at / PERIOD - 1 else at / PERIOD);
      SecondShort(at, old(past.time), past.time);
    }

    method ReadRegisters(g1: Gap, g2: Gap, g3: Gap) returns (seconds: u32, cnt: nat, ghost at: nat)
      requires Valid() && HandlerIdle() && past.lost == 0
      requires Room(Now(), Length(g1) + Length(g2) + Length(g3))
      modifies this
      ensures Valid() && HandlerIdle() && past.lost == 0
      ensures old(past.time) <= at <= past.time <= old(past.time) + Length(g1) + Length(g2) + Length(g3)
      ensures cnt == at % PERIOD && Now() == Reading(old(Now()), g1, g2, g3)
      ensures at == CounterRead(old(Now()), g1, g2, g3)
      ensures if Stale(old(Now()), g1, g2) then at >= PERIOD && seconds == Wrap(at / PERIOD - 1)
              else seconds == Wrap(at / PERIOD)
    {
      ghost var k, c := Now(), past.counted;
      RoomForEach(k, g1, g2, g3);
      seconds, cnt := ReadFirst(g1);
      at := past.time;
      Interlude(g2);
      if flag {
        seconds := AddSecond(seconds, c);
        cnt := ReadAgain(g3);
        at := past.time;
      }
      assert c == k.time / PERIOD - if k.flag then 1 else 0;
      assert at == CounterRead(k, g1, g2, g3);
      SecondsRead(k, g1, g2, g3);
    }

    /** The seconds and, `g1` later, the counter. */
    method ReadFirst(g1: Gap) returns (seconds: u32, cnt: nat)
      requires Valid() && HandlerIdle() && past.lost == 0 && Room(Now(), Length(g1))
      modifies this
      ensures Valid() && HandlerIdle() && past.lost == 0 && Now() == Pass(old(Now()), g1)
      ensures seconds == Wrap(old(past.counted)) && cnt == past.time % PERIOD
      ensures old(past.time) / PERIOD == old(past.counted) + if old(flag) then 1 else 0
    {
      Account();
      seconds := uptime;
      Interlude(g1);
      Account();
      cnt := count;
    }

    method ReadAgain(g3: Gap) returns (cnt: nat)
      requires Valid() && HandlerIdle() && past.lost == 0 && Room(Now(), Length(g3))
      modifies this
      ensures Valid() && HandlerIdle() && past.lost == 0 && Now() == Pass(old(Now()), g3) && cnt == past.time % PERIOD
    {
      Interlude(g3);
      Account();
      cnt := count;
    }

    lemma Account()
      requires Valid() && HandlerIdle() && past.lost == 0
      ensures past.time / PERIOD == past.counted + if flag then 1 else 0
      ensures count == past.time % PERIOD && uptime == Wrap(past.counted)
    {
    }
  }

  /** Ticks between two reads; the handler, if it preempts the program, needs `during` and `after`. */
  datatype Gap = Gap(before: nat, handler: bool, during: nat, after: nat)

  function Length(g: Gap): nat {
    g.before + g.during + g.after
  }

  /** True time in ticks, and whether the update flag is set. */
  datatype Moment = Moment(time: nat, flag: bool)

  /** In the next `n` ticks no second passes while the flag of an earlier one may be set. */
  predicate Room(k: Moment, n: nat) {
    (k.time + n) / PERIOD - k.time / PERIOD + (if k.flag then 1 else 0) <= 1
  }

  /** Within `n` ticks a second is over that the handler has not counted before. */
  predicate OverBy(k: Moment, n: nat) {
    k.flag || (k.time + n) / PERIOD > k.time / PERIOD
  }

  /** The handler runs in the gap and finds a second to count. */
  predicate Counts(k: Moment, g: Gap) {
    g.handler && OverBy(k, g.before)
  }

  function Pass(k: Moment, g: Gap): Moment {
    Moment(k.time + Length(g), OverBy(k, Length(g)) && !Counts(k, g))
  }

  /** Where a reading ends; only with the flag set is the counter read again. */
  function Reading(k: Moment, g1: Gap, g2: Gap, g3: Gap): Moment {
    var k' := Pass(Pass(k, g1), g2);
    if k'.flag then Pass(k', g3) else k'
  }

  /** When a reading last reads the counter. */
  function CounterRead(k: Moment, g1: Gap, g2: Gap, g3: Gap): nat {
    if Pass(Pass(k, g1), g2).flag then Reading(k, g1, g2, g3).time else Pass(k, g1).time
  }

  /**
   * Behind the back of a reading the handler counts a second that is over when the counter is read: it runs before
   * that, or, after the counter was read, on a second that was over by then.
   */
  predicate Stale(k: Moment, g1: Gap, g2: Gap) {
    Counts(k, g1) || (g2.handler && OverBy(k, Length(g1)))
  }

  lemma RoomForEach(k: Moment, g1: Gap, g2: Gap, g3: Gap)
    requires Room(k, Length(g1) + Length(g2) + Length(g3))
    ensures Room(k, Length(g1)) && Room(Pass(k, g1), Length(g2)) && Room(Pass(Pass(k, g1), g2), Length(g3))
  {
  }

  /** The seconds over when the counter is read: those over before and counted, and what is stale of them. */
  lemma SecondsRead(k: Moment, g1: Gap, g2: Gap, g3: Gap)
    requires Room(k, Length(g1) + Length(g2) + Length(g3))
    ensures CounterRead(k, g1, g2, g3) / PERIOD
         == k.time / PERIOD - (if k.flag then 1 else 0) + (if Pass(Pass(k, g1), g2).flag then 1 else 0)
            + if Stale(k, g1, g2) then 1 else 0
  {
  }

  method AddSecond(seconds: u32, ghost n: nat) returns (r: u32)
    requires seconds == Wrap(n)
    ensures r == Wrap(n + 1)
  {
    r := Wrap(seconds as int + 1);
    WrapAdds(n, 1);
  }

  /** True milliseconds, as a 32-bit number. */
  function Milliseconds(ticks: nat): u32 {
    Wrap(ticks / 10)
  }

  /** Missing seconds are missing from the result, a thousand milliseconds each. */
  lemma MissingSeconds(n: nat, at: nat)
    ensures Wrap(Wrap(Wrap(n) * 1000) + at % PERIOD / 10) == Wrap(at / 10 - 1000 * (at / PERIOD - n))
  {
    assert at / 10 == at / PERIOD * 1000 + at % PERIOD / 10;
    WrapTwice(n, at % PERIOD / 10);
  }

  /** So the result is exact if and only if the seconds are. */
  method Assemble(seconds: u32, cnt: nat, ghost at: nat, ghost n: nat) returns (ms: u32)
    requires cnt == at % PERIOD && seconds == Wrap(n) && n <= at / PERIOD <= n + 1
    ensures ms == Milliseconds(at) <==> n == at / PERIOD
    ensures n < at / PERIOD ==> ms == Wrap(at / 10 - 1000)
  {
    ms := Wrap(Wrap(seconds as int * 1000) + cnt / 10);
    MissingSeconds(n, at);
    WrapDiffers(at / 10 - 1000, 1000);
  }

  /** A reading that is a second short is the time at an instant from `start` on, if that is a second before `at`. */
  lemma SecondShort(at: nat, start: nat, end: nat)
    requires start <= at <= end < start + 2 * PERIOD
    ensures (exists t: nat :: start <= t <= end && Wrap(at / 10 - 1000) == Milliseconds(t))
       <==> start / 10 + 1000 <= at / 10
  {
    var m := at / 10 - 1000;
    if start / 10 <= m {
      var t := Max(start, 10 * m);
      assert t / 10 == m;
      assert Wrap(m) == Milliseconds(t);
    } else {
      forall t: nat | start <= t <= end ensures Wrap(m) != Milliseconds(t) {
        WrapDiffers(m, t / 10 - m);
      }
    }
  }

  /** In a call of less than a second that is not so. */
  lemma ShortCall(k: Moment, g1: Gap, g2: Gap, g3: Gap)
    requires Length(g1) + Length(g2) + Length(g3) <= PERIOD - 10
    ensures k.time / 10 + 1000 > CounterRead(k, g1, g2, g3) / 10
  {
    var at := CounterRead(k, g1, g2, g3);
    assert at <= k.time + PERIOD - 10;
  }

  lemma WrapTwice(n: int, x: int)
    ensures Wrap(Wrap(Wrap(n) * 1000) + x) == Wrap(n * 1000 + x)
  {
    var y := Wrap(n) * 1000;
    SameWord(Wrap(y) + x, n * 1000 + x, -1000 * (n / WORD) - y / WORD);
  }

  lemma SameWord(a: int, b: int, k: int)
    ensures a - b == k * WORD ==> Wrap(a) == Wrap(b)
  {
  }

  /** With a second signalled, a handler that runs before the counter is read makes the reading stale. */
  lemma StaleAtOnce(k: Moment, g1: Gap, g2: Gap)
    requires k.flag && g1.handler
    ensures Stale(k, g1, g2)
  {
  }

  /** One second after power-on such a reading is 0. */
  method MissedSecond() returns (ms: u32, ghost at: nat)
    ensures ms == 0 && Milliseconds(at) == 1000
  {
    var t := OneSecondOn();
    ms, at := ReadLate(t);
    OneSecond(at);
  }

  method OneSecondOn() returns (t: Timer6)
    ensures fresh(t) && t.Valid() && t.HandlerIdle() && t.past.lost == 0 && t.flag && t.past.time == PERIOD
  {
    t := new Timer6();
    t.Elapse(PERIOD);
    OneSecond(t.past.time);
  }

  method ReadLate(t: Timer6) returns (ms: u32, ghost at: nat)
    requires t.Valid() && t.HandlerIdle() && t.past.lost == 0 && t.flag
    modifies t
    ensures at == old(t.past.time) && ms == Wrap(at / 10 - 1000)
  {
    var now, none := Gap(0, true, 0, 0), Gap(0, false, 0, 0);
    StaleAtOnce(t.Now(), now, none);
    ms, at := t.GetElapsedMilliseconds(now, none, none);
  }

  lemma OneSecond(t: nat)
    requires t == PERIOD
    ensures t / PERIOD == 1 && Wrap(t / 10 - 1000) == 0 && Milliseconds(t) == 1000
  {
  }

  function PassAll(k: Moment, gaps: seq<Gap>): Moment
    decreases |gaps|
  {
    if gaps == [] then k else PassAll(Pass(k, gaps[0]), gaps[1..])
  }

  /** No gap has more than one second to count. */
  predicate KeepsUp(k: Moment, gaps: seq<Gap>)
    decreases |gaps|
  {
    gaps == [] || (Room(k, Length(gaps[0])) && KeepsUp(Pass(k, gaps[0]), gaps[1..]))
  }

  /** For example, a handler that runs at least every half second keeps up for ever. */
  lemma {:induction false} RegularHandlerKeepsUp(k: Moment, gaps: seq<Gap>)
    requires k.flag ==> k.time % PERIOD < PERIOD / 2
    requires forall i :: 0 <= i < |gaps| ==> gaps[i].handler && Length(gaps[i]) <= PERIOD / 2
    ensures KeepsUp(k, gaps)
    decreases |gaps|
  {
    if gaps == [] {
    } else {
      RoomForHalf(k.time, Length(gaps[0]));
      RegularHandlerKeepsUp(Pass(k, gaps[0]), gaps[1..]);
    }
  }

  lemma RoomForHalf(t: nat, n: nat)
    requires n <= PERIOD / 2
    ensures (t + n) / PERIOD <= t / PERIOD + 1
    ensures t % PERIOD < PERIOD / 2 ==> (t + n) / PERIOD == t / PERIOD
    ensures (t + n) / PERIOD > t / PERIOD ==> (t + n) % PERIOD < PERIOD / 2
  {
  }

  /**
   * Two exact readings do not go backwards before the 32-bit milliseconds wrap around, however far they are apart
   * and whatever lies between them, as long as the handler keeps up.
   */
  method TwoReadings(t: Timer6, g1: Gap, g2: Gap, g3: Gap, between: seq<Gap>, h1: Gap, h2: Gap, h3: Gap)
    returns (ms: u32, ms': u32)
    requires t.Valid() && t.HandlerIdle() && t.past.lost == 0
    requires Room(t.Now(), Length(g1) + Length(g2) + Length(g3)) && !Stale(t.Now(), g1, g2)
    requires var k := Reading(t.Now(), g1, g2, g3);
             && KeepsUp(k, between)
             && Room(PassAll(k, between), Length(h1) + Length(h2) + Length(h3))
             && !Stale(PassAll(k, between), h1, h2)
    modifies t
    ensures t.past.time / 10 < WORD ==> ms <= ms'
  {
    ghost var at, at';
    ms, at := t.GetElapsedMilliseconds(g1, g2, g3);
    ghost var k := t.Now();
    var i := 0;
    while i < |between|
      invariant i <= |between| && t.Valid() && t.HandlerIdle() && t.past.lost == 0
      invariant at <= t.past.time
      invariant KeepsUp(t.Now(), between[i..]) && PassAll(t.Now(), between[i..]) == PassAll(k, between)
    {
      assert between[i..][0] == between[i] && between[i..][1..] == between[i + 1..];
      t.Interlude(between[i]);
      i := i + 1;
    }
    ms', at' := t.GetElapsedMilliseconds(h1, h2, h3);
    Earlier(at, at', t.past.time);
  }

  lemma Earlier(a: nat, b: nat, end: nat)
    requires a <= b <= end
    ensures end / 10 < WORD ==> Milliseconds(a) <= Milliseconds(b)
  {
  }
}
