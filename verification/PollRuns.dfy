/** Runs of turns and arrivals: what the node sent, when a controller is queued twice, when every poll is answered. */
module PollRuns {
  import opened Words
  import opened PollReply

  // ---------------------------------------------------------------- what was sent

  /**
   * A node and its past: the polls that entered the queue, those whose slot was cleared, the replies to these,
   * and the replies so far to the one being answered.
   */
  datatype History = History(
    node: Node, accepted: multiset<Slot>, served: seq<Slot>, done: seq<Reply>, current: seq<Reply>, time: nat)

  function Time(e: Event): nat {
    e.now
  }

  predicate Clears(c: Config, s: Node)
    requires s.index < SLOTS
  {
    !Empty(s.queue[s.index]) && s.running && s.port + 1 >= c.ports
  }

  predicate Accepts(q: Queue, poll: Poll, now: nat) {
    var j := StopsAt(q, poll.ip);
    j < SLOTS && Empty(q[j]) && Wrap(now) != 0
  }

  function Advance(c: Config, h: History, e: Event): History
    requires h.node.index < SLOTS
  {
    match e
    case Arrival(poll, now) =>
      History(h.node.(queue := Add(h.node.queue, poll, now)),
        if Accepts(h.node.queue, poll, now) then h.accepted + multiset{Slot(Wrap(now), poll, now)} else h.accepted,
        h.served, h.done, h.current, now)
    case Run(now) =>
      var s, sent := h.node, h.current + Sends(h.node, now);
      if Clears(c, s) then
        History(Next(c, s, now), h.accepted, h.served + [s.queue[s.index]], h.done + sent, [], now)
      else
        History(Next(c, s, now), h.accepted, h.served, h.done, sent, now)
  }

  /** One reply for each of the first `n` ports, in order, none before the delay had passed. */
  predicate Batch(c: Config, rs: seq<Reply>, slot: Slot, n: nat) {
    && |rs| == n
    && forall k :: 0 <= k < n ==> rs[k].port == k && rs[k].poll == slot.poll && rs[k].arrived == slot.arrived
                                  && rs[k].sent - slot.arrived > c.delay
  }

  /** The replies are one full batch after the other, for the cleared slots in the order of clearing. */
  predicate Answered(c: Config, rs: seq<Reply>, slots: seq<Slot>)
    decreases |slots|
  {
    if slots == [] then rs == []
    else
      |rs| >= c.ports && Batch(c, rs[|rs| - c.ports..], slots[|slots| - 1], c.ports)
      && Answered(c, rs[..|rs| - c.ports], slots[..|slots| - 1])
  }

  function Waiting(q: seq<Slot>): multiset<Slot> {
    if q == [] then multiset{} else One(q[0]) + Waiting(q[1..])
  }

  function One(s: Slot): multiset<Slot> {
    if Empty(s) then multiset{} else multiset{s}
  }

  /** A waiting slot shows the time it was filled at. */
  predicate Stamped(q: Queue, time: nat) {
    forall k :: 0 <= k < SLOTS && !Empty(q[k]) ==> q[k].millis == Wrap(q[k].arrived) && q[k].arrived <= time
  }

  predicate Current(c: Config, s: Node, current: seq<Reply>, time: nat)
    requires s.index < SLOTS
  {
    var slot := s.queue[s.index];
    if s.running then Batch(c, current, slot, s.port) && time - slot.arrived > c.delay else current == []
  }

  predicate HistoryInv(c: Config, h: History) {
    && Inv(c, h.node) && Stamped(h.node.queue, h.time)
    && Answered(c, h.done, h.served) && Current(c, h.node, h.current, h.time)
    && h.accepted == multiset(h.served) + Waiting(h.node.queue)
  }

  lemma {:induction false} WaitingUpdate(q: seq<Slot>, j: nat, s: Slot)
    requires j < |q|
    ensures Waiting(q[j := s]) + One(q[j]) == Waiting(q) + One(s)
  {
    var r := q[j := s];
    if j == 0 {
      assert r[1..] == q[1..];
    } else {
      assert r[1..] == q[1..][j - 1 := s] && r[0] == q[0] && q[1..][j - 1] == q[j];
      WaitingUpdate(q[1..], j - 1, s);
      var a, b, x, y := One(q[0]), Waiting(r[1..]), One(q[j]), Waiting(q[1..]);
      assert a + b + x == a + (b + x) && a + y + One(s) == a + (y + One(s));
    }
  }

  lemma {:induction false} AnsweredMore(c: Config, rs: seq<Reply>, slots: seq<Slot>, batch: seq<Reply>, slot: Slot)
    requires Answered(c, rs, slots) && Batch(c, batch, slot, c.ports)
    ensures Answered(c, rs + batch, slots + [slot])
  {
    var all := rs + batch;
    assert all[|all| - c.ports..] == batch && all[..|all| - c.ports] == rs;
    assert (slots + [slot])[..|slots|] == slots;
  }

  /** An arrival fills an empty slot, if any, and leaves the others alone. */
  lemma AddElsewhere(q: Queue, poll: Poll, now: nat)
    ensures forall k :: 0 <= k < SLOTS && !Empty(q[k]) ==> Add(q, poll, now)[k] == q[k]
  {
  }

  lemma AddKeepsInv(accepted: multiset<Slot>, served: multiset<Slot>, q: Queue, poll: Poll, time: nat, now: nat)
    requires Stamped(q, time) && time <= now && accepted == served + Waiting(q)
    ensures Stamped(Add(q, poll, now), now)
    ensures var slot := Slot(Wrap(now), poll, now);
            (if Accepts(q, poll, now) then accepted + multiset{slot} else accepted)
            == served + Waiting(Add(q, poll, now))
  {
    var j := StopsAt(q, poll.ip);
    StampedAfter(q, j, Slot(Wrap(now), poll, now), time, now);
    if j < SLOTS && Empty(q[j]) { AddedWaiting(accepted, served, q, j, Slot(Wrap(now), poll, now)); }
  }

  lemma StampedAfter(q: Queue, j: nat, slot: Slot, time: nat, now: nat)
    requires Stamped(q, time) && time <= now && slot.millis == Wrap(now) && slot.arrived == now
    ensures Stamped(q, now) && (j < SLOTS ==> Stamped(q[j := slot], now))
  {
  }

  lemma {:induction false} NoneWaiting(q: seq<Slot>)
    requires forall k :: 0 <= k < |q| ==> Empty(q[k])
    ensures Waiting(q) == multiset{}
  {
    if q == [] {
    } else {
      NoneWaiting(q[1..]);
    }
  }

  lemma AddedWaiting(accepted: multiset<Slot>, served: multiset<Slot>, q: Queue, j: nat, slot: Slot)
    requires j < SLOTS && Empty(q[j]) && accepted == served + Waiting(q)
    ensures (if Empty(slot) then accepted else accepted + multiset{slot}) == served + Waiting(q[j := slot])
  {
    WaitingUpdate(q, j, slot);
    assert Waiting(q[j := slot]) == Waiting(q) + One(slot);
    assert served + (Waiting(q) + One(slot)) == accepted + One(slot);
  }

  lemma ServedWaiting(accepted: multiset<Slot>, served: seq<Slot>, q: Queue, j: nat, slot: Slot)
    requires j < SLOTS && !Empty(q[j]) && Empty(slot) && accepted == multiset(served) + Waiting(q)
    ensures accepted == multiset(served + [q[j]]) + Waiting(q[j := slot])
  {
    WaitingUpdate(q, j, slot);
    assert Waiting(q[j := slot]) + multiset{q[j]} == Waiting(q);
    assert multiset(served + [q[j]]) == multiset(served) + multiset{q[j]};
  }

  lemma LastReply(c: Config, rs: seq<Reply>, slot: Slot, now: nat)
    requires Batch(c, rs, slot, |rs|) && now - slot.arrived > c.delay
    ensures Batch(c, rs + [Reply(slot.poll, |rs|, slot.arrived, now)], slot, |rs| + 1)
  {
  }

  lemma StampedAfterClear(q: Queue, j: nat, time: nat, now: nat)
    requires Stamped(q, time) && time <= now && j < SLOTS
    ensures Stamped(q[j := q[j].(millis := 0)], now)
  {
  }

  /** However often the 32-bit milliseconds wrapped, the true time passed is at least their difference. */
  lemma ElapsedAtLeast(now: nat, arrived: nat)
    requires arrived <= now
    ensures Wrap(Wrap(now) - Wrap(arrived)) <= now - arrived
  {
  }

  lemma ArrivalKeepsInv(c: Config, h: History, poll: Poll, now: nat)
    requires HistoryInv(c, h) && h.time <= now
    ensures HistoryInv(c, Advance(c, h, Arrival(poll, now)))
  {
    AddKeepsInv(h.accepted, multiset(h.served), h.node.queue, poll, h.time, now);
    AddElsewhere(h.node.queue, poll, now);
  }

  lemma RunOnKeepsInv(c: Config, h: History, now: nat)
    requires HistoryInv(c, h) && h.time <= now && c.ports > 0 && !Clears(c, h.node)
    ensures HistoryInv(c, Advance(c, h, Run(now)))
  {
    var slot := h.node.queue[h.node.index];
    if !Empty(slot) && !h.node.running { ElapsedAtLeast(now, slot.arrived); }
  }

  lemma StepKeepsInv(c: Config, h: History, e: Event)
    requires HistoryInv(c, h) && h.time <= Time(e) && c.ports > 0
    ensures HistoryInv(c, Advance(c, h, e))
  {
    match e
    case Arrival(poll, now) => ArrivalKeepsInv(c, h, poll, now);
    case Run(now) =>
      var s := h.node;
      if Clears(c, s) {
        var slot := s.queue[s.index];
        LastReply(c, h.current, slot, now);
        AnsweredMore(c, h.done, h.served, h.current + Sends(s, now), slot);
        ServedWaiting(h.accepted, h.served, s.queue, s.index, slot.(millis := 0));
        StampedAfterClear(s.queue, s.index, h.time, now);
      } else {
        RunOnKeepsInv(c, h, now);
      }
  }

  predicate LegalRun(time: nat, es: seq<Event>)
    decreases |es|
  {
    es == [] || (time <= Time(es[0]) && LegalRun(Time(es[0]), es[1..]))
  }

  function Final(c: Config, h: History, es: seq<Event>): (h': History)
    requires HistoryInv(c, h) && c.ports > 0 && LegalRun(h.time, es)
    ensures HistoryInv(c, h')
    decreases |es|
  {
    if es == [] then h
    else
      StepKeepsInv(c, h, es[0]);
      Final(c, Advance(c, h, es[0]), es[1..])
  }

  function Start(c: Config): (h: History)
    ensures HistoryInv(c, h) && h.time == 0
    ensures AllEmpty(h.node.queue) && h.node.index == 0 && !h.node.running
  {
    var slot := Slot(0, Poll(0, 0, 0), 0);
    var q: Queue := [slot, slot, slot, slot];
    NoneWaiting(q);
    History(Node(q, 0, false, 0), multiset{}, [], [], [], 0)
  }

  /**
   * In every run from power-on, however calls and arrivals interleave: each accepted poll is still waiting or its slot
   * was cleared, and what was sent is one full batch for each cleared slot, and the first replies of the current one.
   */
  lemma EveryPollAnsweredOnce(c: Config, es: seq<Event>)
    requires c.ports > 0 && LegalRun(0, es)
    ensures var h := Final(c, Start(c), es);
            && h.accepted == multiset(h.served) + Waiting(h.node.queue)
            && |h.done| == |h.served| * c.ports
            && (forall i, k :: 0 <= i < |h.served| && 0 <= k < c.ports ==> ReplyOf(c, h.done, h.served, i, k))
            && Current(c, h.node, h.current, h.time)
  {
    var h := Final(c, Start(c), es);
    BatchCount(c, h.done, h.served);
    forall i, k | 0 <= i < |h.served| && 0 <= k < c.ports ensures ReplyOf(c, h.done, h.served, i, k) {
      BatchAt(c, h.done, h.served, i, k);
    }
  }

  /** Reply `k` of batch `i` is for port `k` and slot `i`, and not too early. */
  predicate ReplyOf(c: Config, rs: seq<Reply>, slots: seq<Slot>, i: nat, k: nat)
    requires i < |slots|
  {
    && i * c.ports + k < |rs|
    && var r := rs[i * c.ports + k];
       r.port == k && r.poll == slots[i].poll && r.arrived == slots[i].arrived && r.sent - r.arrived > c.delay
  }

  lemma {:induction false} BatchCount(c: Config, rs: seq<Reply>, slots: seq<Slot>)
    requires Answered(c, rs, slots)
    ensures |rs| == |slots| * c.ports
    decreases |slots|
  {
    if slots == [] {
    } else {
      BatchCount(c, rs[..|rs| - c.ports], slots[..|slots| - 1]);
    }
  }

  lemma {:induction false} BatchAt(c: Config, rs: seq<Reply>, slots: seq<Slot>, i: nat, k: nat)
    requires Answered(c, rs, slots) && i < |slots| && k < c.ports
    ensures ReplyOf(c, rs, slots, i, k)
    decreases |slots|
  {
    var front, n := rs[..|rs| - c.ports], |slots| - 1;
    BatchCount(c, front, slots[..n]);
    if i < n {
      BatchAt(c, front, slots[..n], i, k);
    } else {
      assert rs[i * c.ports + k] == rs[|rs| - c.ports..][k];
    }
  }

  // ---------------------------------------------------------------- no controller twice

  /**
   * A poll is accepted if and only if an empty slot comes before every slot of the same controller, and the clock
   * does not show 0. So a controller can be queued twice, behind a slot that was cleared.
   */
  lemma AcceptedWhen(q: Queue, poll: Poll, now: nat)
    ensures Accepts(q, poll, now)
       <==> Wrap(now) != 0
            && (exists j :: 0 <= j < SLOTS && Empty(q[j])
                            && (forall k :: 0 <= k < j ==> q[k].poll.ip != poll.ip || Empty(q[k])))
  {
    var j := StopsAt(q, poll.ip);
    if j < SLOTS && !Empty(q[j]) {
      assert forall i :: 0 <= i < SLOTS && Empty(q[i]) ==> i > j;
    }
  }

  /** No controller waits in two slots. */
  predicate NoTwice(q: Queue) {
    forall j, k :: 0 <= j < k < SLOTS && !Empty(q[j]) && !Empty(q[k]) ==> q[j].poll.ip != q[k].poll.ip
  }

  predicate IsWaiting(q: Queue, ip: u32) {
    exists k :: 0 <= k < SLOTS && !Empty(q[k]) && q[k].poll.ip == ip
  }

  /** An arrival queues a controller a second time if and only if it is accepted while the controller waits. */
  lemma AddKeepsNoTwice(q: Queue, poll: Poll, now: nat)
    requires NoTwice(q)
    ensures NoTwice(Add(q, poll, now)) <==> !(Accepts(q, poll, now) && IsWaiting(q, poll.ip))
  {
    var q', j := Add(q, poll, now), StopsAt(q, poll.ip);
    if Accepts(q, poll, now) && IsWaiting(q, poll.ip) {
      var k :| 0 <= k < SLOTS && !Empty(q[k]) && q[k].poll.ip == poll.ip;
      assert j < k && q'[j].poll.ip == q'[k].poll.ip;
    }
  }

  lemma RunKeepsNoTwice(c: Config, s: Node, now: nat)
    requires Inv(c, s) && NoTwice(s.queue)
    ensures NoTwice(Next(c, s, now).queue)
  {
  }

  ghost predicate NoTwiceThroughout(c: Config, h: History, es: seq<Event>)
    requires HistoryInv(c, h) && c.ports > 0 && LegalRun(h.time, es)
    decreases |es|
  {
    NoTwice(h.node.queue) &&
    (es == [] || (StepKeepsInv(c, h, es[0]); NoTwiceThroughout(c, Advance(c, h, es[0]), es[1..])))
  }

  /** No arrival is accepted while its controller waits. */
  ghost predicate OneAtATime(c: Config, h: History, es: seq<Event>)
    requires HistoryInv(c, h) && c.ports > 0 && LegalRun(h.time, es)
    decreases |es|
  {
    es == [] ||
    (&& !(es[0].Arrival? && Accepts(h.node.queue, es[0].poll, es[0].now) && IsWaiting(h.node.queue, es[0].poll.ip))
     && (StepKeepsInv(c, h, es[0]); OneAtATime(c, Advance(c, h, es[0]), es[1..])))
  }

  /** In a run no controller is ever queued twice if and only if no arrival is accepted while its controller waits. */
  lemma {:induction false} NeverQueuedTwice(c: Config, h: History, es: seq<Event>)
    requires HistoryInv(c, h) && c.ports > 0 && LegalRun(h.time, es) && NoTwice(h.node.queue)
    ensures NoTwiceThroughout(c, h, es) <==> OneAtATime(c, h, es)
    decreases |es|
  {
    if es == [] {
    } else {
      var h' := Advance(c, h, es[0]);
      StepKeepsInv(c, h, es[0]);
      match es[0] {
        case Arrival(poll, now) => AddKeepsNoTwice(h.node.queue, poll, now);
        case Run(now) => RunKeepsNoTwice(c, h.node, now);
      }
      if NoTwice(h'.node.queue) { NeverQueuedTwice(c, h', es[1..]); }
    }
  }

  /** The node without its history. */
  function Effect(c: Config, s: Node, e: Event): (s': Node)
    requires Inv(c, s) && c.ports > 0
    ensures Inv(c, s')
  {
    match e
    case Arrival(poll, now) => s.(queue := Add(s.queue, poll, now))
    case Run(now) => Next(c, s, now)
  }

  function Nodes(c: Config, s: Node, es: seq<Event>): Node
    requires Inv(c, s) && c.ports > 0
    decreases |es|
  {
    if es == [] then s else Nodes(c, Effect(c, s, es[0]), es[1..])
  }

  lemma {:induction false} NodesOfRun(c: Config, h: History, es: seq<Event>)
    requires HistoryInv(c, h) && c.ports > 0 && LegalRun(h.time, es)
    ensures Nodes(c, h.node, es) == Final(c, h, es).node
    decreases |es|
  {
    if es == [] {
    } else {
      StepKeepsInv(c, h, es[0]);
      NodeOfStep(c, h, es[0]);
      NodesOfRun(c, Advance(c, h, es[0]), es[1..]);
    }
  }

  lemma NodeOfStep(c: Config, h: History, e: Event)
    requires Inv(c, h.node) && c.ports > 0
    ensures Advance(c, h, e).node == Effect(c, h.node, e)
  {
  }

  lemma NodesCons(c: Config, s: Node, e: Event, es: seq<Event>)
    requires Inv(c, s) && c.ports > 0
    ensures Nodes(c, s, [e] + es) == Nodes(c, Effect(c, s, e), es)
  {
    assert ([e] + es)[1..] == es;
  }

  /** A controller that waits in slot 1 polls again when slot 0 is free. */
  lemma TakesSlotInFront(q: Queue, poll: Poll, now: nat)
    requires Empty(q[0]) && !Empty(q[1]) && q[1].poll.ip == poll.ip && Wrap(now) != 0
    ensures !NoTwice(Add(q, poll, now))
  {
    var q' := Add(q, poll, now);
    assert q'[0].poll.ip == q'[1].poll.ip;
  }

  /** So it happens from power-on: two controllers poll, the first is answered, the second polls again in between. */
  lemma QueuedTwice(c: Config, a: Poll, b: Poll) returns (es: seq<Event>)
    requires c == Config(1, 0) && a.ip != b.ip
    ensures LegalRun(0, es) && !NoTwice(Final(c, Start(c), es).node.queue)
  {
    es := QueuedTwiceFrom(c, Start(c).node, a, b);
    NodesOfRun(c, Start(c), es);
  }

  lemma QueuedTwiceFrom(c: Config, s: Node, a: Poll, b: Poll) returns (es: seq<Event>)
    requires c == Config(1, 0) && a.ip != b.ip && AllEmpty(s.queue) && s.index == 0 && !s.running
    ensures LegalRun(0, es) && !NoTwice(Nodes(c, s, es).queue)
  {
    var s1 := Effect(c, s, Arrival(a, 1));
    var s2 := Effect(c, s1, Arrival(b, 1));
    var s3 := Effect(c, s2, Run(2));
    var s4 := Effect(c, s3, Run(2));
    FirstAnswered(c, s, a, b, s1, s2, s3, s4);
    TakesSlotInFront(s4.queue, b, 3);
    var t: seq<Event> := [Run(2)] + [Arrival(b, 3)];
    es := [Arrival(a, 1)] + ([Arrival(b, 1)] + ([Run(2)] + t));
    NodesCons(c, s, Arrival(a, 1), [Arrival(b, 1)] + ([Run(2)] + t));
    NodesCons(c, s1, Arrival(b, 1), [Run(2)] + t);
    NodesCons(c, s2, Run(2), t);
    NodesCons(c, s3, Run(2), [Arrival(b, 3)]);
    LegalSteps(a, b, es);
  }

  lemma LegalSteps(a: Poll, b: Poll, es: seq<Event>)
    requires es == [Arrival(a, 1), Arrival(b, 1), Run(2), Run(2), Arrival(b, 3)]
    ensures LegalRun(0, es)
  {
    var t2 := es[1..][1..];
    assert t2 == [Run(2), Run(2), Arrival(b, 3)] && t2[1..][1..] == [Arrival(b, 3)];
    assert LegalRun(3, t2[1..][1..][1..]) && LegalRun(2, t2[1..][1..]) && LegalRun(2, t2[1..]);
    assert LegalRun(1, t2) && LegalRun(1, es[1..]);
  }

  lemma FirstAnswered(c: Config, s0: Node, a: Poll, b: Poll, s1: Node, s2: Node, s3: Node, s4: Node)
    requires c == Config(1, 0) && a.ip != b.ip && AllEmpty(s0.queue) && s0.index == 0 && !s0.running
    requires s1 == s0.(queue := Add(s0.queue, a, 1)) && s2 == s1.(queue := Add(s1.queue, b, 1))
    requires s3 == Next(c, s2, 2) && s4 == Next(c, s3, 2)
    ensures Empty(s4.queue[0]) && !Empty(s4.queue[1]) && s4.queue[1].poll.ip == b.ip
  {
    SmallTimes();
    assert StopsAt(s0.queue, a.ip) == 0;
    assert s1.queue[0] == Slot(1, a, 1) && Empty(s1.queue[1]);
    assert StopsAt(s1.queue[1..], b.ip) == 0;
    assert s2.queue[0] == Slot(1, a, 1) && s2.queue[1] == Slot(1, b, 1);
    assert s3.running && s3.port == 0 && s3.queue == s2.queue;
  }

  lemma SmallTimes()
    ensures Wrap(1) == 1 && Wrap(2) == 2 && Wrap(2 - 1) == 1
  {
  }

  // ---------------------------------------------------------------- draining

  /** The delay of every waiting poll is over, as the node sees it. */
  predicate Due(c: Config, q: Queue, now: nat) {
    forall k :: 0 <= k < SLOTS && !Empty(q[k]) ==> Wrap(Wrap(now) - q[k].millis) > c.delay
  }

  function Work(q: seq<Slot>, w: nat): nat {
    if q == [] then 0 else (if Empty(q[0]) then 0 else w) + Work(q[1..], w)
  }

  lemma {:induction false} WorkUpdate(q: seq<Slot>, j: nat, s: Slot, w: nat)
    requires j < |q| && !Empty(q[j]) && Empty(s)
    ensures Work(q[j := s], w) + w == Work(q, w)
  {
    var r := q[j := s];
    if j == 0 {
      assert r[1..] == q[1..];
    } else {
      assert r[1..] == q[1..][j - 1 := s];
      WorkUpdate(q[1..], j - 1, s, w);
    }
  }

  lemma {:induction false} WorkAtLeast(q: seq<Slot>, j: nat, w: nat)
    requires j < |q| && !Empty(q[j])
    ensures Work(q, w) >= w
  {
    if j == 0 {
    } else {
      WorkAtLeast(q[1..], j - 1, w);
    }
  }

  function Ring(q: Queue, i: nat): Slot {
    q[i % SLOTS]
  }

  /** Calls until the index is at a waiting poll. */
  function Distance(q: Queue, i: nat): nat {
    if AllEmpty(q) || !Empty(Ring(q, i)) then 0
    else if !Empty(Ring(q, i + 1)) then 1
    else if !Empty(Ring(q, i + 2)) then 2
    else 3
  }

  /** An upper bound on the calls that empty the queue. */
  function Measure(c: Config, s: Node): nat
    requires Inv(c, s)
  {
    if s.running then WorkAtLeast(s.queue, s.index, c.ports + 5); Work(s.queue, c.ports + 5) - 1 - s.port
    else Work(s.queue, c.ports + 5) + Distance(s.queue, s.index)
  }

  /** A turn brings the queue closer to empty if the delays are over, and does no harm if it comes too early. */
  lemma RunDecreases(c: Config, s: Node, now: nat)
    requires Inv(c, s) && c.ports > 0 && !AllEmpty(s.queue)
    ensures Inv(c, Next(c, s, now)) && Measure(c, Next(c, s, now)) <= Measure(c, s)
    ensures Due(c, s.queue, now) ==> Measure(c, Next(c, s, now)) < Measure(c, s)
  {
    if Clears(c, s) {
      ClearDecreases(c, s, now);
    } else if Empty(s.queue[s.index]) {
      DistanceFalls(s.queue, s.index);
    } else {
      NoDistance(s.queue, s.index);
    }
  }

  lemma ClearDecreases(c: Config, s: Node, now: nat)
    requires Inv(c, s) && c.ports > 0 && Clears(c, s)
    ensures Inv(c, Next(c, s, now)) && Measure(c, Next(c, s, now)) < Measure(c, s)
  {
    WorkAtLeast(s.queue, s.index, c.ports + 5);
    WorkUpdate(s.queue, s.index, s.queue[s.index].(millis := 0), c.ports + 5);
    DistanceBound(Next(c, s, now).queue, s.index);
  }

  lemma DistanceBound(q: Queue, i: nat)
    ensures Distance(q, i) <= 3
  {
  }

  lemma NoDistance(q: Queue, i: nat)
    requires i < SLOTS && !Empty(q[i])
    ensures Distance(q, i) == 0
  {
  }

  lemma DistanceFalls(q: Queue, i: nat)
    requires i < SLOTS && Empty(q[i]) && !AllEmpty(q)
    ensures Distance(q, if i + 1 == SLOTS then 0 else i + 1) < Distance(q, i)
  {
    assert i == 0 || i == 1 || i == 2 || i == 3;
  }

  /** Without new polls. */
  function AfterCalls(c: Config, s: Node, nows: seq<nat>): Node
    requires Inv(c, s) && c.ports > 0
    decreases |nows|
  {
    if nows == [] then s else AfterCalls(c, Next(c, s, nows[0]), nows[1..])
  }

  /** How many of the turns come when all delays are over. */
  function DueCalls(c: Config, q: Queue, nows: seq<nat>): nat
    decreases |nows|
  {
    if nows == [] then 0 else (if Due(c, q, nows[0]) then 1 else 0) + DueCalls(c, q, nows[1..])
  }

  /** As many such turns as the measure says empty the queue, whatever other turns lie between them. */
  lemma {:induction false} QueueDrains(c: Config, s: Node, nows: seq<nat>)
    requires Inv(c, s) && c.ports > 0 && DueCalls(c, s.queue, nows) >= Measure(c, s)
    ensures AllEmpty(AfterCalls(c, s, nows).queue)
    decreases |nows|
  {
    if AllEmpty(s.queue) {
      StaysEmpty(c, s, nows);
    } else {
      var k :| 0 <= k < SLOTS && !Empty(s.queue[k]);
      WorkAtLeast(s.queue, k, c.ports + 5);
      var s' := Next(c, s, nows[0]);
      RunDecreases(c, s, nows[0]);
      StayDueCalls(c, s, nows[0], nows[1..]);
      QueueDrains(c, s', nows[1..]);
    }
  }

  lemma {:induction false} StayDueCalls(c: Config, s: Node, now: nat, nows: seq<nat>)
    requires Inv(c, s)
    ensures DueCalls(c, Next(c, s, now).queue, nows) >= DueCalls(c, s.queue, nows)
    decreases |nows|
  {
    if nows == [] {
    } else {
      if Due(c, s.queue, nows[0]) { StaysDue(c, s, now, nows[0]); }
      StayDueCalls(c, s, now, nows[1..]);
    }
  }

  /** In true times: the node sees a delay as over if and only if the time passed, modulo 2^32, exceeds it. */
  lemma DueWhen(c: Config, q: Queue, time: nat, now: nat)
    requires Stamped(q, time) && time <= now
    ensures Due(c, q, now)
       <==> forall k :: 0 <= k < SLOTS && !Empty(q[k]) ==> Wrap(now - q[k].arrived) > c.delay
  {
    forall k | 0 <= k < SLOTS && !Empty(q[k])
      ensures Wrap(Wrap(now) - q[k].millis) == Wrap(now - q[k].arrived)
    {
      WrapDifference(now, q[k].arrived);
    }
  }

  lemma WrapDifference(a: int, b: int)
    ensures Wrap(Wrap(a) - Wrap(b)) == Wrap(a - b)
  {
  }

  /** At `now` every waiting poll has waited longer than the delay, and less than 2^32 milliseconds. */
  predicate Waited(c: Config, q: Queue, now: nat) {
    forall k :: 0 <= k < SLOTS && !Empty(q[k]) ==> c.delay < now - q[k].arrived < WORD
  }

  lemma WaitedIsDue(c: Config, q: Queue, time: nat, now: nat)
    requires Stamped(q, time) && time <= now && Waited(c, q, now)
    ensures Due(c, q, now)
  {
    DueWhen(c, q, time, now);
    forall k | 0 <= k < SLOTS && !Empty(q[k]) ensures Wrap(now - q[k].arrived) > c.delay {
      WrapsToItself(now - q[k].arrived);
    }
  }

  function WaitedCalls(c: Config, q: Queue, nows: seq<nat>): nat
    decreases |nows|
  {
    if nows == [] then 0 else (if Waited(c, q, nows[0]) then 1 else 0) + WaitedCalls(c, q, nows[1..])
  }

  lemma {:induction false} WaitedCallsAreDue(c: Config, q: Queue, time: nat, nows: seq<nat>)
    requires Stamped(q, time) && LegalRun(time, Turns(nows))
    ensures DueCalls(c, q, nows) >= WaitedCalls(c, q, nows)
    decreases |nows|
  {
    if nows == [] {
    } else {
      assert Turns(nows)[1..] == Turns(nows[1..]);
      if Waited(c, q, nows[0]) { WaitedIsDue(c, q, time, nows[0]); }
      WaitedCallsAreDue(c, q, nows[0], nows[1..]);
    }
  }

  function Turns(nows: seq<nat>): seq<Event>
    decreases |nows|
  {
    if nows == [] then [] else [Run(nows[0])] + Turns(nows[1..])
  }

  lemma {:induction false} TurnsAreCalls(c: Config, s: Node, nows: seq<nat>)
    requires Inv(c, s) && c.ports > 0
    ensures Nodes(c, s, Turns(nows)) == AfterCalls(c, s, nows)
    decreases |nows|
  {
    if nows == [] {
    } else {
      assert Turns(nows)[1..] == Turns(nows[1..]);
      TurnsAreCalls(c, Next(c, s, nows[0]), nows[1..]);
    }
  }

  /**
   * In true times, from any state of a run: once as many turns as the measure says have come at times when every poll
   * had waited its delay, the queue is empty and every poll ever accepted is answered.
   */
  lemma AllAnsweredInTime(c: Config, h: History, nows: seq<nat>)
    requires HistoryInv(c, h) && c.ports > 0 && LegalRun(h.time, Turns(nows))
    requires WaitedCalls(c, h.node.queue, nows) >= Measure(c, h.node)
    ensures AllEmpty(Final(c, h, Turns(nows)).node.queue)
    ensures Final(c, h, Turns(nows)).accepted == multiset(Final(c, h, Turns(nows)).served)
  {
    WaitedCallsAreDue(c, h.node.queue, h.time, nows);
    QueueDrains(c, h.node, nows);
    TurnsAreCalls(c, h.node, nows);
    NodesOfRun(c, h, Turns(nows));
    NoneWaiting(Final(c, h, Turns(nows)).node.queue);
  }

  lemma StaysDue(c: Config, s: Node, now: nat, later: nat)
    requires Inv(c, s) && Due(c, s.queue, later)
    ensures Due(c, Next(c, s, now).queue, later)
  {
  }

  lemma {:induction false} StaysEmpty(c: Config, s: Node, nows: seq<nat>)
    requires Inv(c, s) && c.ports > 0 && AllEmpty(s.queue)
    ensures AfterCalls(c, s, nows).queue == s.queue
    decreases |nows|
  {
    if nows == [] {
    } else {
      StaysEmpty(c, Next(c, s, nows[0]), nows[1..]);
    }
  }
}
