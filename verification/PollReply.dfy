/**
 * The Art-Net poll-reply queue: `PollReplyQueueAdd` (lib-artnet/src/node/artnetnodehandlepoll.cpp) fills it,
 * `ArtNetNode::Run` (lib-artnet/include/artnetnode_inline_impl.h) answers from it, one port a call.
 */
module PollReply {
  import opened Words

  const SLOTS := 4

  /** What a controller asked. */
  datatype Poll = Poll(ip: u32, bottom: int, top: int)

  /** `art_poll_millis` is 0 in an empty slot. `arrived` is the true time it was set at. */
  datatype Slot = Slot(millis: u32, poll: Poll, arrived: nat)

  type Queue = q: seq<Slot> | |q| == SLOTS ghost witness seq(SLOTS, i => Slot(0, Poll(0, 0, 0), 0))

  /** A call of `SendPollReply`. */
  datatype Reply = Reply(poll: Poll, port: nat, arrived: nat, sent: nat)

  datatype Node = Node(queue: Queue, index: nat, running: bool, port: nat)

  /** `kMaxPorts` and the delay, taken from the MAC address. */
  datatype Config = Config(ports: nat, delay: u32)

  predicate Empty(s: Slot) {
    s.millis == 0
  }

  /** True time in milliseconds; the clock of the node shows it modulo 2^32. */
  datatype Event = Run(now: nat) | Arrival(poll: Poll, now: nat)

  predicate AllEmpty(q: Queue) {
    forall k :: 0 <= k < SLOTS ==> Empty(q[k])
  }

  // ---------------------------------------------------------------- arrivals

  /** The first slot the scan stops at: the controller's own, or an empty one. `SLOTS` if there is none. */
  function StopsAt(q: seq<Slot>, ip: u32): (j: nat)
    ensures j <= |q|
    ensures forall k :: 0 <= k < j ==> !Empty(q[k]) && q[k].poll.ip != ip
    ensures j < |q| ==> Empty(q[j]) || q[j].poll.ip == ip
  {
    if q == [] || Empty(q[0]) || q[0].poll.ip == ip then 0 else 1 + StopsAt(q[1..], ip)
  }

  /** Slot `k` is the first empty one, and no slot before it waits for the controller. */
  predicate FirstFree(q: Queue, ip: u32, k: nat) {
    k < SLOTS && q[k].millis == 0 && forall j :: 0 <= j < k ==> q[j].millis != 0 && q[j].poll.ip != ip
  }

  function Add(q: Queue, poll: Poll, now: nat): Queue {
    var j := StopsAt(q, poll.ip);
    if j < SLOTS && Empty(q[j]) then q[j := Slot(Wrap(now), poll, now)] else q
  }

  // ---------------------------------------------------------------- Run

  predicate Inv(c: Config, s: Node) {
    s.index < SLOTS && (s.running ==> !Empty(s.queue[s.index]) && s.port < c.ports)
  }

  function Next(c: Config, s: Node, now: nat): Node
    requires s.index < SLOTS
  {
    var entry := s.queue[s.index];
    if Empty(entry) then s.(index := if s.index + 1 == SLOTS then 0 else s.index + 1)
    else if !s.running then
      if Wrap(Wrap(now) - entry.millis) > c.delay then s.(running := true, port := 0) else s
    else if s.port + 1 >= c.ports then
      Node(s.queue[s.index := entry.(millis := 0)], s.index, false, s.port + 1)
    else s.(port := s.port + 1)
  }

  /** The reply a call sends, if any. */
  function Sends(s: Node, now: nat): seq<Reply>
    requires s.index < SLOTS
  {
    var entry := s.queue[s.index];
    if !Empty(entry) && s.running then [Reply(entry.poll, s.port, entry.arrived, now)] else []
  }

  // ---------------------------------------------------------------- in place

  class ArtNetNode {
    const config: Config
    const queue: array<Slot>
    var index: nat
    var running: bool
    var port: nat
    /** The calls of `SendPollReply`. */
    ghost var sent: seq<Reply>

    ghost predicate Valid()
      reads this, queue
    {
      queue.Length == SLOTS && config.ports > 0 && Inv(config, State())
    }

    ghost function State(): Node
      requires queue.Length == SLOTS
      reads this, queue
    {
      Node(queue[..], index, running, port)
    }

    constructor (config: Config)
      requires config.ports > 0
      ensures Valid() && this.config == config && fresh(queue) && !running && sent == []
      ensures forall k :: 0 <= k < SLOTS ==> Empty(queue[k])
    {
      this.config := config;
      queue := new Slot[SLOTS](_ => Slot(0, Poll(0, 0, 0), 0));
      index, running, port, sent := 0, false, 0, [];
    }

    method PollReplyQueueAdd(poll: Poll, now: nat)
      requires Valid()
      modifies queue
      ensures Valid() && State() == old(State()).(queue := Add(old(queue[..]), poll, now))
      ensures forall k :: 0 <= k < SLOTS && queue[k] != old(queue[k]) ==>
                queue[k] == Slot(Wrap(now), poll, now) && FirstFree(old(queue[..]), poll.ip, k)
      ensures forall k :: 0 <= k < SLOTS && FirstFree(old(queue[..]), poll.ip, k) ==>
                queue[k] == Slot(Wrap(now), poll, now)
    {
      ghost var j := StopsAt(queue[..], poll.ip);
      var done := false;
      for i := 0 to SLOTS
        invariant !done ==> i <= j && queue[..] == old(queue[..])
        invariant done ==> queue[..] == Add(old(queue[..]), poll, now)
      {
        if !done {
          if queue[i].poll.ip == poll.ip && queue[i].millis != 0 {
            done := true;
          } else if queue[i].millis == 0 {
            queue[i] := Slot(Wrap(now), poll, now);
            done := true;
          }
        }
      }
    }

    method Run(now: nat)
      requires Valid()
      modifies this`index, this`running, this`port, this`sent, queue
      ensures Valid() && State() == Next(config, old(State()), now)
      ensures sent == old(sent) + Sends(old(State()), now)
      ensures var slot := old(queue[index]);
              && (forall k :: 0 <= k < SLOTS && k != old(index) ==> queue[k] == old(queue[k]))
              && if slot.millis == 0 then
                   && queue[old(index)] == slot && sent == old(sent) && running == old(running)
                   && index == (old(index) + 1) % SLOTS
                 else
                   && index == old(index)
                   && if !old(running) then
                        && queue[index] == slot && sent == old(sent)
                        && (running <==> Wrap(now - slot.millis) > config.delay) && (running ==> port == 0)
                      else
                        && sent == old(sent) + [Reply(slot.poll, old(port), slot.arrived, now)]
                        && if old(port) + 1 < config.ports then queue[index] == slot && running && port == old(port) + 1
                           else queue[index] == slot.(millis := 0) && !running
    {
      var entry := queue[index];
      if entry.millis != 0 {
        if !running {
          if Wrap(Wrap(now) - entry.millis) > config.delay {
            running := true;
            port := 0;
          }
        } else {
          sent := sent + [Reply(entry.poll, port, entry.arrived, now)];
          port := port + 1;
          if port >= config.ports {
            queue[index] := entry.(millis := 0);
            running := false;
          }
        }
      } else {
        index := index + 1;
        if index == SLOTS {
          index := 0;
        }
      }
    }
  }
}
