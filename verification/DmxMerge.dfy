/** lib-dmxnode/include/dmxnodedata.h: one output port, fed by two sources whose packets are merged slot by slot. */
module DmxMerge {
  import opened Words

  const UNIVERSE := 512

  type Packet = p: seq<byte> | |p| <= UNIVERSE

  type Universe = u: seq<byte> | |u| == UNIVERSE witness seq(UNIVERSE, _ => 0)

  datatype Source = A | B
  datatype MergeMode = Htp | Ltp

  datatype Event =
    | Merge(source: Source, packet: Packet, mode: MergeMode)
    | Clear
    | ClearLength
    | Restore(saved: Universe)

  /** The two stored sources, the output and its length. */
  datatype Port = Port(a: Universe, b: Universe, data: Universe, length: nat)

  function Zero(): Universe {
    seq(UNIVERSE, _ => 0)
  }

  /** The static instance. */
  function Initial(): Port {
    Port(Zero(), Zero(), Zero(), 0)
  }

  /** `memcpy`: the packet over the first slots. */
  function Over(u: Universe, p: Packet): Universe {
    p + u[|p|..]
  }

  /** The larger of two universes in the first `n` slots, `u` in the others. */
  function Merged(u: Universe, a: Universe, b: Universe, n: nat): Universe
    requires n <= UNIVERSE
  {
    seq(UNIVERSE, i requires 0 <= i < UNIVERSE => if i < n then Max(a[i], b[i]) else u[i])
  }

  function Apply(s: Port, e: Event): Port {
    match e
    case Merge(source, p, mode) =>
      var a := if source == A then Over(s.a, p) else s.a;
      var b := if source == B then Over(s.b, p) else s.b;
      Port(a, b, if mode == Htp then Merged(s.data, a, b, |p|) else Over(s.data, p), |p|)
    case Clear => Port(s.a, s.b, Zero(), UNIVERSE)
    case ClearLength => Port(s.a, s.b, s.data, 0)
    case Restore(saved) => Port(s.a, s.b, saved, s.length)
  }

  // ---------------------------------------------------------------- in place

  class Data {
    const sourceA: array<byte>
    const sourceB: array<byte>
    const data: array<byte>
    var length: nat

    ghost predicate Valid()
      reads this
    {
      && sourceA.Length == sourceB.Length == data.Length == UNIVERSE
      && sourceA != sourceB && sourceA != data && sourceB != data
    }

    ghost function State(): Port
      requires Valid()
      reads this, sourceA, sourceB, data
    {
      Port(sourceA[..], sourceB[..], data[..], length)
    }

    constructor ()
      ensures Valid() && fresh(sourceA) && fresh(sourceB) && fresh(data)
      ensures State() == Initial()
    {
      sourceA := new byte[UNIVERSE](_ => 0);
      sourceB := new byte[UNIVERSE](_ => 0);
      data := new byte[UNIVERSE](_ => 0);
      length := 0;
    }

    method MergeSourceA(p: Packet, mode: MergeMode)
      requires Valid()
      modifies this`length, sourceA, data
      ensures State() == Apply(old(State()), Merge(A, p, mode)) && length == |p|
    {
      Copy(sourceA, p);
      length := |p|;
      if mode == Htp {
        MergeSlots(|p|);
      } else {
        Copy(data, p);
      }
    }

    method MergeSourceB(p: Packet, mode: MergeMode)
      requires Valid()
      modifies this`length, sourceB, data
      ensures State() == Apply(old(State()), Merge(B, p, mode)) && length == |p|
    {
      Copy(sourceB, p);
      length := |p|;
      if mode == Htp {
        MergeSlots(|p|);
      } else {
        Copy(data, p);
      }
    }

    method MergeSlots(n: nat)
      requires Valid() && n <= UNIVERSE
      modifies data
      ensures data[..] == Merged(old(data[..]), sourceA[..], sourceB[..], n)
    {
      for i := 0 to n
        invariant forall k :: 0 <= k < UNIVERSE ==>
                    data[k] == if k < i then Max(sourceA[k], sourceB[k]) else old(data[k])
      {
        data[i] := Max(sourceA[i], sourceB[i]);
      }
    }

    method Clear()
      requires Valid()
      modifies this`length, data
      ensures State() == Apply(old(State()), Event.Clear) && length == UNIVERSE
    {
      Copy(data, Zero());
      length := UNIVERSE;
    }

    method ClearLength()
      requires Valid()
      modifies this`length
      ensures State() == Apply(old(State()), Event.ClearLength) && length == 0
    {
      length := 0;
    }

    method Restore(saved: Universe)
      requires Valid()
      modifies data
      ensures State() == Apply(old(State()), Event.Restore(saved)) && length == old(length)
    {
      Copy(data, saved);
    }
  }

  method Copy(dst: array<byte>, src: Packet)
    requires dst.Length == UNIVERSE
    modifies dst
    ensures dst[..] == Over(old(dst[..]), src)
  {
    for i := 0 to |src|
      invariant forall k :: 0 <= k < UNIVERSE ==> dst[k] == if k < i then src[k] else old(dst[k])
    {
      dst[i] := src[i];
    }
  }

  // ---------------------------------------------------------------- runs

  function Final(es: seq<Event>): Port {
    if es == [] then Initial() else Apply(Final(es[..|es| - 1]), es[|es| - 1])
  }

  predicate Writes(e: Event, i: nat) {
    match e
    case Merge(_, p, _) => i < |p|
    case Clear => true
    case ClearLength => false
    case Restore(_) => true
  }

  /** What an event makes of a slot it writes, given the sources as they are at the end of the run. */
  function Written(e: Event, i: nat, a: byte, b: byte): byte
    requires i < UNIVERSE && Writes(e, i)
  {
    match e
    case Merge(source, p, mode) => if mode == Htp then Max(a, b) else if source == A then a else b
    case Clear => 0
    case Restore(saved) => saved[i]
  }

  /** A source slot is what the last long enough packet of that source said, in every run. */
  function SourceSlot(es: seq<Event>, source: Source, i: nat): byte {
    if es == [] then 0
    else
      var e := es[|es| - 1];
      if e.Merge? && e.source == source && i < |e.packet| then e.packet[i] else SourceSlot(es[..|es| - 1], source, i)
  }

  lemma {:induction false} StoredSources(es: seq<Event>, i: nat)
    requires i < UNIVERSE
    ensures Final(es).a[i] == SourceSlot(es, A, i) && Final(es).b[i] == SourceSlot(es, B, i)
  {
    if es == [] {
    } else {
      StoredSources(es[..|es| - 1], i);
    }
  }

  /**
   * In every run the last event that wrote an output slot decides it: a maximum-merged slot is the maximum of
   * the two stored sources, though one of them may have been stored long before or the other updated since.
   */
  lemma {:induction false} LastWriterDecides(es: seq<Event>, j: nat, i: nat)
    requires i < UNIVERSE && j < |es| && Writes(es[j], i) && forall k :: j < k < |es| ==> !Writes(es[k], i)
    ensures Final(es).data[i] == Written(es[j], i, Final(es).a[i], Final(es).b[i])
  {
    if j < |es| - 1 { LastWriterDecides(es[..|es| - 1], j, i); }
  }

  /** What an event other than a restore says about the length. */
  function LengthSaid(e: Event): nat
    requires !e.Restore?
  {
    match e
    case Merge(_, p, _) => |p|
    case Clear => UNIVERSE
    case ClearLength => 0
  }

  /** In every run the output length is what the last event but restores, number `j`, said, and 0 if there is none. */
  lemma {:induction false} LengthOfRun(es: seq<Event>, j: int)
    requires -1 <= j < |es| && (j >= 0 ==> !es[j].Restore?) && forall k :: j < k < |es| ==> es[k].Restore?
    ensures Final(es).length == if j < 0 then 0 else LengthSaid(es[j])
    decreases |es|
  {
    if j < |es| - 1 { LengthOfRun(es[..|es| - 1], j); }
  }

  predicate AllHtp(es: seq<Event>) {
    forall k :: 0 <= k < |es| ==> es[k].ClearLength? || (es[k].Merge? && es[k].mode == Htp)
  }

  /** With maximum merging only, the output is always the maximum of the two stored sources. */
  lemma {:induction false} OutputIsMaximum(es: seq<Event>)
    requires AllHtp(es)
    ensures forall i :: 0 <= i < UNIVERSE ==> Final(es).data[i] == Max(Final(es).a[i], Final(es).b[i])
  {
    if es == [] {
    } else {
      OutputIsMaximum(es[..|es| - 1]);
    }
  }

  /** The packets of one source, in order. */
  function PacketsOf(es: seq<Event>, source: Source): seq<Packet> {
    if es == [] then []
    else
      var e, before := es[|es| - 1], PacketsOf(es[..|es| - 1], source);
      if e.Merge? && e.source == source then before + [e.packet] else before
  }

  function Stored(ps: seq<Packet>): Universe {
    if ps == [] then Zero() else Over(Stored(ps[..|ps| - 1]), ps[|ps| - 1])
  }

  lemma {:induction false} SourcesByPackets(es: seq<Event>)
    ensures Final(es).a == Stored(PacketsOf(es, A)) && Final(es).b == Stored(PacketsOf(es, B))
  {
    if es == [] {
    } else {
      var front, e := es[..|es| - 1], es[|es| - 1];
      SourcesByPackets(front);
      if e.Merge? { StoredMore(PacketsOf(front, e.source), e.packet); }
    }
  }

  lemma StoredMore(ps: seq<Packet>, p: Packet)
    ensures Stored(ps + [p]) == Over(Stored(ps), p)
  {
    assert (ps + [p])[..|ps|] == ps;
  }

  /** Only the order of the packets within each source matters: every interleaving ends with the same output. */
  lemma InterleavingIrrelevant(es: seq<Event>, fs: seq<Event>)
    requires AllHtp(es) && AllHtp(fs)
    requires PacketsOf(es, A) == PacketsOf(fs, A) && PacketsOf(es, B) == PacketsOf(fs, B)
    ensures Final(es).data == Final(fs).data && Final(es).a == Final(fs).a && Final(es).b == Final(fs).b
  {
    SourcesByPackets(es);
    SourcesByPackets(fs);
    OutputIsMaximum(es);
    OutputIsMaximum(fs);
  }

  /** The length is that of the last packet, so it does depend on the interleaving. */
  lemma LengthDepends(p: Packet, q: Packet)
    ensures var es, fs := [Merge(A, p, Htp), Merge(B, q, Htp)], [Merge(B, q, Htp), Merge(A, p, Htp)];
            PacketsOf(es, A) == PacketsOf(fs, A) == [p] && PacketsOf(es, B) == PacketsOf(fs, B) == [q]
            && (Final(es).length == Final(fs).length <==> |p| == |q|)
  {
    var es, fs: seq<Event> := [Merge(A, p, Htp), Merge(B, q, Htp)], [Merge(B, q, Htp), Merge(A, p, Htp)];
    OnePacket(es[0]);
    OnePacket(fs[0]);
    assert es[..1] == [es[0]] && fs[..1] == [fs[0]];
  }

  lemma OnePacket(e: Event)
    requires e.Merge?
    ensures PacketsOf([e], e.source) == [e.packet] && forall t :: t != e.source ==> PacketsOf([e], t) == []
  {
    assert [e][..0] == [];
  }

  /** One LTP packet can leave the output below the stored maximum: exactly where the other source is larger. */
  lemma LatestTakesPrecedence(es: seq<Event>, source: Source, p: Packet, i: nat)
    requires i < |p|
    ensures var s := Final(es + [Merge(source, p, Ltp)]);
            var other := if source == A then Final(es).b[i] else Final(es).a[i];
            s.data[i] == p[i] && (s.data[i] == Max(s.a[i], s.b[i]) <==> other <= p[i])
  {
    assert (es + [Merge(source, p, Ltp)])[..|es|] == es;
  }
}
