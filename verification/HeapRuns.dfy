/** Properties of whole runs of the bucket heap by a client that frees each live pointer at most once. */
module HeapRuns {
  import opened Words
  import opened HeapModel

  // ---------------------------------------------------------------- geometry

  /** Blocks carved later lie wholly above blocks carved earlier. */
  lemma {:induction false} BlocksAscend(c: Config, h: Heap, i: nat, j: nat)
    requires Tiled(c, h) && i < j <= |h.blocks|
    ensures h.blocks[i].addr + Stride(h.blocks[i].size) <= AddrOf(h, j)
    decreases j - i
  {
    assert Abuts(h, i);
    if i + 1 < j {
      BlocksAscend(c, h, i + 1, j);
      assert AddrOf(h, i + 1) == h.blocks[i + 1].addr;
    }
  }

  lemma {:induction false} BlockAddressesAligned(c: Config, h: Heap, i: nat)
    requires ValidConfig(c) && Tiled(c, h) && i < |h.blocks|
    ensures c.low <= h.blocks[i].addr && h.blocks[i].addr % 4 == 0
  {
    if i == 0 {
    } else {
      assert Abuts(h, i - 1);
      BlockAddressesAligned(c, h, i - 1);
      StrideAligned(h.blocks[i - 1].addr, h.blocks[i - 1].size);
    }
  }

  lemma StrideAligned(a: nat, size: nat)
    requires a % 4 == 0
    ensures (a + Stride(size)) % 4 == 0
  {
    assert a + Stride(size) == 4 * (a / 4 + 4 * ((HEADER_SIZE + size + 15) / 16));
  }

  function Payload(h: Heap, i: nat): nat
    requires i < |h.blocks|
  {
    h.blocks[i].addr + DATA_OFFSET
  }

  /** Payloads are word aligned, inside the heap, and no two blocks share a byte, header or payload. */
  lemma BlocksApart(c: Config, h: Heap)
    requires ValidConfig(c) && Inv(c, h)
    ensures forall i :: 0 <= i < |h.blocks| ==>
              && Payload(h, i) % 4 == 0
              && c.low <= h.blocks[i].addr
              && Payload(h, i) + h.blocks[i].size < AddrOf(h, i + 1) <= h.next <= c.top
    ensures forall i, j :: 0 <= i < j < |h.blocks| ==> Payload(h, i) + h.blocks[i].size < h.blocks[j].addr
  {
    forall i | 0 <= i < |h.blocks|
      ensures Payload(h, i) % 4 == 0 && c.low <= h.blocks[i].addr
      ensures Payload(h, i) + h.blocks[i].size < AddrOf(h, i + 1) <= h.next
    {
      BlockAddressesAligned(c, h, i);
      assert Abuts(h, i);
      if i + 1 < |h.blocks| {
        BlocksAscend(c, h, i + 1, |h.blocks|);
      }
    }
    forall i, j | 0 <= i < j < |h.blocks| ensures Payload(h, i) + h.blocks[i].size < h.blocks[j].addr {
      BlocksAscend(c, h, i, j);
    }
  }

  /** No block is on two free lists, or twice on one, or on a list and live. */
  lemma FreeListsDisjoint(c: Config, h: Heap, b: nat, k: nat, d: nat, l: nat)
    requires ValidConfig(c) && Inv(c, h)
    requires b < |h.free| && k < |h.free[b]| && d < |h.free| && l < |h.free[d]|
    ensures h.free[b][k] == h.free[d][l] <==> b == d && k == l
    ensures h.free[b][k] < |h.blocks| && !IsLive(h, h.free[b][k])
  {
    assert ListOf(c, h, b) && ListOf(c, h, d);
  }

  // ---------------------------------------------------------------- runs

  datatype Prim = Alloc(size: u32) | Dispose(index: nat)

  /** A client frees live blocks only, and no request overflows. */
  predicate Legal(c: Config, h: Heap, p: Prim)
    requires |h.free| == |c.buckets|
  {
    match p
    case Alloc(size) => !Overflows(c, h, size)
    case Dispose(i) => IsLive(h, i)
  }

  function Apply(c: Config, h: Heap, p: Prim): (h': Heap)
    requires ValidConfig(c) && Inv(c, h) && Legal(c, h, p)
    ensures Inv(c, h')
  {
    match p
    case Alloc(size) => MallocGrants(c, h, size); Malloc(c, h, size).0
    case Dispose(i) => ReleasePreservesInv(c, h, i); Release(c, h, i)
  }

  ghost predicate LegalRun(c: Config, h: Heap, ps: seq<Prim>)
    requires ValidConfig(c) && Inv(c, h)
    decreases |ps|
  {
    ps == [] || (Legal(c, h, ps[0]) && LegalRun(c, Apply(c, h, ps[0]), ps[1..]))
  }

  /** The heap at the end of a run; the invariant holds there, whatever the run. */
  ghost function Final(c: Config, h: Heap, ps: seq<Prim>): (h': Heap)
    requires ValidConfig(c) && Inv(c, h) && LegalRun(c, h, ps)
    ensures Inv(c, h')
    decreases |ps|
  {
    if ps == [] then h else Final(c, Apply(c, h, ps[0]), ps[1..])
  }

  /** A block that fits no bucket is never used again once it is freed. */
  lemma {:induction false} RetiredForEver(c: Config, h: Heap, ps: seq<Prim>, i: nat)
    requires ValidConfig(c) && Inv(c, h) && LegalRun(c, h, ps)
    requires i < |h.blocks| && h.blocks[i].where == Retired
    ensures i < |Final(c, h, ps).blocks| && Final(c, h, ps).blocks[i] == h.blocks[i]
    decreases |ps|
  {
    if ps == [] {
    } else {
      RetiredStays(c, h, ps[0], i);
      RetiredForEver(c, Apply(c, h, ps[0]), ps[1..], i);
    }
  }

  lemma RetiredStays(c: Config, h: Heap, p: Prim, i: nat)
    requires ValidConfig(c) && Inv(c, h) && Legal(c, h, p) && i < |h.blocks| && h.blocks[i].where == Retired
    ensures i < |Apply(c, h, p).blocks| && Apply(c, h, p).blocks[i] == h.blocks[i]
  {
    if p.Alloc? {
      MallocShape(c, h, p.size);
      if HasFree(c, h, p.size) { assert ListOf(c, h, FirstFit(c.buckets, p.size, 0)); }
    }
  }

  datatype Call =
    | CallMalloc(size: u32)
    | CallCalloc(n: u32, size: u32)
    | CallFree(p: Option<nat>)
    | CallRealloc(p: Option<nat>, size: u32)

  /** Pointers handed in are live, or null. */
  predicate LivePointers(h: Heap, call: Call) {
    (call.CallFree? || call.CallRealloc?) && call.p.Some? ==> IsLive(h, call.p.value)
  }

  /** The size a call hands to `malloc`, 0 if it does not call it. `calloc` multiplies in 32 bits. */
  function Request(h: Heap, call: Call): u32
    requires LivePointers(h, call)
  {
    match call
    case CallMalloc(size) => size
    case CallCalloc(n, size) => if n == 0 || size == 0 then 0 else Wrap(n * size)
    case CallFree(_) => 0
    case CallRealloc(p, size) => if p.Some? && h.blocks[p.value].size >= size then 0 else size
  }

  function CallEffect(c: Config, h: Heap, call: Call): Heap
    requires ValidConfig(c) && Inv(c, h) && LivePointers(h, call)
  {
    match call
    case CallMalloc(size) => Malloc(c, h, size).0
    case CallCalloc(n, size) => Malloc(c, h, Request(h, call)).0
    case CallFree(p) => if p.None? then h else Release(c, h, p.value)
    case CallRealloc(p, size) => Realloc(c, h, p, size).0
  }

  predicate LegalCall(c: Config, h: Heap, call: Call)
    requires |h.free| == |c.buckets|
  {
    LivePointers(h, call) && !Overflows(c, h, Request(h, call))
  }

  /** A call with live pointers keeps the heap intact if and only if its request does not overflow. */
  lemma CallKeepsInv(c: Config, h: Heap, call: Call)
    requires ValidConfig(c) && Inv(c, h) && LivePointers(h, call)
    ensures Inv(c, CallEffect(c, h, call)) <==> !Overflows(c, h, Request(h, call))
  {
    MallocGrants(c, h, Request(h, call));
    match call
    case CallMalloc(_) =>
    case CallCalloc(_, _) =>
    case CallFree(p) =>
      if p.Some? { ReleasePreservesInv(c, h, p.value); }
    case CallRealloc(p, size) =>
      if p.Some? { ReallocKeepsInv(c, h, p.value, size); }
  }

  lemma ReallocKeepsInv(c: Config, h: Heap, i: nat, size: u32)
    requires ValidConfig(c) && Inv(c, h) && IsLive(h, i)
    ensures Inv(c, Realloc(c, h, Some(i), size).0)
       <==> !(h.blocks[i].size < size && Overflows(c, h, size))
  {
    if size == 0 {
      ReleasePreservesInv(c, h, i);
    } else if h.blocks[i].size < size {
      MallocGrants(c, h, size);
      MallocShape(c, h, size);
      var h' := Malloc(c, h, size).0;
      if Overflows(c, h, size) {
        if Tiled(c, Release(c, h', i)) { TiledSame(c, Release(c, h', i), h'); }
      } else if Malloc(c, h, size).1.Some? {
        ReleasePreservesInv(c, h', i);
      }
    }
  }

  function Prims(c: Config, h: Heap, call: Call): seq<Prim>
    requires ValidConfig(c) && Inv(c, h) && LivePointers(h, call)
  {
    match call
    case CallMalloc(size) => [Alloc(size)]
    case CallCalloc(n, size) => [Alloc(Request(h, call))]
    case CallFree(p) => if p.None? then [] else [Dispose(p.value)]
    case CallRealloc(p, size) =>
      if p.None? then [Alloc(size)]
      else if size == 0 then [Dispose(p.value)]
      else if h.blocks[p.value].size >= size then []
      else if Malloc(c, h, size).1.None? then [Alloc(size)]
      else [Alloc(size), Dispose(p.value)]
  }

  /** Every call of the four entry points that does not overflow is a legal run of allocations and releases. */
  lemma CallIsRun(c: Config, h: Heap, call: Call)
    requires ValidConfig(c) && Inv(c, h) && LegalCall(c, h, call)
    ensures LegalRun(c, h, Prims(c, h, call))
    ensures CallEffect(c, h, call) == Final(c, h, Prims(c, h, call))
  {
    var ps := Prims(c, h, call);
    if ps != [] {
      var h1 := Apply(c, h, ps[0]);
      if |ps| == 2 {
        MallocShape(c, h, call.size);
        var h2 := Apply(c, h1, ps[1]);
        assert ps[1..][0] == ps[1];
        assert LegalRun(c, h2, ps[1..][1..]);
        assert LegalRun(c, h1, ps[1..]);
        assert Final(c, h1, ps[1..]) == h2;
      } else {
        assert LegalRun(c, h1, ps[1..]);
      }
    }
  }

  ghost predicate LegalCalls(c: Config, h: Heap, calls: seq<Call>)
    requires ValidConfig(c) && Inv(c, h)
    decreases |calls|
  {
    calls == [] ||
    (LegalCall(c, h, calls[0]) && (CallIsRun(c, h, calls[0]); LegalCalls(c, CallEffect(c, h, calls[0]), calls[1..])))
  }

  ghost function AfterCalls(c: Config, h: Heap, calls: seq<Call>): (h': Heap)
    requires ValidConfig(c) && Inv(c, h) && LegalCalls(c, h, calls)
    ensures Inv(c, h')
    decreases |calls|
  {
    if calls == [] then h else CallIsRun(c, h, calls[0]); AfterCalls(c, CallEffect(c, h, calls[0]), calls[1..])
  }

  lemma {:induction false} RunsAppend(c: Config, h: Heap, ps: seq<Prim>, qs: seq<Prim>)
    requires ValidConfig(c) && Inv(c, h) && LegalRun(c, h, ps) && LegalRun(c, Final(c, h, ps), qs)
    ensures LegalRun(c, h, ps + qs) && Final(c, h, ps + qs) == Final(c, Final(c, h, ps), qs)
    decreases |ps|
  {
    if ps == [] {
      assert ps + qs == qs;
    } else {
      assert (ps + qs)[1..] == ps[1..] + qs;
      RunsAppend(c, Apply(c, h, ps[0]), ps[1..], qs);
    }
  }

  /** So what holds at the end of every run of allocations and releases holds after every sequence of calls. */
  lemma {:induction false} CallsAreRun(c: Config, h: Heap, calls: seq<Call>) returns (ps: seq<Prim>)
    requires ValidConfig(c) && Inv(c, h) && LegalCalls(c, h, calls)
    ensures LegalRun(c, h, ps) && Final(c, h, ps) == AfterCalls(c, h, calls)
    decreases |calls|
  {
    if calls == [] {
      ps := [];
    } else {
      CallIsRun(c, h, calls[0]);
      var rest := CallsAreRun(c, CallEffect(c, h, calls[0]), calls[1..]);
      RunsAppend(c, h, Prims(c, h, calls[0]), rest);
      ps := Prims(c, h, calls[0]) + rest;
    }
  }

  // ---------------------------------------------------------------- peak demand

  function CarvedOf(blocks: seq<Block>, size: nat): nat {
    if blocks == [] then 0
    else CarvedOf(blocks[..|blocks| - 1], size) + if blocks[|blocks| - 1].size == size then 1 else 0
  }

  function LiveOf(blocks: seq<Block>, size: nat): nat {
    if blocks == [] then 0
    else LiveOf(blocks[..|blocks| - 1], size)
         + if blocks[|blocks| - 1].size == size && blocks[|blocks| - 1].where == Live then 1 else 0
  }

  /** The largest number of blocks of `size` that were live at the same time during the run. */
  ghost function Peak(c: Config, h: Heap, ps: seq<Prim>, size: nat): nat
    requires ValidConfig(c) && Inv(c, h) && LegalRun(c, h, ps)
    decreases |ps|
  {
    if ps == [] then LiveOf(h.blocks, size)
    else Max(LiveOf(h.blocks, size), Peak(c, Apply(c, h, ps[0]), ps[1..], size))
  }

  lemma {:induction false} LiveAtMostCarved(blocks: seq<Block>, size: nat)
    ensures LiveOf(blocks, size) <= CarvedOf(blocks, size)
    ensures (forall i :: 0 <= i < |blocks| && blocks[i].size == size ==> blocks[i].where == Live)
            ==> LiveOf(blocks, size) == CarvedOf(blocks, size)
  {
    if blocks == [] {
    } else {
      LiveAtMostCarved(blocks[..|blocks| - 1], size);
    }
  }

  lemma {:induction false} CarvedDependsOnSizes(blocks: seq<Block>, blocks': seq<Block>, size: nat)
    requires |blocks| == |blocks'| && forall i :: 0 <= i < |blocks| ==> blocks[i].size == blocks'[i].size
    ensures CarvedOf(blocks, size) == CarvedOf(blocks', size)
  {
    if blocks == [] {
    } else {
      CarvedDependsOnSizes(blocks[..|blocks| - 1], blocks'[..|blocks| - 1], size);
    }
  }

  lemma FirstFitOfBucket(c: Config, size: nat, b: nat)
    requires ValidConfig(c) && b < |c.buckets| && BlockSize(c, size) == c.buckets[b]
    ensures FirstFit(c.buckets, size, 0) == b
  {
  }

  /** One step carves a block of a bucket only when every block of that bucket is live. */
  lemma CarveMeansDemand(c: Config, h: Heap, p: Prim, b: nat)
    requires ValidConfig(c) && Inv(c, h) && Legal(c, h, p) && b < |c.buckets|
    ensures var h', size := Apply(c, h, p), c.buckets[b];
            || CarvedOf(h'.blocks, size) == CarvedOf(h.blocks, size)
            || (CarvedOf(h'.blocks, size) == CarvedOf(h.blocks, size) + 1 == LiveOf(h'.blocks, size))
  {
    if p.Alloc? { MallocShape(c, h, p.size); }
    var h', size := Apply(c, h, p), c.buckets[b];
    if |h'.blocks| == |h.blocks| {
      CarvedDependsOnSizes(h.blocks, h'.blocks, size);
    } else {
      MallocGrants(c, h, p.size);
      assert h'.blocks[..|h.blocks|] == h.blocks;
      if h'.blocks[|h.blocks|].size == size { NoneFreeMeansAllLive(c, h, p.size, b); }
    }
  }

  lemma NoneFreeMeansAllLive(c: Config, h: Heap, size: nat, b: nat)
    requires ValidConfig(c) && Inv(c, h) && b < |c.buckets|
    requires BlockSize(c, size) == c.buckets[b] && !HasFree(c, h, size)
    ensures LiveOf(h.blocks, c.buckets[b]) == CarvedOf(h.blocks, c.buckets[b])
  {
    FirstFitOfBucket(c, size, b);
    BucketSizesDiffer(c, b);
    forall i | 0 <= i < |h.blocks| && h.blocks[i].size == c.buckets[b] ensures h.blocks[i].where == Live {
      assert Placed(c, h, i);
    }
    LiveAtMostCarved(h.blocks, c.buckets[b]);
  }

  lemma {:induction false} CarvedIsPeakFrom(c: Config, h: Heap, ps: seq<Prim>, b: nat)
    requires ValidConfig(c) && Inv(c, h) && LegalRun(c, h, ps) && b < |c.buckets|
    ensures CarvedOf(Final(c, h, ps).blocks, c.buckets[b])
         == Max(CarvedOf(h.blocks, c.buckets[b]), Peak(c, h, ps, c.buckets[b]))
    decreases |ps|
  {
    var size := c.buckets[b];
    LiveAtMostCarved(h.blocks, size);
    if ps == [] {
    } else {
      var h' := Apply(c, h, ps[0]);
      CarveMeansDemand(c, h, ps[0], b);
      LiveAtMostCarved(h'.blocks, size);
      CarvedIsPeakFrom(c, h', ps[1..], b);
      PeakCoversStart(c, h', ps[1..], size);
    }
  }

  lemma PeakCoversStart(c: Config, h: Heap, ps: seq<Prim>, size: nat)
    requires ValidConfig(c) && Inv(c, h) && LegalRun(c, h, ps)
    ensures Peak(c, h, ps, size) >= LiveOf(h.blocks, size)
  {
  }

  /** Over any run from boot, a bucket owns exactly as many blocks as were ever live at once. */
  lemma CarvedIsPeak(c: Config, ps: seq<Prim>, b: nat)
    requires ValidConfig(c) && LegalRun(c, Init(c), ps) && b < |c.buckets|
    ensures CarvedOf(Final(c, Init(c), ps).blocks, c.buckets[b]) == Peak(c, Init(c), ps, c.buckets[b])
  {
    CarvedIsPeakFrom(c, Init(c), ps, b);
  }

  // ---------------------------------------------------------------- space

  /** Bytes taken by the blocks of the first `n` buckets. */
  function BucketSpace(c: Config, blocks: seq<Block>, n: nat): int
    requires n <= |c.buckets|
  {
    if n == 0 then 0
    else BucketSpace(c, blocks, n - 1) + Stride(c.buckets[n - 1]) * CarvedOf(blocks, c.buckets[n - 1])
  }

  /** Bytes taken by blocks that fit no bucket. */
  function OversizeSpace(c: Config, blocks: seq<Block>): int {
    if blocks == [] then 0
    else
      var x := blocks[|blocks| - 1];
      OversizeSpace(c, blocks[..|blocks| - 1])
      + if ExactFit(c.buckets, x.size, 0) == |c.buckets| then Stride(x.size) else 0
  }

  lemma {:induction false} BucketSpaceOfAppend(c: Config, blocks: seq<Block>, x: Block, n: nat)
    requires ValidConfig(c) && n <= |c.buckets|
    ensures BucketSpace(c, blocks + [x], n)
         == BucketSpace(c, blocks, n) + if ExactFit(c.buckets, x.size, 0) < n then Stride(x.size) else 0
  {
    if n == 0 {
    } else {
      BucketSpaceOfAppend(c, blocks, x, n - 1);
      var size := c.buckets[n - 1];
      assert (blocks + [x])[..|blocks|] == blocks;
      BucketSizesDiffer(c, n - 1);
      if x.size == size {
        assert Stride(size) * (CarvedOf(blocks, size) + 1) == Stride(size) * CarvedOf(blocks, size) + Stride(size);
      }
    }
  }

  lemma {:induction false} SpaceOf(c: Config, h: Heap, n: nat)
    requires ValidConfig(c) && Inv(c, h) && n <= |h.blocks|
    ensures AddrOf(h, n) - c.low == BucketSpace(c, h.blocks[..n], |c.buckets|) + OversizeSpace(c, h.blocks[..n])
  {
    var m := |c.buckets|;
    if n == 0 {
      assert BucketSpace(c, [], m) == 0 by { NoBlocksNoSpace(c, m); }
      assert h.blocks[..0] == [];
    } else {
      SpaceOf(c, h, n - 1);
      var x := h.blocks[n - 1];
      assert h.blocks[..n] == h.blocks[..n - 1] + [x];
      BucketSpaceOfAppend(c, h.blocks[..n - 1], x, m);
      assert h.blocks[..n][..n - 1] == h.blocks[..n - 1];
      assert Abuts(h, n - 1);
    }
  }

  lemma {:induction false} NoBlocksNoSpace(c: Config, n: nat)
    requires n <= |c.buckets|
    ensures BucketSpace(c, [], n) == 0
  {
    if n == 0 {
    } else {
      NoBlocksNoSpace(c, n - 1);
    }
  }

  /** Bytes that peak demand alone accounts for, over the first `n` buckets. */
  ghost function PeakSpace(c: Config, h: Heap, ps: seq<Prim>, n: nat): int
    requires ValidConfig(c) && Inv(c, h) && LegalRun(c, h, ps) && n <= |c.buckets|
  {
    if n == 0 then 0
    else PeakSpace(c, h, ps, n - 1) + Stride(c.buckets[n - 1]) * Peak(c, h, ps, c.buckets[n - 1])
  }

  lemma {:induction false} PeakSpaceIsBucketSpace(c: Config, h: Heap, ps: seq<Prim>, blocks: seq<Block>, n: nat)
    requires ValidConfig(c) && Inv(c, h) && LegalRun(c, h, ps) && n <= |c.buckets|
    requires forall b :: 0 <= b < n ==> CarvedOf(blocks, c.buckets[b]) == Peak(c, h, ps, c.buckets[b])
    ensures PeakSpace(c, h, ps, n) == BucketSpace(c, blocks, n)
  {
    if n == 0 {
    } else {
      PeakSpaceIsBucketSpace(c, h, ps, blocks, n - 1);
    }
  }

  /**
   * The heap in use is the peak demand of every bucket plus the oversized blocks: it does not
   * depend on how often the client calls.
   */
  lemma SpaceIsPeakDemand(c: Config, ps: seq<Prim>)
    requires ValidConfig(c) && LegalRun(c, Init(c), ps)
    ensures var h := Final(c, Init(c), ps);
            h.next - c.low == PeakSpace(c, Init(c), ps, |c.buckets|) + OversizeSpace(c, h.blocks)
  {
    var h := Final(c, Init(c), ps);
    forall b | 0 <= b < |c.buckets|
      ensures CarvedOf(h.blocks, c.buckets[b]) == Peak(c, Init(c), ps, c.buckets[b])
    {
      CarvedIsPeak(c, ps, b);
    }
    PeakSpaceIsBucketSpace(c, Init(c), ps, h.blocks, |c.buckets|);
    SpaceOf(c, h, |h.blocks|);
    assert h.blocks[..|h.blocks|] == h.blocks;
  }
}
