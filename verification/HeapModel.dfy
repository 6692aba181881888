/** The bucket heap of lib-clib/src/malloc.cpp as a state machine on values. */
module HeapModel {
  import opened Words

  /** `sizeof(BlockHeader)`: the header is packed, so three words and one byte of data. */
  const HEADER_SIZE := 13
  /** `offsetof(BlockHeader, data)`. */
  const DATA_OFFSET := 12

  datatype Where = Live | Free | Retired

  datatype Block = Block(addr: nat, size: nat, where: Where)

  /** The bucket table without its end marker, and the linker's heap bounds. */
  datatype Config = Config(buckets: seq<nat>, low: nat, top: nat)

  /** `free[b]` lists, head first, the indices into `blocks` of the free blocks of bucket `b`. */
  datatype Heap = Heap(next: nat, blocks: seq<Block>, free: seq<seq<nat>>)

  ghost predicate ValidConfig(c: Config) {
    && (forall b :: 0 <= b < |c.buckets| ==> 0 < c.buckets[b] < WORD)
    && (forall b, d :: 0 <= b < d < |c.buckets| ==> c.buckets[b] < c.buckets[d])
    && 0 < c.low <= c.top <= WORD / 2
    && c.low % 4 == 0
  }

  /** The table of lib-clib/src/gd32/malloc.h. */
  const GD32_BUCKETS: seq<nat> := [0x10, 0x20, 0x40, 0x60, 0x80, 0x100, 0x140, 0x180, 0x200, 0x300, 0x400, 0x500]

  lemma Gd32TableValid(low: nat, top: nat)
    requires 0 < low <= top <= WORD / 2 && low % 4 == 0
    ensures ValidConfig(Config(GD32_BUCKETS, low, top))
  {
  }

  function Stride(size: nat): nat {
    (HEADER_SIZE + size + 15) / 16 * 16
  }

  /** A block takes the least multiple of 16 that holds header and data. */
  lemma StrideLeast(size: nat)
    ensures Stride(size) % 16 == 0 && HEADER_SIZE + size <= Stride(size) < HEADER_SIZE + size + 16
  {
  }

  /** The first bucket, from `b` on, that can hold `size`; `|buckets|` when none can. */
  function FirstFit(buckets: seq<nat>, size: nat, b: nat): (r: nat)
    requires b <= |buckets|
    ensures b <= r <= |buckets|
    ensures r < |buckets| ==> size <= buckets[r]
    ensures forall d :: b <= d < r ==> buckets[d] < size
    decreases |buckets| - b
  {
    if b == |buckets| || size <= buckets[b] then b else FirstFit(buckets, size, b + 1)
  }

  /** The bucket of exactly `size`, from `b` on; `|buckets|` when there is none. */
  function ExactFit(buckets: seq<nat>, size: nat, b: nat): (r: nat)
    requires b <= |buckets|
    ensures b <= r <= |buckets|
    ensures r < |buckets| ==> size == buckets[r]
    ensures forall d :: b <= d < r ==> buckets[d] != size
    decreases |buckets| - b
  {
    if b == |buckets| || size == buckets[b] then b else ExactFit(buckets, size, b + 1)
  }

  /** The size a request is rounded up to. */
  function BlockSize(c: Config, size: nat): (r: nat)
    ensures size <= r
  {
    var b := FirstFit(c.buckets, size, 0);
    if b < |c.buckets| then c.buckets[b] else size
  }

  /** The smallest bucket that holds the request, or the very size if there is none. */
  lemma BlockSizeLeast(c: Config, size: nat)
    requires ValidConfig(c)
    ensures if forall b :: 0 <= b < |c.buckets| ==> c.buckets[b] < size then BlockSize(c, size) == size
            else
              && BlockSize(c, size) in c.buckets && size <= BlockSize(c, size)
              && forall b :: 0 <= b < |c.buckets| && size <= c.buckets[b] ==> BlockSize(c, size) <= c.buckets[b]
  {
  }

  function Init(c: Config): (h: Heap)
    ensures ValidConfig(c) ==> Inv(c, h)
  {
    Heap(c.low, [], seq(|c.buckets|, _ => []))
  }

  /** The end of a carved block, in the 32-bit arithmetic of the source. */
  function NextBlock32(next: nat, size: nat): u32 {
    Wrap(next + Wrap(Wrap(HEADER_SIZE + size) + 15) / 16 * 16)
  }

  /** The computed end is the true end exactly for requests that end inside the address space. */
  lemma NextBlockExact(next: nat, size: nat)
    requires 0 < next < WORD && size < WORD
    ensures NextBlock32(next, size) == next + Stride(size) <==> next + Stride(size) < WORD
  {
    RoundingWraps(size);
    if next + Stride(size) < WORD { WrapsToItself(next + Stride(size)); }
  }

  /** The rounding loses 2^32 if it leaves the word, and then leaves less than 32. */
  lemma RoundingWraps(size: nat)
    requires size < WORD
    ensures var r := Wrap(Wrap(HEADER_SIZE + size) + 15) / 16 * 16;
            r == Stride(size) || r == Stride(size) - WORD < 32
  {
    var n := HEADER_SIZE + size + 15;
    if n < WORD {
      WrapsToItself(HEADER_SIZE + size);
      WrapsToItself(n);
    } else {
      WrapsPast(HEADER_SIZE + size, n - WORD);
      assert n / 16 * 16 - WORD == (n - WORD) / 16 * 16;
    }
  }

  lemma WrapsPast(a: nat, rest: nat)
    requires a + 15 == WORD + rest && rest < 32
    ensures Wrap(Wrap(a) + 15) == rest
  {
  }

  /** The true end of a bump allocation. */
  function EndOfCarve(c: Config, h: Heap, size: nat): nat {
    h.next + Stride(BlockSize(c, size))
  }

  function SetWhere(h: Heap, i: nat, w: Where): Heap
    requires i < |h.blocks|
  {
    h.(blocks := h.blocks[i := h.blocks[i].(where := w)])
  }

  /** Takes the head off the free list of bucket `b`. */
  function Pop(h: Heap, b: nat): Heap
    requires b < |h.free| && h.free[b] != [] && h.free[b][0] < |h.blocks|
  {
    SetWhere(h, h.free[b][0], Live).(free := h.free[b := h.free[b][1..]])
  }

  /** Bumps `next` over a new live block. */
  function Carve(c: Config, h: Heap, size: nat): Heap {
    h.(next := EndOfCarve(c, h, size), blocks := h.blocks + [Block(h.next, BlockSize(c, size), Live)])
  }

  /** What the source does instead: it moves `next` to the end computed in 32 bits. */
  function Bump(c: Config, h: Heap, size: nat): Heap {
    h.(next := NextBlock32(h.next, BlockSize(c, size)), blocks := h.blocks + [Block(h.next, BlockSize(c, size), Live)])
  }

  /** There is a free block in the bucket of the request. */
  predicate HasFree(c: Config, h: Heap, size: nat)
    requires |h.free| == |c.buckets|
  {
    var b := FirstFit(c.buckets, size, 0);
    b < |c.buckets| && h.free[b] != []
  }

  /** `malloc`: the new heap and the index of the block handed out, if any. */
  function Malloc(c: Config, h: Heap, size: nat): (Heap, Option<nat>)
    requires Listed(c, h)
  {
    var b := FirstFit(c.buckets, size, 0);
    if size == 0 then
      (h, None)
    else if HasFree(c, h, size) then
      assert ListOf(c, h, b);
      (Pop(h, b), Some(h.free[b][0]))
    else if NextBlock32(h.next, BlockSize(c, size)) > c.top then
      (h, None)
    else
      (Bump(c, h, size), Some(|h.blocks|))
  }

  /** The bump branch is taken and passes the limit test, though the block ends outside the address space. */
  predicate Overflows(c: Config, h: Heap, size: nat)
    requires |h.free| == |c.buckets|
  {
    && size != 0 && !HasFree(c, h, size)
    && EndOfCarve(c, h, size) >= WORD && NextBlock32(h.next, BlockSize(c, size)) <= c.top
  }

  /** `free` of a live block: onto the free list of its bucket, or never used again. */
  function Release(c: Config, h: Heap, i: nat): Heap
    requires |h.free| == |c.buckets| && i < |h.blocks|
  {
    var b := ExactFit(c.buckets, h.blocks[i].size, 0);
    if b < |c.buckets| then
      SetWhere(h, i, Free).(free := h.free[b := [i] + h.free[b]])
    else
      SetWhere(h, i, Retired)
  }

  /** `realloc`: a null pointer is `None`. */
  function Realloc(c: Config, h: Heap, p: Option<nat>, newSize: nat): (Heap, Option<nat>)
    requires Inv(c, h) && ValidConfig(c)
    requires p.Some? ==> IsLive(h, p.value)
  {
    if p.None? then
      Malloc(c, h, newSize)
    else if newSize == 0 then
      (Release(c, h, p.value), None)
    else if h.blocks[p.value].size >= newSize then
      (h, p)
    else
      MallocShape(c, h, newSize);
      var (h', q) := Malloc(c, h, newSize);
      if q.None? then (h', None) else (Release(c, h', p.value), q)
  }

  predicate IsLive(h: Heap, i: nat) {
    i < |h.blocks| && h.blocks[i].where == Live
  }

  // ---------------------------------------------------------------- invariant

  /** The blocks tile the carved region: no gap and no overlap, in order of carving. */
  ghost predicate Tiled(c: Config, h: Heap) {
    && (h.blocks == [] ==> h.next == c.low)
    && (h.blocks != [] ==> h.blocks[0].addr == c.low)
    && (forall i :: 0 <= i < |h.blocks| ==> Abuts(h, i))
  }

  ghost predicate Abuts(h: Heap, i: nat)
    requires i < |h.blocks|
  {
    h.blocks[i].addr + Stride(h.blocks[i].size) == AddrOf(h, i + 1)
  }

  /** Start of block `i`, or the end of the carved region for `i == |blocks|`. */
  function AddrOf(h: Heap, i: nat): nat
    requires i <= |h.blocks|
  {
    if i == |h.blocks| then h.next else h.blocks[i].addr
  }

  /** Free lists hold free blocks of their bucket, each at most once. */
  ghost predicate Listed(c: Config, h: Heap) {
    && |h.free| == |c.buckets|
    && (forall b :: 0 <= b < |h.free| ==> ListOf(c, h, b))
  }

  ghost predicate ListOf(c: Config, h: Heap, b: nat)
    requires |h.free| == |c.buckets| && b < |h.free|
  {
    && (forall k :: 0 <= k < |h.free[b]| ==>
          h.free[b][k] < |h.blocks| && h.blocks[h.free[b][k]].where == Free
          && h.blocks[h.free[b][k]].size == c.buckets[b])
    && (forall k, l :: 0 <= k < l < |h.free[b]| ==> h.free[b][k] != h.free[b][l])
  }

  /** Every block is live, on the free list of its bucket, or oversized and retired. */
  ghost predicate Placed(c: Config, h: Heap, i: nat)
    requires |h.free| == |c.buckets| && i < |h.blocks|
  {
    var b := ExactFit(c.buckets, h.blocks[i].size, 0);
    match h.blocks[i].where
    case Live => true
    case Free => b < |c.buckets| && i in h.free[b]
    case Retired => b == |c.buckets|
  }

  ghost predicate Inv(c: Config, h: Heap) {
    && Tiled(c, h)
    && Listed(c, h)
    && (forall i :: 0 <= i < |h.blocks| ==> Placed(c, h, i))
    && c.low <= h.next <= c.top
  }

  lemma BucketSizesDiffer(c: Config, b: nat)
    requires ValidConfig(c) && b < |c.buckets|
    ensures ExactFit(c.buckets, c.buckets[b], 0) == b
  {
  }

  lemma TiledSame(c: Config, h: Heap, h': Heap)
    requires Tiled(c, h) && h'.next == h.next && |h'.blocks| == |h.blocks|
    requires forall i :: 0 <= i < |h.blocks| ==>
               h'.blocks[i].addr == h.blocks[i].addr && h'.blocks[i].size == h.blocks[i].size
    ensures Tiled(c, h')
  {
    forall j | 0 <= j < |h.blocks| ensures Abuts(h', j) {
      assert Abuts(h, j);
    }
  }

  lemma PopPreservesInv(c: Config, h: Heap, b: nat)
    requires ValidConfig(c) && Inv(c, h) && b < |h.free| && h.free[b] != []
    requires h.free[b][0] < |h.blocks|
    ensures Inv(c, Pop(h, b))
  {
    var i, h' := h.free[b][0], Pop(h, b);
    assert ListOf(c, h, b);
    TiledSame(c, h, h');
    forall d | 0 <= d < |h'.free| ensures ListOf(c, h', d) {
      assert ListOf(c, h, d);
    }
    forall j | 0 <= j < |h'.blocks| ensures Placed(c, h', j) {
      assert Placed(c, h, j);
      if j != i && h.blocks[j].where == Free {
        var d := ExactFit(c.buckets, h.blocks[j].size, 0);
        var k :| 0 <= k < |h.free[d]| && h.free[d][k] == j;
        if d == b { assert h'.free[b][k - 1] == j; }
      }
    }
  }

  lemma CarvePreservesInv(c: Config, h: Heap, size: nat)
    requires ValidConfig(c) && Inv(c, h) && EndOfCarve(c, h, size) <= c.top
    ensures Inv(c, Carve(c, h, size))
  {
    var h' := Carve(c, h, size);
    forall j | 0 <= j < |h'.blocks| ensures Abuts(h', j) {
      if j < |h.blocks| { assert Abuts(h, j); }
    }
    forall d | 0 <= d < |h'.free| ensures ListOf(c, h', d) {
      assert ListOf(c, h, d);
    }
    forall j | 0 <= j < |h'.blocks| ensures Placed(c, h', j) {
      if j < |h.blocks| { assert Placed(c, h, j); }
    }
  }

  /** `h'` differs from `h` at most in block `i`, and in where that block is. */
  ghost predicate SameButFor(h: Heap, h': Heap, i: nat) {
    && |h.blocks| <= |h'.blocks| <= |h.blocks| + 1
    && (|h'.blocks| > |h.blocks| ==> i == |h.blocks|)
    && (forall j :: 0 <= j < |h.blocks| ==>
          h'.blocks[j].addr == h.blocks[j].addr && h'.blocks[j].size == h.blocks[j].size)
    && (forall j :: 0 <= j < |h.blocks| && j != i ==> h'.blocks[j] == h.blocks[j])
  }

  /** A successful `malloc` hands out a block that was not live and is large enough; a failed one changes nothing. */
  lemma MallocShape(c: Config, h: Heap, size: nat)
    requires ValidConfig(c) && Inv(c, h)
    ensures var (h', p) := Malloc(c, h, size);
            && |h'.free| == |c.buckets|
            && (p.None? ==> h' == h)
            && (p.Some? ==>
                  && IsLive(h', p.value) && !IsLive(h, p.value)
                  && h'.blocks[p.value].size >= size
                  && SameButFor(h, h', p.value))
  {
    if HasFree(c, h, size) { assert ListOf(c, h, FirstFit(c.buckets, size, 0)); }
  }

  /**
   * `malloc` keeps the heap intact if and only if the request does not overflow. Then it fails exactly for size 0
   * and for lack of space, and carves only when there is no free block.
   */
  lemma MallocGrants(c: Config, h: Heap, size: nat)
    requires ValidConfig(c) && Inv(c, h) && size < WORD
    ensures var (h', p) := Malloc(c, h, size);
            && (Inv(c, h') <==> !Overflows(c, h, size))
            && (Tiled(c, h') <==> !Overflows(c, h, size))
            && (!Overflows(c, h, size) ==>
                  && (|h'.blocks| > |h.blocks| ==> h' == Carve(c, h, size) && !HasFree(c, h, size))
                  && (p.None? <==> size == 0 || (EndOfCarve(c, h, size) > c.top && !HasFree(c, h, size))))
  {
    if HasFree(c, h, size) {
      assert ListOf(c, h, FirstFit(c.buckets, size, 0));
      PopPreservesInv(c, h, FirstFit(c.buckets, size, 0));
    } else if size != 0 {
      BumpGrants(c, h, size);
    }
  }

  lemma BumpGrants(c: Config, h: Heap, size: nat)
    requires ValidConfig(c) && Inv(c, h) && size < WORD
    ensures EndOfCarve(c, h, size) < WORD ==> Bump(c, h, size) == Carve(c, h, size)
    ensures NextBlock32(h.next, BlockSize(c, size)) <= c.top ==>
              && (Inv(c, Bump(c, h, size)) <==> EndOfCarve(c, h, size) < WORD)
              && (Tiled(c, Bump(c, h, size)) <==> EndOfCarve(c, h, size) < WORD)
    ensures NextBlock32(h.next, BlockSize(c, size)) > c.top ==> EndOfCarve(c, h, size) > c.top
  {
    NextBlockExact(h.next, BlockSize(c, size));
    if EndOfCarve(c, h, size) < WORD {
      if EndOfCarve(c, h, size) <= c.top { CarvePreservesInv(c, h, size); }
    } else {
      assert !Abuts(Bump(c, h, size), |h.blocks|);
    }
  }

  /** Such a request moves the end of the heap back into the blocks carved before, and claims nearly 4 GiB. */
  lemma RequestMovesBack(c: Config, h: Heap)
    requires ValidConfig(c) && Inv(c, h) && h.next >= 0xF0
    requires forall b :: 0 <= b < |c.buckets| ==> c.buckets[b] < 0xFFFF_FF00
    ensures Overflows(c, h, 0xFFFF_FF00) && !Inv(c, Malloc(c, h, 0xFFFF_FF00).0)
    ensures Malloc(c, h, 0xFFFF_FF00).0.next == h.next - 0xF0
  {
    BackwardEnd(h.next);
    MallocGrants(c, h, 0xFFFF_FF00);
  }

  /** And such a request is granted a block of no bytes: the end of the heap does not even move. */
  lemma HugeRequestWraps(next: nat)
    requires next < WORD
    ensures NextBlock32(next, 0xFFFF_FFF3) == next
  {
  }

  lemma BackwardEnd(next: nat)
    requires 0xF0 <= next < WORD
    ensures NextBlock32(next, 0xFFFF_FF00) == next - 0xF0
  {
  }

  lemma ReleasePreservesInv(c: Config, h: Heap, i: nat)
    requires ValidConfig(c) && Inv(c, h) && IsLive(h, i)
    ensures Inv(c, Release(c, h, i))
  {
    var h' := Release(c, h, i);
    var b := ExactFit(c.buckets, h.blocks[i].size, 0);
    TiledSame(c, h, h');
    forall d | 0 <= d < |h'.free| ensures ListOf(c, h', d) {
      assert ListOf(c, h, d);
      if d == b {
        assert forall k :: 0 < k < |h'.free[d]| ==> h'.free[d][k] == h.free[d][k - 1];
      }
    }
    forall j | 0 <= j < |h'.blocks| ensures Placed(c, h', j) {
      assert Placed(c, h, j);
      if j == i {
        if b < |c.buckets| { assert h'.free[b][0] == i; }
      } else if h.blocks[j].where == Free {
        var d := ExactFit(c.buckets, h.blocks[j].size, 0);
        var k :| 0 <= k < |h.free[d]| && h.free[d][k] == j;
        if d == b { assert h'.free[b][k + 1] == j; }
      }
    }
  }

  /** The block freed last is handed out first: a request of its bucket gets it back, and the heap is as before. */
  lemma LastFreedFirst(c: Config, h: Heap, i: nat, size: nat)
    requires ValidConfig(c) && Inv(c, h) && IsLive(h, i) && size > 0
    requires h.blocks[i].size in c.buckets && BlockSize(c, size) == h.blocks[i].size
    ensures Inv(c, Release(c, h, i)) && Malloc(c, Release(c, h, i), size) == (h, Some(i))
  {
    var b := FirstFit(c.buckets, size, 0);
    var d :| 0 <= d < |c.buckets| && c.buckets[d] == h.blocks[i].size;
    ReleasePreservesInv(c, h, i);
    BucketSizesDiffer(c, d);
    if b < |c.buckets| { BucketSizesDiffer(c, b); }
    var h' := Release(c, h, i);
    assert h'.free[d] == [i] + h.free[d] && h'.free[d][1..] == h.free[d];
    assert Pop(h', d).blocks == h.blocks && Pop(h', d).free == h.free;
  }

  /**
   * `realloc` of a live block: one that is large enough stays; size 0 frees it; otherwise, if there is space, it is
   * freed and another live block is large enough. No other live block changes, and none at all without space.
   */
  lemma ReallocShape(c: Config, h: Heap, i: nat, size: u32)
    requires ValidConfig(c) && Inv(c, h) && IsLive(h, i)
    ensures var (h', q) := Realloc(c, h, Some(i), size);
            && (0 < size <= h.blocks[i].size ==> h' == h && q == Some(i))
            && (size == 0 ==> q == None && !IsLive(h', i))
            && (size > h.blocks[i].size && q.None? ==> h' == h)
            && (size > h.blocks[i].size && q.Some? ==>
                  && !IsLive(h, q.value) && IsLive(h', q.value) && h'.blocks[q.value].size >= size && !IsLive(h', i))
            && forall j :: 0 <= j < |h.blocks| && j != i && IsLive(h, j) ==>
                 j < |h'.blocks| && h'.blocks[j] == h.blocks[j]
  {
    MallocShape(c, h, size);
  }
}
