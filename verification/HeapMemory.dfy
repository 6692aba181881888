/**
 * The bucket heap of lib-clib/src/malloc.cpp in memory: packed headers and free-list links are
 * bytes of the address space, and every entry point refines the state machine of HeapModel.
 */
module HeapMemory {
  import opened Words
  import opened HeapModel
  import opened HeapRuns

  const BLOCK_MAGIC: u32 := 0x424C4D43

  // ---------------------------------------------------------------- words in memory

  /** The little-endian word at `a`. */
  function Word(m: seq<byte>, a: nat): u32
    requires a + 4 <= |m|
  {
    Join(m[a], m[a + 1], m[a + 2], m[a + 3])
  }

  function Join(b0: byte, b1: byte, b2: byte, b3: byte): u32 {
    var high: int := b3;
    ((high * 0x100 + b2) * 0x100 + b1) * 0x100 + b0
  }

  function ByteOf(v: u32, k: nat): byte
    requires k < 4
  {
    match k
    case 0 => v % 0x100
    case 1 => v / 0x100 % 0x100
    case 2 => v / 0x1_0000 % 0x100
    case 3 => v / 0x100_0000
  }

  lemma JoinBytes(v: u32)
    ensures Join(ByteOf(v, 0), ByteOf(v, 1), ByteOf(v, 2), ByteOf(v, 3)) == v
  {
    assert v / 0x1_0000 == v / 0x100 / 0x100;
    assert v / 0x100_0000 == v / 0x1_0000 / 0x100;
  }

  /** `m'` differs from `m` at most in the bytes `lo <= a < hi`. */
  ghost predicate SameOutside(m: seq<byte>, m': seq<byte>, lo: int, hi: int) {
    |m'| == |m| && forall a :: 0 <= a < |m| && !(lo <= a < hi) ==> m'[a] == m[a]
  }

  // ---------------------------------------------------------------- representation

  ghost predicate HeaderIn(h: Heap, m: seq<byte>, i: nat)
    requires i < |h.blocks|
  {
    var a := h.blocks[i].addr;
    a + DATA_OFFSET <= |m| && Word(m, a) == BLOCK_MAGIC && Word(m, a + 4) == h.blocks[i].size
  }

  /** Address of the `k`-th header on the free list of bucket `b`; null at its end. */
  ghost function LinkTarget(c: Config, h: Heap, b: nat, k: nat): nat
    requires Listed(c, h) && b < |h.free|
  {
    assert ListOf(c, h, b);
    if k < |h.free[b]| then h.blocks[h.free[b][k]].addr else 0
  }

  ghost predicate LinkIn(c: Config, h: Heap, m: seq<byte>, b: nat, k: nat)
    requires Listed(c, h) && b < |h.free| && k < |h.free[b]|
  {
    var a := LinkTarget(c, h, b, k);
    a + DATA_OFFSET <= |m| && Word(m, a + 8) == LinkTarget(c, h, b, k + 1)
  }

  ghost predicate Represents(c: Config, h: Heap, m: seq<byte>, heads: seq<u32>) {
    && |m| == WORD
    && Listed(c, h) && |heads| == |h.free|
    && (forall i :: 0 <= i < |h.blocks| ==> HeaderIn(h, m, i))
    && (forall b :: 0 <= b < |heads| ==> heads[b] == LinkTarget(c, h, b, 0))
    && (forall b, k :: 0 <= b < |heads| && 0 <= k < |h.free[b]| ==> LinkIn(c, h, m, b, k))
  }

  /** The payload of every live block other than `except` is the same in both memories. */
  ghost predicate PayloadsKept(h: Heap, m: seq<byte>, m': seq<byte>, except: Option<nat>) {
    |m'| == |m| &&
    forall i: nat :: IsLive(h, i) && except != Some(i) && Payload(h, i) + h.blocks[i].size <= |m| ==>
      Contents(h, m', i) == Contents(h, m, i)
  }

  /** The payload bytes of block `i`. */
  function Contents(h: Heap, m: seq<byte>, i: nat): seq<byte>
    requires i < |h.blocks| && Payload(h, i) + h.blocks[i].size <= |m|
  {
    m[Payload(h, i)..Payload(h, i) + h.blocks[i].size]
  }

  lemma BlockInHeap(c: Config, h: Heap, i: nat)
    requires ValidConfig(c) && Inv(c, h) && i < |h.blocks|
    ensures 0 < h.blocks[i].addr && Payload(h, i) + h.blocks[i].size < c.top
  {
    BlockAddressesAligned(c, h, i);
    BlocksAscend(c, h, i, |h.blocks|);
  }

  lemma GrantedAddress(c: Config, h: Heap, size: nat)
    requires ValidConfig(c) && Inv(c, h)
    ensures var (h', q) := Malloc(c, h, size);
            q.Some? ==> q.value < |h'.blocks| && 0 < h'.blocks[q.value].addr <= c.top
  {
    MallocShape(c, h, size);
    if HasFree(c, h, size) {
      assert ListOf(c, h, FirstFit(c.buckets, size, 0));
      BlockInHeap(c, h, h.free[FirstFit(c.buckets, size, 0)][0]);
    }
  }

  lemma PayloadsDisjoint(c: Config, h: Heap, i: nat, j: nat)
    requires ValidConfig(c) && Inv(c, h) && i < |h.blocks| && j < |h.blocks| && i != j
    ensures Payload(h, i) + h.blocks[i].size < Payload(h, j) || Payload(h, j) + h.blocks[j].size < Payload(h, i)
    ensures Payload(h, i) + h.blocks[i].size < c.top && Payload(h, j) + h.blocks[j].size < c.top
  {
    BlockInHeap(c, h, i);
    BlockInHeap(c, h, j);
    if i < j { BlocksAscend(c, h, i, j); } else { BlocksAscend(c, h, j, i); }
  }

  lemma NonNull(c: Config, h: Heap, m: seq<byte>, heads: seq<u32>, b: nat)
    requires ValidConfig(c) && Inv(c, h) && Represents(c, h, m, heads) && b < |heads|
    ensures heads[b] != 0 <==> h.free[b] != []
  {
    assert ListOf(c, h, b);
    if h.free[b] != [] { BlockAddressesAligned(c, h, h.free[b][0]); }
  }

  /** Writing the link of one block disturbs no other header and no other link. */
  lemma OthersSurvive(c: Config, h: Heap, m: seq<byte>, m': seq<byte>, i: nat, j: nat)
    requires ValidConfig(c) && Inv(c, h) && i < |h.blocks| && j < |h.blocks|
    requires SameOutside(m, m', h.blocks[i].addr + 8, h.blocks[i].addr + 12) && HeaderIn(h, m, j)
    ensures HeaderIn(h, m', j)
    ensures i != j ==> Word(m', h.blocks[j].addr + 8) == Word(m, h.blocks[j].addr + 8)
  {
    if i < j {
      BlocksAscend(c, h, i, j);
    } else if j < i {
      BlocksAscend(c, h, j, i);
    }
  }

  /** What the link of a block says about the list it is on. */
  ghost predicate LinkHolds(h: Heap, m: seq<byte>, i: nat, target: nat)
    requires i < |h.blocks|
  {
    h.blocks[i].addr + DATA_OFFSET <= |m| && Word(m, h.blocks[i].addr + 8) == target
  }

  lemma LinkSurvives(c: Config, h: Heap, m: seq<byte>, m': seq<byte>, i: nat, d: nat, k: nat)
    requires ValidConfig(c) && Inv(c, h) && i < |h.blocks| && d < |h.free| && k < |h.free[d]|
    requires h.free[d][k] != i && LinkIn(c, h, m, d, k)
    requires SameOutside(m, m', h.blocks[i].addr + 8, h.blocks[i].addr + 12)
    ensures h.free[d][k] < |h.blocks| && LinkHolds(h, m', h.free[d][k], LinkTarget(c, h, d, k + 1))
  {
    assert ListOf(c, h, d);
    var j := h.free[d][k];
    if i < j { BlocksAscend(c, h, i, j); } else { BlocksAscend(c, h, j, i); }
  }

  lemma PopLink(c: Config, h: Heap, b: nat, m: seq<byte>, m': seq<byte>, d: nat, k: nat)
    requires ValidConfig(c) && Inv(c, h) && b < |h.free| && h.free[b] != [] && h.free[b][0] < |h.blocks|
    requires var a := h.blocks[h.free[b][0]].addr; SameOutside(m, m', a + 8, a + 12)
    requires d < |h.free| && k < |Pop(h, b).free[d]| && LinkIn(c, h, m, d, if d == b then k + 1 else k)
    requires Inv(c, Pop(h, b))
    ensures LinkIn(c, Pop(h, b), m', d, k)
  {
    var k0 := if d == b then k + 1 else k;
    FreeListsDisjoint(c, h, b, 0, d, k0);
    LinkSurvives(c, h, m, m', h.free[b][0], d, k0);
    assert ListOf(c, h, d) && ListOf(c, Pop(h, b), d);
  }

  lemma PopHead(c: Config, h: Heap, b: nat, m: seq<byte>, d: nat)
    requires ValidConfig(c) && Inv(c, h) && b < |h.free| && h.free[b] != [] && h.free[b][0] < |h.blocks|
    requires d < |h.free| && LinkIn(c, h, m, b, 0) && Inv(c, Pop(h, b))
    ensures LinkTarget(c, Pop(h, b), d, 0)
         == if d == b then Word(m, h.blocks[h.free[b][0]].addr + 8) else LinkTarget(c, h, d, 0)
  {
    assert ListOf(c, h, d) && ListOf(c, Pop(h, b), d);
  }

  /** Unlinking the head: the list continues at the link read from its header. */
  lemma PopRepresents(c: Config, h: Heap, b: nat, m: seq<byte>, heads: seq<u32>, m': seq<byte>, heads': seq<u32>)
    requires ValidConfig(c) && Inv(c, h) && Represents(c, h, m, heads)
    requires b < |h.free| && h.free[b] != [] && h.free[b][0] < |h.blocks|
    requires var a := h.blocks[h.free[b][0]].addr;
             && SameOutside(m, m', a + 8, a + 12)
             && a + 12 <= |m| && heads' == heads[b := Word(m, a + 8)]
    ensures Represents(c, Pop(h, b), m', heads')
  {
    var h', i := Pop(h, b), h.free[b][0];
    PopPreservesInv(c, h, b);
    forall j | 0 <= j < |h'.blocks| ensures HeaderIn(h', m', j) {
      OthersSurvive(c, h, m, m', i, j);
    }
    forall d | 0 <= d < |heads'| ensures heads'[d] == LinkTarget(c, h', d, 0) {
      assert LinkIn(c, h, m, b, 0);
      PopHead(c, h, b, m, d);
    }
    forall d, k | 0 <= d < |heads'| && 0 <= k < |h'.free[d]| ensures LinkIn(c, h', m', d, k) {
      assert LinkIn(c, h, m, d, if d == b then k + 1 else k);
      PopLink(c, h, b, m, m', d, k);
    }
  }

  lemma CarveRepresents(c: Config, h: Heap, size: nat, m: seq<byte>, heads: seq<u32>, m': seq<byte>)
    requires ValidConfig(c) && Inv(c, h) && Represents(c, h, m, heads)
    requires EndOfCarve(c, h, size) <= c.top
    requires SameOutside(m, m', h.next, h.next + 12)
    requires h.next + 8 <= |m'| && Word(m', h.next) == BLOCK_MAGIC && Word(m', h.next + 4) == BlockSize(c, size)
    ensures Represents(c, Carve(c, h, size), m', heads)
  {
    var h' := Carve(c, h, size);
    CarvePreservesInv(c, h, size);
    forall j | 0 <= j < |h'.blocks| ensures HeaderIn(h', m', j) {
      if j < |h.blocks| {
        BlocksAscend(c, h, j, |h.blocks|);
        assert HeaderIn(h, m, j);
      }
    }
    forall d | 0 <= d < |heads| ensures heads[d] == LinkTarget(c, h', d, 0) {
      CarveTarget(c, h, size, d, 0);
    }
    forall d, k | 0 <= d < |heads| && 0 <= k < |h'.free[d]| ensures LinkIn(c, h', m', d, k) {
      assert LinkIn(c, h, m, d, k);
      CarveLink(c, h, size, m, m', d, k);
    }
  }

  /** Carving moves no free block. */
  lemma CarveTarget(c: Config, h: Heap, size: nat, d: nat, k: nat)
    requires Listed(c, h) && Listed(c, Carve(c, h, size)) && d < |h.free|
    ensures LinkTarget(c, Carve(c, h, size), d, k) == LinkTarget(c, h, d, k)
  {
    assert ListOf(c, h, d);
  }

  lemma CarveLink(c: Config, h: Heap, size: nat, m: seq<byte>, m': seq<byte>, d: nat, k: nat)
    requires ValidConfig(c) && Inv(c, h) && Inv(c, Carve(c, h, size)) && SameOutside(m, m', h.next, h.next + 12)
    requires d < |h.free| && k < |h.free[d]| && LinkIn(c, h, m, d, k)
    ensures LinkIn(c, Carve(c, h, size), m', d, k)
  {
    assert ListOf(c, h, d);
    LinkBelow(c, h, m, m', h.free[d][k], LinkTarget(c, h, d, k + 1));
    CarveTarget(c, h, size, d, k);
    CarveTarget(c, h, size, d, k + 1);
  }

  lemma LinkBelow(c: Config, h: Heap, m: seq<byte>, m': seq<byte>, i: nat, target: nat)
    requires ValidConfig(c) && Inv(c, h) && i < |h.blocks| && LinkHolds(h, m, i, target)
    requires SameOutside(m, m', h.next, h.next + 12)
    ensures LinkHolds(h, m', i, target)
  {
    BlocksAscend(c, h, i, |h.blocks|);
  }

  lemma ReleaseLink(c: Config, h: Heap, i: nat, m: seq<byte>, m': seq<byte>, d: nat, k: nat)
    requires ValidConfig(c) && Inv(c, h) && IsLive(h, i) && Inv(c, Release(c, h, i))
    requires var b, a := ExactFit(c.buckets, h.blocks[i].size, 0), h.blocks[i].addr;
             && a + 12 <= |m| && SameOutside(m, m', a + 8, a + 12)
             && d < |h.free| && k < |Release(c, h, i).free[d]|
             && if d != b then LinkIn(c, h, m, d, k)
                else if k > 0 then LinkIn(c, h, m, d, k - 1)
                else Word(m', a + 8) == LinkTarget(c, h, b, 0)
    ensures LinkIn(c, Release(c, h, i), m', d, k)
  {
    var h', b := Release(c, h, i), ExactFit(c.buckets, h.blocks[i].size, 0);
    assert ListOf(c, h, d) && ListOf(c, h', d);
    if d != b {
      LinkSurvives(c, h, m, m', i, d, k);
    } else if k > 0 {
      LinkSurvives(c, h, m, m', i, d, k - 1);
    } else {
      assert LinkTarget(c, h', b, 1) == LinkTarget(c, h, b, 0);
    }
  }

  lemma ReleaseHead(c: Config, h: Heap, i: nat, d: nat)
    requires ValidConfig(c) && Inv(c, h) && IsLive(h, i) && Inv(c, Release(c, h, i)) && d < |h.free|
    ensures LinkTarget(c, Release(c, h, i), d, 0)
         == if d == ExactFit(c.buckets, h.blocks[i].size, 0) then h.blocks[i].addr else LinkTarget(c, h, d, 0)
  {
    assert ListOf(c, h, d) && ListOf(c, Release(c, h, i), d);
  }

  /** Linking a block in front of its list, or leaving a retired block where it is. */
  lemma ReleaseRepresents(c: Config, h: Heap, i: nat, m: seq<byte>, heads: seq<u32>, m': seq<byte>, heads': seq<u32>)
    requires ValidConfig(c) && Inv(c, h) && Represents(c, h, m, heads) && IsLive(h, i)
    requires var b, a := ExactFit(c.buckets, h.blocks[i].size, 0), h.blocks[i].addr;
             && a + 12 <= |m|
             && if b < |c.buckets|
                then SameOutside(m, m', a + 8, a + 12) && Word(m', a + 8) == heads[b] && heads' == heads[b := a]
                else m' == m && heads' == heads
    ensures Represents(c, Release(c, h, i), m', heads')
  {
    var h', b := Release(c, h, i), ExactFit(c.buckets, h.blocks[i].size, 0);
    ReleasePreservesInv(c, h, i);
    forall j | 0 <= j < |h'.blocks| ensures HeaderIn(h', m', j) {
      OthersSurvive(c, h, m, m', i, j);
    }
    forall d | 0 <= d < |heads'| ensures heads'[d] == LinkTarget(c, h', d, 0) {
      ReleaseHead(c, h, i, d);
    }
    forall d, k | 0 <= d < |heads'| && 0 <= k < |h'.free[d]| ensures LinkIn(c, h', m', d, k) {
      if d != b {
        assert LinkIn(c, h, m, d, k);
      } else if k > 0 {
        assert LinkIn(c, h, m, d, k - 1);
      }
      ReleaseLink(c, h, i, m, m', d, k);
    }
  }

  /** What happens inside one header leaves every payload alone. */
  lemma HeaderWriteKeepsPayloads(c: Config, h: Heap, m: seq<byte>, m': seq<byte>, a: nat)
    requires ValidConfig(c) && Inv(c, h)
    requires SameOutside(m, m', a, a + DATA_OFFSET)
    requires a == h.next || exists i :: 0 <= i < |h.blocks| && h.blocks[i].addr == a
    ensures PayloadsKept(h, m, m', None)
  {
    forall i: nat | IsLive(h, i) && Payload(h, i) + h.blocks[i].size <= |m|
      ensures Contents(h, m', i) == Contents(h, m, i)
    {
      PayloadApart(c, h, i, a);
    }
  }

  lemma PayloadApart(c: Config, h: Heap, i: nat, a: nat)
    requires ValidConfig(c) && Inv(c, h) && i < |h.blocks|
    requires a == h.next || exists j :: 0 <= j < |h.blocks| && h.blocks[j].addr == a
    ensures a + DATA_OFFSET <= Payload(h, i) || Payload(h, i) + h.blocks[i].size < a
  {
    if a == h.next {
      BlocksAscend(c, h, i, |h.blocks|);
    } else {
      var j :| 0 <= j < |h.blocks| && h.blocks[j].addr == a;
      if i < j { BlocksAscend(c, h, i, j); } else if j < i { BlocksAscend(c, h, j, i); }
    }
  }

  lemma HeaderSurvives(c: Config, h: Heap, m: seq<byte>, m': seq<byte>, q: nat, j: nat)
    requires ValidConfig(c) && Inv(c, h) && q < |h.blocks| && j < |h.blocks| && HeaderIn(h, m, j)
    requires SameOutside(m, m', Payload(h, q), Payload(h, q) + h.blocks[q].size)
    ensures HeaderIn(h, m', j) && Word(m', h.blocks[j].addr + 8) == Word(m, h.blocks[j].addr + 8)
  {
    PayloadApart(c, h, q, h.blocks[j].addr);
  }

  lemma OtherPayloadKept(c: Config, h: Heap, m: seq<byte>, m': seq<byte>, q: nat, i: nat)
    requires ValidConfig(c) && Inv(c, h) && q < |h.blocks| && i < |h.blocks| && i != q
    requires SameOutside(m, m', Payload(h, q), Payload(h, q) + h.blocks[q].size)
    requires Payload(h, i) + h.blocks[i].size <= |m|
    ensures Contents(h, m', i) == Contents(h, m, i)
  {
    if i < q { BlocksAscend(c, h, i, q); } else { BlocksAscend(c, h, q, i); }
  }

  /** What is written inside one payload disturbs no header, no link and no other payload. */
  lemma PayloadWrite(c: Config, h: Heap, m: seq<byte>, heads: seq<u32>, m': seq<byte>, q: nat)
    requires ValidConfig(c) && Inv(c, h) && Represents(c, h, m, heads) && q < |h.blocks|
    requires SameOutside(m, m', Payload(h, q), Payload(h, q) + h.blocks[q].size)
    ensures Represents(c, h, m', heads)
    ensures PayloadsKept(h, m, m', Some(q))
  {
    forall j | 0 <= j < |h.blocks| ensures HeaderIn(h, m', j) {
      HeaderSurvives(c, h, m, m', q, j);
    }
    forall b, k | 0 <= b < |heads| && 0 <= k < |h.free[b]| ensures LinkIn(c, h, m', b, k) {
      assert ListOf(c, h, b) && LinkIn(c, h, m, b, k);
      HeaderSurvives(c, h, m, m', q, h.free[b][k]);
    }
    forall i: nat | IsLive(h, i) && Some(q) != Some(i) && Payload(h, i) + h.blocks[i].size <= |m|
      ensures Contents(h, m', i) == Contents(h, m, i)
    {
      OtherPayloadKept(c, h, m, m', q, i);
    }
  }

  /** Payloads kept by an allocation and then by writes into the block it granted. */
  lemma KeptTwice(h: Heap, h': Heap, q: nat, m: seq<byte>, m': seq<byte>, m'': seq<byte>)
    requires SameButFor(h, h', q) && !IsLive(h, q)
    requires PayloadsKept(h, m, m', None) && PayloadsKept(h', m', m'', Some(q))
    ensures PayloadsKept(h, m, m'', None)
  {
    forall i: nat | IsLive(h, i) && Payload(h, i) + h.blocks[i].size <= |m|
      ensures Contents(h, m'', i) == Contents(h, m, i)
    {
      assert IsLive(h', i) && Contents(h', m'', i) == Contents(h', m', i);
    }
  }

  // ---------------------------------------------------------------- the heap in memory

  class BucketHeap {
    const c: Config
    /** The address space. */
    const mem: array<byte>
    /** The `free_list` fields of `s_block_bucket`. */
    const freeList: array<u32>
    var nextBlock: u32
    ghost var h: Heap

    ghost predicate Valid()
      reads this, mem, freeList
    {
      && mem as object != freeList as object
      && ValidConfig(c) && Inv(c, h)
      && nextBlock == h.next
      && Represents(c, h, mem[..], freeList[..])
    }

    constructor (c: Config, space: array<byte>)
      requires ValidConfig(c) && space.Length == WORD
      ensures Valid() && h == Init(c) && this.c == c && mem == space && fresh(freeList)
    {
      this.c, mem := c, space;
      freeList := new u32[|c.buckets|](_ => 0);
      nextBlock := c.low;
      h := Init(c);
    }

    method PutWord(a: nat, v: u32)
      requires a + 4 <= mem.Length
      modifies mem
      ensures Word(mem[..], a) == v
      ensures SameOutside(old(mem[..]), mem[..], a, a + 4)
    {
      JoinBytes(v);
      mem[a], mem[a + 1], mem[a + 2], mem[a + 3] := ByteOf(v, 0), ByteOf(v, 1), ByteOf(v, 2), ByteOf(v, 3);
    }

    method GetWord(a: nat) returns (v: u32)
      requires a + 4 <= mem.Length
      ensures v == Word(mem[..], a)
    {
      v := Join(mem[a], mem[a + 1], mem[a + 2], mem[a + 3]);
    }

    /** The `free_list` branch of `malloc`. */
    method TakeFree(b: nat) returns (header: u32)
      requires Valid() && b < |c.buckets| && h.free[b] != []
      modifies this`h, mem, freeList
      ensures Valid() && old(ListOf(c, h, b)) && h == Pop(old(h), b)
      ensures header == old(h.blocks[h.free[b][0]].addr)
      ensures SameOutside(old(mem[..]), mem[..], header, header + DATA_OFFSET)
    {
      ghost var m0, f0 := mem[..], freeList[..];
      assert ListOf(c, h, b) && LinkIn(c, h, m0, b, 0);
      header := freeList[b];
      freeList[b] := GetWord(header + 8);
      PutWord(header + 8, 0);
      PopRepresents(c, h, b, m0, f0, mem[..], freeList[..]);
      PopPreservesInv(c, h, b);
      h := Pop(h, b);
    }

    /** The bump branch of `malloc`, for a request of `size` rounded up to `size'`. */
    method CarveNew(size: u32, size': u32) returns (header: u32)
      requires Valid() && size' == BlockSize(c, size)
      modifies this`nextBlock, this`h, mem
      ensures header == 0 <==> NextBlock32(old(h.next), size') > c.top
      ensures header == 0 ==> h == old(h) && mem[..] == old(mem[..])
      ensures header != 0 ==> h == Bump(c, old(h), size) && header == old(h.next)
      ensures header == 0 || EndOfCarve(c, old(h), size) < WORD ==> Valid()
      ensures SameOutside(old(mem[..]), mem[..], header, header + DATA_OFFSET)
    {
      ghost var m0 := mem[..];
      header := nextBlock;
      var next := NextBlock32(nextBlock, size');
      if next > c.top {
        return 0;
      }
      nextBlock := next;
      PutWord(header, BLOCK_MAGIC);
      PutWord(header + 4, size');
      PutWord(header + 8, 0);
      BumpGrants(c, h, size);
      if EndOfCarve(c, h, size) < WORD { CarveRepresents(c, h, size, m0, freeList[..], mem[..]); }
      h := Bump(c, h, size);
    }

    /** The loop over the buckets: the bucket of a request and the size it is rounded up to. */
    method FindBucket(size: u32) returns (b: nat, size': u32)
      requires ValidConfig(c)
      ensures b == FirstFit(c.buckets, size, 0) && size' == BlockSize(c, size)
    {
      b, size' := 0, size;
      while b < |c.buckets|
        invariant 0 <= b <= |c.buckets|
        invariant FirstFit(c.buckets, size, b) == FirstFit(c.buckets, size, 0)
        invariant size' == size
      {
        if size <= c.buckets[b] {
          size' := c.buckets[b];
          break;
        }
        b := b + 1;
      }
    }

    /**
     * For every 32-bit size. The heap stays valid, and the block is as large as it says, if and only if the request
     * does not overflow; whatever the request, only a header is written and every live payload is kept.
     */
    method Malloc(size: u32) returns (p: u32, ghost q: Option<nat>)
      requires Valid()
      modifies this`nextBlock, this`h, mem, freeList
      ensures Valid() <==> !Overflows(c, old(h), size)
      ensures (h, q) == HeapModel.Malloc(c, old(h), size)
      ensures Holds(h, q, p, size)
      ensures q.Some? ==> SameButFor(old(h), h, q.value) && !IsLive(old(h), q.value)
      ensures q.Some? ==> SameOutside(old(mem[..]), mem[..], p - DATA_OFFSET, p)
      ensures q.None? ==> mem[..] == old(mem[..])
      ensures PayloadsKept(old(h), old(mem[..]), mem[..], None)
    {
      q := None;
      MallocGrants(c, h, size);
      MallocShape(c, h, size);
      if size == 0 {
        return 0, None;
      }
      ghost var h0, m0 := h, mem[..];
      var b, size' := FindBucket(size);
      if b < |c.buckets| { NonNull(c, h, m0, freeList[..], b); }
      var header: u32;
      if b < |c.buckets| && freeList[b] != 0 {
        q := Some(h.free[b][0]);
        header := TakeFree(b);
      } else {
        header := CarveNew(size, size');
        if header == 0 {
          return 0, None;
        }
        q := Some(|h0.blocks|);
      }
      HeaderWriteKeepsPayloads(c, h0, m0, mem[..], header);
      GrantedAddress(c, h0, size);
      p := header + DATA_OFFSET;
    }

    method Free(p: u32, ghost i: nat)
      requires Valid() && (p != 0 ==> IsLive(h, i) && Payload(h, i) == p)
      modifies this`h, mem, freeList
      ensures Valid()
      ensures p == 0 ==> h == old(h) && mem[..] == old(mem[..])
      ensures p != 0 ==> h == Release(c, old(h), i) && SameOutside(old(mem[..]), mem[..], p - DATA_OFFSET, p)
      ensures PayloadsKept(old(h), old(mem[..]), mem[..], None)
    {
      if p == 0 {
        return;
      }
      ghost var h0, m0, f0 := h, mem[..], freeList[..];
      assert HeaderIn(h, m0, i);
      var header := p - DATA_OFFSET;
      var magic := GetWord(header);
      if magic != BLOCK_MAGIC {
        return;
      }
      var size := GetWord(header + 4);
      var b := 0;
      while b < |c.buckets|
        invariant 0 <= b <= |c.buckets|
        invariant ExactFit(c.buckets, size, b) == ExactFit(c.buckets, size, 0)
        invariant mem[..] == m0 && freeList[..] == f0
      {
        if size == c.buckets[b] {
          PutWord(header + 8, freeList[b]);
          freeList[b] := header;
          break;
        }
        b := b + 1;
      }
      assert b == ExactFit(c.buckets, size, 0);
      ReleaseRepresents(c, h0, i, m0, f0, mem[..], freeList[..]);
      ReleasePreservesInv(c, h0, i);
      HeaderWriteKeepsPayloads(c, h0, m0, mem[..], header);
      h := Release(c, h, i);
    }

    /**
     * The product is formed in 32 bits. The block granted holds that many zero bytes, which is what was asked for
     * if and only if the product fits.
     */
    method Calloc(n: u32, size: u32) returns (p: u32, ghost q: Option<nat>)
      requires Valid() && (n != 0 && size != 0 ==> !Overflows(c, h, Wrap(n * size)))
      modifies this`nextBlock, this`h, mem, freeList
      ensures Valid()
      ensures if n == 0 || size == 0 then h == old(h) && q == None
              else (h, q) == HeapModel.Malloc(c, old(h), Wrap(n * size))
      ensures q.Some? ==> (Holds(h, q, p, n * size) <==> n * size < WORD)
      ensures Holds(h, q, p, Wrap(n * size)) && p + Wrap(n * size) <= WORD
      ensures q.Some? ==> forall a :: p <= a < p + Wrap(n * size) ==> mem[a] == 0
      ensures q.None? ==> mem[..] == old(mem[..])
      ensures PayloadsKept(old(h), old(mem[..]), mem[..], None)
    {
      if n == 0 || size == 0 {
        return 0, None;
      }
      p, q := Callocate(Wrap(n * size));
      if q.Some? { ProductFits(c, h, q.value, n, size); }
    }

    method Callocate(total: u32) returns (p: u32, ghost q: Option<nat>)
      requires Valid() && !Overflows(c, h, total)
      modifies this`nextBlock, this`h, mem, freeList
      ensures Valid() && (h, q) == HeapModel.Malloc(c, old(h), total)
      ensures Holds(h, q, p, total) && p + total <= WORD
      ensures q.Some? ==> forall a :: p <= a < p + total ==> mem[a] == 0
      ensures q.None? ==> mem[..] == old(mem[..])
      ensures PayloadsKept(old(h), old(mem[..]), mem[..], None)
    {
      p, q := Malloc(total);
      if p == 0 {
        return 0, None;
      }
      ghost var m1 := mem[..];
      BlockInHeap(c, h, q.value);
      ZeroBytes(p, total);
      PayloadWrite(c, h, m1, freeList[..], mem[..], q.value);
      KeptTwice(old(h), h, q.value, old(mem[..]), m1, mem[..]);
    }

    /** The fill loops of `calloc`. */
    method ZeroBytes(p: nat, n: nat)
      requires p + n <= mem.Length
      modifies mem
      ensures SameOutside(old(mem[..]), mem[..], p, p + n)
      ensures forall a :: p <= a < p + n ==> mem[a] == 0
    {
      var dst, total := p, n;
      while total >= 4
        invariant p <= dst && dst + total == p + n
        invariant forall a :: 0 <= a < mem.Length && !(p <= a < dst) ==> mem[a] == old(mem[a])
        invariant forall a :: p <= a < dst ==> mem[a] == 0
      {
        mem[dst], mem[dst + 1], mem[dst + 2], mem[dst + 3] := 0, 0, 0, 0;
        dst := dst + 4;
        total := total - 4;
      }
      while total > 0
        invariant p <= dst && dst + total == p + n
        invariant forall a :: 0 <= a < mem.Length && !(p <= a < dst) ==> mem[a] == old(mem[a])
        invariant forall a :: p <= a < dst ==> mem[a] == 0
      {
        mem[dst] := 0;
        dst := dst + 1;
        total := total - 1;
      }
    }

    method GetAllocated(p: u32, ghost i: nat) returns (size: u32)
      requires Valid() && (p != 0 ==> IsLive(h, i) && Payload(h, i) == p)
      ensures size == if p == 0 then 0 else h.blocks[i].size
    {
      if p == 0 {
        return 0;
      }
      assert HeaderIn(h, mem[..], i);
      size := 0;
      var magic := GetWord(p - DATA_OFFSET);
      if magic == BLOCK_MAGIC {
        size := GetWord(p - DATA_OFFSET + 4);
      }
    }

    /**
     * The copy loops of `realloc`. They read `n` bytes although the old block has only `size`, possibly
     * running into the bytes being written; what is promised is about the first `size`.
     */
    method CopyBytes(src: nat, dst: nat, n: nat, ghost size: nat)
      requires src + n <= mem.Length && dst + n <= mem.Length && size <= n
      requires src + size <= dst || dst + n <= src
      modifies mem
      ensures SameOutside(old(mem[..]), mem[..], dst, dst + n)
      ensures mem[..][dst..dst + size] == old(mem[..])[src..src + size]
    {
      ghost var m := mem[..];
      var count, k := CopyWords(src, dst, n, size);
      while count > 0
        invariant k + count == n
        invariant forall a :: 0 <= a < mem.Length && !(dst <= a < dst + k) ==> mem[a] == m[a]
        invariant forall a :: dst <= a < dst + k && a < dst + size ==> mem[a] == m[a - dst + src]
      {
        mem[dst + k] := mem[src + k];
        count, k := count - 1, k + 1;
      }
    }

    method CopyWords(src: nat, dst: nat, n: nat, ghost size: nat) returns (count: nat, k: nat)
      requires src + n <= mem.Length && dst + n <= mem.Length && size <= n
      requires src + size <= dst || dst + n <= src
      modifies mem
      ensures k + count == n && count < 4
      ensures forall a :: 0 <= a < mem.Length && !(dst <= a < dst + k) ==> mem[a] == old(mem[a])
      ensures forall a :: dst <= a < dst + k && a < dst + size ==> mem[a] == old(mem[a - dst + src])
    {
      count, k := n, 0;
      while count >= 4
        invariant k + count == n
        invariant forall a :: 0 <= a < mem.Length && !(dst <= a < dst + k) ==> mem[a] == old(mem[a])
        invariant forall a :: dst <= a < dst + k && a < dst + size ==> mem[a] == old(mem[a - dst + src])
      {
        MoveWord(src + k, dst + k);
        count, k := count - 4, k + 4;
      }
    }

    /** Copies one word. */
    method MoveWord(src: nat, dst: nat)
      requires src + 4 <= mem.Length && dst + 4 <= mem.Length
      modifies mem
      ensures forall a :: 0 <= a < mem.Length && !(dst <= a < dst + 4) ==> mem[a] == old(mem[a])
      ensures forall a :: dst <= a < dst + 4 ==> mem[a] == old(mem[a - dst + src])
    {
      mem[dst], mem[dst + 1], mem[dst + 2], mem[dst + 3] := mem[src], mem[src + 1], mem[src + 2], mem[src + 3];
    }

    /** Copies `n` bytes from the payload of block `i` over the payload of block `q`. */
    method CopyPayload(src: u32, dst: u32, n: u32, ghost i: nat, ghost q: nat)
      requires Valid() && IsLive(h, i) && IsLive(h, q) && i != q
      requires src == Payload(h, i) && dst == Payload(h, q) && h.blocks[i].size < n <= h.blocks[q].size
      modifies mem
      ensures Valid()
      ensures PayloadsKept(h, old(mem[..]), mem[..], Some(q))
      ensures Carried(old(mem[..]), mem[..], src, dst, h.blocks[i].size)
    {
      ghost var m := mem[..];
      PayloadsDisjoint(c, h, i, q);
      CopyBytes(src, dst, n, h.blocks[i].size);
      PayloadWrite(c, h, m, freeList[..], mem[..], q);
    }

    /** The allocation and the copy of a growing `realloc`. */
    method CopyToNew(p: u32, newSize: u32, ghost i: nat) returns (r: u32, ghost q: Option<nat>)
      requires Valid() && !Overflows(c, h, newSize)
      requires IsLive(h, i) && Payload(h, i) == p && h.blocks[i].size < newSize
      modifies this`nextBlock, this`h, mem, freeList
      ensures Valid()
      ensures (h, q) == HeapModel.Malloc(c, old(h), newSize)
      ensures Holds(h, q, r, newSize)
      ensures q.Some? ==> SameButFor(old(h), h, q.value) && !IsLive(old(h), q.value)
      ensures q.None? ==> mem[..] == old(mem[..])
      ensures q.Some? ==> Carried(old(mem[..]), mem[..], p, r, old(h.blocks[i].size))
      ensures PayloadsKept(old(h), old(mem[..]), mem[..], None)
    {
      ghost var h0, m0 := h, mem[..];
      BlockInHeap(c, h, i);
      r, q := Malloc(newSize);
      if r != 0 {
        ghost var m1 := mem[..];
        CopyPayload(p, r, newSize, i, q.value);
        CarriedFrom(h0, h, i, q.value, m0, m1, mem[..], r);
      }
    }

    method Realloc(p: u32, newSize: u32, ghost i: nat) returns (r: u32, ghost q: Option<nat>)
      requires Valid() && (p != 0 ==> IsLive(h, i) && Payload(h, i) == p)
      requires !(p != 0 && h.blocks[i].size >= newSize) ==> !Overflows(c, h, newSize)
      modifies this`nextBlock, this`h, mem, freeList
      ensures Valid()
      ensures (h, q) == HeapModel.Realloc(c, old(h), if p == 0 then None else Some(i), newSize)
      ensures Holds(h, q, r, newSize)
      ensures q.None? && newSize != 0 ==> h == old(h) && mem[..] == old(mem[..])
      ensures q.Some? && p != 0 ==> Carried(old(mem[..]), mem[..], p, r, old(h.blocks[i].size))
      ensures PayloadsKept(old(h), old(mem[..]), mem[..], None)
    {
      if p == 0 {
        r, q := Malloc(newSize);
        return;
      }
      BlockInHeap(c, h, i);
      if newSize == 0 {
        Free(p, i);
        return 0, None;
      }
      var currentSize := GetAllocated(p, i);
      if currentSize >= newSize {
        return p, Some(i);
      }
      r, q := Grow(p, newSize, i);
    }

    method Grow(p: u32, newSize: u32, ghost i: nat) returns (r: u32, ghost q: Option<nat>)
      requires Valid() && !Overflows(c, h, newSize)
      requires p != 0 && IsLive(h, i) && Payload(h, i) == p && h.blocks[i].size < newSize
      modifies this`nextBlock, this`h, mem, freeList
      ensures Valid()
      ensures (h, q) == HeapModel.Realloc(c, old(h), Some(i), newSize)
      ensures Holds(h, q, r, newSize)
      ensures q.None? ==> h == old(h) && mem[..] == old(mem[..])
      ensures q.Some? ==> Carried(old(mem[..]), mem[..], p, r, old(h.blocks[i].size))
      ensures PayloadsKept(old(h), old(mem[..]), mem[..], None)
    {
      ghost var h0, m0 := h, mem[..];
      r, q := CopyToNew(p, newSize, i);
      if r == 0 {
        return;
      }
      ghost var h1, m1 := h, mem[..];
      BlockInHeap(c, h1, q.value);
      Free(p, i);
      CarriedOn(h0, h1, q.value, m0, m1, mem[..], p, h0.blocks[i].size);
    }
  }

  lemma ProductFits(c: Config, h: Heap, i: nat, n: u32, size: u32)
    requires ValidConfig(c) && Inv(c, h) && i < |h.blocks| && h.blocks[i].size >= Wrap(n * size)
    ensures h.blocks[i].size >= n * size <==> n * size < WORD
  {
    BlockInHeap(c, h, i);
    NatProduct(n, size);
    WrapsToItself(n * size);
  }

  lemma NatProduct(a: nat, b: nat)
    ensures a * b >= 0
  {
  }

  /** A null pointer for `None`; for `Some(q)` the payload of the live block `q`, of at least `size` bytes. */
  ghost predicate Holds(h: Heap, q: Option<nat>, p: nat, size: nat) {
    match q
    case None => p == 0
    case Some(i) => IsLive(h, i) && p == Payload(h, i) && p != 0 && h.blocks[i].size >= size
  }

  /** The `n` bytes at `p` in `m` are the `n` bytes at `r` in `m'`. */
  ghost predicate Carried(m: seq<byte>, m': seq<byte>, p: nat, r: nat, n: nat) {
    p + n <= |m| && r + n <= |m'| && m'[r..r + n] == m[p..p + n]
  }

  lemma CarriedFrom(h: Heap, h': Heap, i: nat, q: nat, m: seq<byte>, m1: seq<byte>, m2: seq<byte>, r: nat)
    requires IsLive(h, i) && Payload(h, i) + h.blocks[i].size <= |m| && SameButFor(h, h', q) && !IsLive(h, q)
    requires PayloadsKept(h, m, m1, None) && PayloadsKept(h', m1, m2, Some(q))
    requires Carried(m1, m2, Payload(h, i), r, h.blocks[i].size)
    ensures Carried(m, m2, Payload(h, i), r, h.blocks[i].size)
    ensures PayloadsKept(h, m, m2, None)
  {
    KeptTwice(h, h', q, m, m1, m2);
    assert Contents(h, m1, i) == Contents(h, m, i);
  }

  lemma CarriedOn(h: Heap, h': Heap, q: nat, m: seq<byte>, m1: seq<byte>, m2: seq<byte>, p: nat, n: nat)
    requires IsLive(h', q) && n <= h'.blocks[q].size && Payload(h', q) + h'.blocks[q].size <= |m1|
    requires SameButFor(h, h', q) && !IsLive(h, q)
    requires Carried(m, m1, p, Payload(h', q), n)
    requires PayloadsKept(h, m, m1, None) && PayloadsKept(h', m1, m2, None)
    ensures Carried(m, m2, p, Payload(h', q), n)
    ensures PayloadsKept(h, m, m2, None)
  {
    var r := Payload(h', q);
    assert Contents(h', m2, q) == Contents(h', m1, q);
    assert m2[r..r + n] == Contents(h', m2, q)[..n] && m1[r..r + n] == Contents(h', m1, q)[..n];
    KeptTwice(h, h', q, m, m1, m2);
  }
}
