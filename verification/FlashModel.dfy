/**
 * The flash driver of lib-flashcode/src/gd32/fmc/flashcode.cpp: `Erase` and `Write` are stepped by
 * repeated calls and report with a Boolean whether they have finished.
 */
module FlashModel {
  import opened Words

  datatype Phase = Ready | EraseBusy | EraseProgram | WriteBusy | WriteProgram

  /** `page` and `address` are offsets from the start of the flash, `data` an offset into the source image. */
  datatype Driver = Driver(phase: Phase, page: nat, address: nat, data: nat, length: u32)

  datatype Poll = Poll(driver: Driver, flash: seq<bv8>, done: bool)

  const ERASED: bv8 := 0xFF

  /** Erasing sets every bit of the page. */
  function ErasePage(flash: seq<bv8>, page: nat, pageSize: nat): (f: seq<bv8>)
    ensures |f| == |flash|
    ensures forall a :: 0 <= a < |flash| ==> f[a] == if page <= a < page + pageSize then ERASED else flash[a]
  {
    seq(|flash|, a requires 0 <= a < |flash| => if page <= a < page + pageSize then ERASED else flash[a])
  }

  /** Programming a byte can only clear bits. */
  function Program(old': bv8, new': bv8): (r: bv8)
    ensures old' == ERASED ==> r == new'
    ensures new' == ERASED ==> r == old'
    ensures r | old' == old'
  {
    old' & new'
  }

  function ProgramWord(flash: seq<bv8>, a: nat, image: seq<bv8>, d: nat): (f: seq<bv8>)
    requires a + 4 <= |flash| && d + 4 <= |image|
    ensures |f| == |flash|
    ensures forall b :: 0 <= b < |flash| ==>
              f[b] == if a <= b < a + 4 then Program(flash[b], image[d + b - a]) else flash[b]
  {
    seq(|flash|, b requires 0 <= b < |flash| =>
      if a <= b < a + 4 then Program(flash[b], image[d + b - a]) else flash[b])
  }

  /** One call of `Erase`; `busy` is what the flash controller reports. */
  function Erase(d: Driver, flash: seq<bv8>, pageSize: nat, offset: nat, length: u32, busy: bool): Poll {
    match d.phase
    case Ready => Poll(d.(phase := EraseBusy, page := offset, length := length), flash, false)
    case EraseBusy =>
      if busy then Poll(d, flash, false)
      else if d.length == 0 then Poll(d.(phase := Ready), flash, true)
      else Poll(d.(phase := EraseProgram), flash, false)
    case EraseProgram =>
      if d.length > 0 then
        Poll(d.(phase := EraseBusy, page := d.page + pageSize, length := Wrap(d.length - pageSize)),
             ErasePage(flash, d.page, pageSize), false)
      else
        Poll(d.(phase := EraseBusy), flash, false)
    case WriteBusy => Poll(d.(phase := Ready), flash, false)
    case WriteProgram => Poll(d.(phase := Ready), flash, false)
  }

  /** The word a `Write` call programs lies inside the flash and its source inside the image. */
  predicate WriteInRange(d: Driver, flash: seq<bv8>, image: seq<bv8>) {
    d.phase == WriteProgram && d.length > 0 ==> d.address + 4 <= |flash| && d.data + 4 <= |image|
  }

  /** One call of `Write` of `image`. A rest of one to three bytes is programmed but never counted off. */
  function Write(d: Driver, flash: seq<bv8>, image: seq<bv8>, offset: nat, length: u32, busy: bool): Poll
    requires WriteInRange(d, flash, image)
  {
    match d.phase
    case Ready => Poll(d.(phase := WriteBusy, address := offset, data := 0, length := length), flash, false)
    case WriteBusy =>
      if busy then Poll(d, flash, false)
      else if d.length == 0 then Poll(d.(phase := Ready), flash, true)
      else Poll(d.(phase := WriteProgram), flash, false)
    case WriteProgram =>
      if d.length >= 4 then
        Poll(d.(phase := WriteBusy, address := d.address + 4, data := d.data + 4, length := d.length - 4),
             ProgramWord(flash, d.address, image, d.data), false)
      else if d.length > 0 then
        Poll(d.(phase := WriteBusy), ProgramWord(flash, d.address, image, d.data), false)
      else
        Poll(d.(phase := WriteBusy), flash, false)
    case EraseBusy => Poll(d.(phase := Ready), flash, false)
    case EraseProgram => Poll(d.(phase := Ready), flash, false)
  }

  /** `n` calls of `Write` on a flash that is never busy. */
  ghost function WriteCalls(p: Poll, image: seq<bv8>, offset: nat, length: u32, n: nat): Poll
    decreases n
  {
    if n == 0 || p.done || !WriteInRange(p.driver, p.flash, image) then p
    else WriteCalls(Write(p.driver, p.flash, image, offset, length, false), image, offset, length, n - 1)
  }

  /**
   * `Write` finishes if and only if the length is a multiple of four: otherwise the last partial word is
   * programmed over and over.
   */
  lemma WriteFinishesIffWholeWords(flash: seq<bv8>, image: seq<bv8>, offset: nat, length: u32)
    requires offset + length + 4 <= |flash| && length + 4 <= |image|
    ensures var start := Poll(Driver(Ready, 0, 0, 0, 0), flash, false);
            && ((exists n: nat :: WriteCalls(start, image, offset, length, n).done) <==> length % 4 == 0)
            && (length % 4 == 0 ==>
                  Programmed(flash, WriteCalls(start, image, offset, length, 2 * (length / 4) + 2).flash,
                             offset, image, 0, length))
  {
    var start := Poll(Driver(Ready, 0, 0, 0, 0), flash, false);
    var first := Write(start.driver, flash, image, offset, length, false);
    if length % 4 == 0 {
      WholeWordsFinish(first, image, offset, length);
      assert WriteCalls(start, image, offset, length, 1 + (2 * (length / 4) + 1)).done;
      assert 1 + (2 * (length / 4) + 1) == 2 * (length / 4) + 2;
    } else {
      forall n: nat ensures !WriteCalls(start, image, offset, length, n).done {
        if n > 0 { PartialWordNeverFinishes(first, image, offset, length, n - 1); }
      }
    }
  }

  /** The `n` bytes at `a` are programmed with those of the image at `d`, and no other byte has changed. */
  predicate Programmed(flash: seq<bv8>, flash': seq<bv8>, a: nat, image: seq<bv8>, d: nat, n: nat)
    requires d + n <= |image|
  {
    && |flash'| == |flash|
    && forall b :: 0 <= b < |flash| ==>
         flash'[b] == if a <= b < a + n then Program(flash[b], image[d + b - a]) else flash[b]
  }

  /** A partial word is programmed as a whole, over and over; the driver does not move on. */
  lemma PartialWordRepeats(d: Driver, flash: seq<bv8>, image: seq<bv8>, offset: nat, length: u32)
    requires d.phase == WriteProgram && 0 < d.length < 4 && WriteInRange(d, flash, image)
    ensures var p := Write(d, flash, image, offset, length, false);
            var p' := Write(p.driver, p.flash, image, offset, length, false);
            && Programmed(flash, p.flash, d.address, image, d.data, 4) && p'.driver == d && p'.flash == p.flash
            && !p.done && !p'.done && Write(d, p.flash, image, offset, length, false) == p
  {
    ProgramTwice(flash, d.address, image, d.data);
  }

  lemma ProgramTwice(flash: seq<bv8>, a: nat, image: seq<bv8>, d: nat)
    requires a + 4 <= |flash| && d + 4 <= |image|
    ensures ProgramWord(ProgramWord(flash, a, image, d), a, image, d) == ProgramWord(flash, a, image, d)
  {
    forall x: bv8, y: bv8 ensures Program(Program(x, y), y) == Program(x, y) {
    }
  }

  lemma WordThenRest(flash: seq<bv8>, f1: seq<bv8>, f2: seq<bv8>, a: nat, image: seq<bv8>, d: nat, n: nat)
    requires n >= 4 && d + n <= |image| && a + n <= |flash|
    requires Programmed(flash, f1, a, image, d, 4) && Programmed(f1, f2, a + 4, image, d + 4, n - 4)
    ensures Programmed(flash, f2, a, image, d, n)
  {
  }

  /** One word: a call that finds the device ready, and one that programs. */
  lemma OneWord(p: Poll, image: seq<bv8>, offset: nat, length: u32, n: nat) returns (q: Poll)
    requires p.driver.phase == WriteBusy && !p.done && p.driver.length >= 4
    requires p.driver.address + p.driver.length <= |p.flash| && p.driver.data + p.driver.length <= |image|
    ensures WriteCalls(p, image, offset, length, n + 2) == WriteCalls(q, image, offset, length, n)
    ensures q.driver == Driver(WriteBusy, p.driver.page, p.driver.address + 4, p.driver.data + 4, p.driver.length - 4)
    ensures !q.done && Programmed(p.flash, q.flash, p.driver.address, image, p.driver.data, 4)
  {
    var p1 := Write(p.driver, p.flash, image, offset, length, false);
    q := Write(p1.driver, p1.flash, image, offset, length, false);
    assert WriteCalls(p, image, offset, length, n + 2) == WriteCalls(p1, image, offset, length, n + 1);
  }

  lemma {:induction false} WholeWordsFinish(p: Poll, image: seq<bv8>, offset: nat, length: u32)
    requires p.driver.phase == WriteBusy && !p.done && p.driver.length % 4 == 0
    requires p.driver.address + p.driver.length <= |p.flash| && p.driver.data + p.driver.length <= |image|
    ensures var q := WriteCalls(p, image, offset, length, 2 * (p.driver.length / 4) + 1);
            q.done && Programmed(p.flash, q.flash, p.driver.address, image, p.driver.data, p.driver.length)
    decreases p.driver.length
  {
    if p.driver.length > 0 {
      var n := 2 * ((p.driver.length - 4) / 4) + 1;
      var q := OneWord(p, image, offset, length, n);
      WholeWordsFinish(q, image, offset, length);
      var f := WriteCalls(q, image, offset, length, n).flash;
      WordThenRest(p.flash, q.flash, f, p.driver.address, image, p.driver.data, p.driver.length);
    } else {
      var p1 := Write(p.driver, p.flash, image, offset, length, false);
      assert WriteCalls(p, image, offset, length, 1) == WriteCalls(p1, image, offset, length, 0);
    }
  }

  lemma {:induction false} PartialWordNeverFinishes(p: Poll, image: seq<bv8>, offset: nat, length: u32, n: nat)
    requires p.driver.phase in {WriteBusy, WriteProgram} && !p.done && p.driver.length % 4 != 0
    ensures !WriteCalls(p, image, offset, length, n).done
    decreases n
  {
    if n > 0 && WriteInRange(p.driver, p.flash, image) {
      PartialWordNeverFinishes(Write(p.driver, p.flash, image, offset, length, false), image, offset, length, n - 1);
    }
  }
}
