/** Properties of every interleaving of changes, commit steps and device completions, and of a reboot after it. */
module ConfigRuns {
  import opened Words
  import opened FlashModel
  import opened ConfigModel

  datatype Event =
    | DoUpdate(offset: nat, value: seq<bv8>, id: int)
    | DoUpdateArray(offset: nat, n: nat, source: seq<bv8>, id: int)
    | DoReset(id: int)
    | DoCommit(busy: bool)
    | DoTimer(busy: bool)

  /** Updates address members behind the header; only an armed timer fires. */
  predicate Legal(s: Sys, e: Event) {
    match e
    case DoUpdate(offset, value, _) => HEADER_SIZE <= offset && offset + |value| <= IMAGE_SIZE
    case DoUpdateArray(offset, n, _, _) => HEADER_SIZE <= offset && offset + n <= IMAGE_SIZE
    case DoTimer(_) => s.timer != TIMER_ID_NONE
    case _ => true
  }

  function Apply(c: Config, s: Sys, e: Event): (s': Sys)
    requires ValidConfig(c) && Inv(c, s) && Legal(s, e)
    ensures Inv(c, s')
  {
    match e
    case DoUpdate(offset, value, id) => Update(s, offset, value, id)
    case DoUpdateArray(offset, n, source, id) => UpdateArray(s, offset, n, source, id)
    case DoReset(id) => ConfigModel.Reset(s, id)
    case DoCommit(busy) => CommitInv(c, s, busy); Commit(c, s, busy).0
    case DoTimer(busy) => CommitInv(c, s, busy); TimerTick(c, s, busy)
  }

  ghost predicate LegalRun(c: Config, s: Sys, es: seq<Event>)
    requires ValidConfig(c) && Inv(c, s)
    decreases |es|
  {
    es == [] || (Legal(s, es[0]) && LegalRun(c, Apply(c, s, es[0]), es[1..]))
  }

  /** The state at the end of a run; the invariant holds there, whatever the run. */
  ghost function Final(c: Config, s: Sys, es: seq<Event>): (s': Sys)
    requires ValidConfig(c) && Inv(c, s) && LegalRun(c, s, es)
    ensures Inv(c, s')
    decreases |es|
  {
    if es == [] then s else Final(c, Apply(c, s, es[0]), es[1..])
  }

  // ---------------------------------------------------------------- what is written, and where

  /** A word is only ever programmed over erased flash, so that the AND stores exactly the image. */
  lemma ProgramIsExact(c: Config, s: Sys, busy: bool)
    requires ValidConfig(c) && Inv(c, s) && s.state == Writing && s.driver.phase == WriteProgram
    ensures var a, d, s' := s.driver.address, s.driver.data, Commit(c, s, busy).0;
            && ErasedFrom(s.flash, a, a + 4)
            && Written(c, s, d)
            && s'.driver.data == d + 4 && Written(c, s', d + 4)
  {
    CommitInv(c, s, busy);
  }

  /** Idle means stored. */
  lemma IdleIsStored(c: Config, s: Sys)
    requires Inv(c, s) && s.state == Idle
    ensures s.flash[c.start..c.start + IMAGE_SIZE] == s.ram[..IMAGE_SIZE]
  {
  }

  predicate SameOutsideStore(c: Config, flash: seq<bv8>, flash': seq<bv8>) {
    |flash'| == |flash| &&
    forall a :: 0 <= a < |flash| && !(c.start <= a < c.start + STORE_SIZE) ==> flash'[a] == flash[a]
  }

  /** No run touches a byte of the flash outside the 4 KiB of the store. */
  lemma {:induction false} RunKeepsOtherFlash(c: Config, s: Sys, es: seq<Event>)
    requires ValidConfig(c) && Inv(c, s) && LegalRun(c, s, es)
    ensures SameOutsideStore(c, s.flash, Final(c, s, es).flash)
    decreases |es|
  {
    if es == [] {
    } else {
      if !IsChange(es[0]) { CommitKeepsOtherFlash(c, s, es[0].busy); }
      RunKeepsOtherFlash(c, Apply(c, s, es[0]), es[1..]);
    }
  }

  lemma CommitKeepsOtherFlash(c: Config, s: Sys, busy: bool)
    requires ValidConfig(c) && Inv(c, s)
    ensures SameOutsideStore(c, s.flash, Commit(c, s, busy).0.flash)
  {
    if s.state == Erasing && s.driver.phase == EraseProgram { PageInStore(c, s); }
  }

  lemma PageInStore(c: Config, s: Sys)
    requires ValidConfig(c) && EraseInv(c, s) && s.driver.length > 0
    ensures c.start <= s.driver.page && s.driver.page + c.pageSize <= c.start + STORE_SIZE
  {
  }

  // ---------------------------------------------------------------- the timer

  predicate IsChange(e: Event) {
    e.DoUpdate? || e.DoUpdateArray? || e.DoReset?
  }

  /** As long as the pool has a timer to give, unfinished work always has an armed timer. */
  predicate PoolHasRoom(e: Event) {
    IsChange(e) ==> e.id != TIMER_ID_NONE
  }

  lemma {:induction false} RunKeepsArmed(c: Config, s: Sys, es: seq<Event>)
    requires ValidConfig(c) && Inv(c, s) && LegalRun(c, s, es) && Armed(s)
    requires forall e :: e in es ==> PoolHasRoom(e)
    ensures Armed(Final(c, s, es))
    decreases |es|
  {
    if es == [] {
    } else {
      var s' := Apply(c, s, es[0]);
      assert PoolHasRoom(es[0]);
      if !IsChange(es[0]) { CommitInv(c, s, es[0].busy); }
      RunKeepsArmed(c, s', es[1..]);
    }
  }

  /** Otherwise a change is left without a timer exactly when none was armed and the pool gave none. */
  lemma ChangeArmsUnlessPoolFull(c: Config, s: Sys, e: Event)
    requires ValidConfig(c) && Inv(c, s) && Legal(s, e) && IsChange(e) && Armed(s)
    ensures var s' := Apply(c, s, e);
            Armed(s') <==> s' == s || s.timer != TIMER_ID_NONE || e.id != TIMER_ID_NONE
  {
  }

  // ---------------------------------------------------------------- update semantics

  /** `UpdateArray` stores the zero-padded source, except over a longer value of which the source is a prefix. */
  lemma UpdateArrayStores(s: Sys, offset: nat, n: nat, source: seq<bv8>, id: int)
    requires offset + n <= |s.ram|
    ensures var length := if |source| > n then n else |source|;
            var old', new' := s.ram[offset..offset + n], UpdateArray(s, offset, n, source, id).ram[offset..offset + n];
            new' == source[..length] + Zeros(n - length)
            <==> !(old'[..length] == source[..length] && old'[length..] != Zeros(n - length))
  {
    var length := if |source| > n then n else |source|;
    var s' := UpdateArray(s, offset, n, source, id);
    var old', new', want := s.ram[offset..offset + n], s'.ram[offset..offset + n], source[..length] + Zeros(n - length);
    assert s.ram[offset..offset + length] == old'[..length];
    if old'[..length] == source[..length] {
      assert old' == old'[..length] + old'[length..];
      assert want[length..] == Zeros(n - length);
    } else {
      assert |want| == n;
      assert new' == want;
    }
  }

  /** The event writes byte `a`; an `UpdateArray` clears what it does not fill only if it changes something. */
  predicate WritesByte(s: Sys, e: Event, a: nat)
    requires Legal(s, e) && |s.ram| == STORE_SIZE
  {
    match e
    case DoUpdate(offset, value, _) => offset <= a < offset + |value|
    case DoUpdateArray(offset, n, source, _) =>
      var length := Min(n, |source|);
      offset <= a < offset + length
      || (offset <= a < offset + n && !StartsWith(s.ram, offset, source, length))
    case DoReset(_) => true
    case DoCommit(_) => false
    case DoTimer(_) => false
  }

  function ByteWritten(s: Sys, e: Event, a: nat): bv8
    requires Legal(s, e) && |s.ram| == STORE_SIZE && WritesByte(s, e, a)
  {
    match e
    case DoUpdate(offset, value, _) => value[a - offset]
    case DoUpdateArray(offset, _, source, _) => if a - offset < |source| then source[a - offset] else 0
    case DoReset(_) => 0
  }

  /** What the last event that wrote byte `a` wrote, if any did. */
  ghost function LastWritten(c: Config, s: Sys, es: seq<Event>, a: nat): Option<bv8>
    requires ValidConfig(c) && Inv(c, s) && LegalRun(c, s, es)
    decreases |es|
  {
    if es == [] then None
    else
      var later := LastWritten(c, Apply(c, s, es[0]), es[1..], a);
      if later.Some? then later
      else if WritesByte(s, es[0], a) then Some(ByteWritten(s, es[0], a))
      else None
  }

  predicate StartsWith(ram: seq<bv8>, offset: nat, bytes: seq<bv8>, n: nat)
    requires offset + n <= |ram| && n <= |bytes|
  {
    forall a :: offset <= a < offset + n ==> ram[a] == bytes[a - offset]
  }

  lemma StartsWithSlice(ram: seq<bv8>, offset: nat, bytes: seq<bv8>, n: nat)
    requires offset + n <= |ram| && n <= |bytes|
    ensures ram[offset..offset + n] == bytes[..n] <==> StartsWith(ram, offset, bytes, n)
  {
    if ram[offset..offset + n] == bytes[..n] {
      forall a | offset <= a < offset + n ensures ram[a] == bytes[a - offset] {
        assert ram[offset..offset + n][a - offset] == bytes[..n][a - offset];
      }
    }
  }

  /** The image was changed and the commit starts again; a timer is asked for if there was none. */
  predicate Restarted(s: Sys, s': Sys, id: int) {
    s'.state == Changed && s'.timer == (if s.timer == TIMER_ID_NONE then id else s.timer)
    && s'.driver == s.driver && s'.flash == s.flash
  }

  /** The array is replaced as a whole, the rest of it zero, or starts with the source already. */
  predicate ArrayStored(s: Sys, s': Sys, offset: nat, n: nat, source: seq<bv8>, id: int)
    requires offset + n <= |s.ram|
  {
    var length := Min(n, |source|);
    if StartsWith(s.ram, offset, source, length) then s' == s
    else
      && |s'.ram| == |s.ram| && Restarted(s, s', id)
      && forall a :: 0 <= a < |s.ram| ==>
           s'.ram[a] == if !(offset <= a < offset + n) then s.ram[a]
                        else if a - offset < length then source[a - offset] else 0
  }

  lemma ArrayBytes(s: Sys, offset: nat, n: nat, source: seq<bv8>, id: int)
    requires offset + n <= |s.ram|
    ensures ArrayStored(s, UpdateArray(s, offset, n, source, id), offset, n, source, id)
  {
    StartsWithSlice(s.ram, offset, source, Min(n, |source|));
  }

  /** The value is stored and nothing else; if it was there already nothing changes. */
  lemma ValueBytes(s: Sys, offset: nat, value: seq<bv8>, id: int)
    requires offset + |value| <= |s.ram|
    ensures var s' := Update(s, offset, value, id);
            && |s'.ram| == |s.ram| && StartsWith(s'.ram, offset, value, |value|)
            && (forall a :: 0 <= a < |s.ram| && !(offset <= a < offset + |value|) ==> s'.ram[a] == s.ram[a])
            && if StartsWith(s.ram, offset, value, |value|) then s' == s else Restarted(s, s', id)
  {
    StartsWithSlice(s.ram, offset, value, |value|);
    assert value[..|value|] == value;
  }

  lemma ByteOfStep(c: Config, s: Sys, e: Event, a: nat)
    requires ValidConfig(c) && Inv(c, s) && Legal(s, e) && a < STORE_SIZE
    ensures Apply(c, s, e).ram[a] == if WritesByte(s, e, a) then ByteWritten(s, e, a) else s.ram[a]
  {
    if e.DoUpdate? {
      ValueBytes(s, e.offset, e.value, e.id);
    } else if e.DoUpdateArray? {
      ArrayBytes(s, e.offset, e.n, e.source, e.id);
    }
  }

  /** In every run each byte of the image is what the last event that wrote it wrote. */
  lemma {:induction false} ByteOfRun(c: Config, s: Sys, es: seq<Event>, a: nat)
    requires ValidConfig(c) && Inv(c, s) && LegalRun(c, s, es) && a < STORE_SIZE
    ensures var last := LastWritten(c, s, es, a);
            Final(c, s, es).ram[a] == if last.Some? then last.value else s.ram[a]
    decreases |es|
  {
    if es == [] {
    } else {
      ByteOfStep(c, s, es[0], a);
      ByteOfRun(c, Apply(c, s, es[0]), es[1..], a);
    }
  }

  // ---------------------------------------------------------------- reboot

  lemma {:induction false} HeaderSurvivesUpdates(c: Config, s: Sys, es: seq<Event>)
    requires ValidConfig(c) && Inv(c, s) && LegalRun(c, s, es)
    ensures (forall e :: e in es ==> !e.DoReset?) ==> Final(c, s, es).ram[..HEADER_SIZE] == s.ram[..HEADER_SIZE]
    ensures (exists e :: e in es && e.DoReset?) ==> Final(c, s, es).ram[..HEADER_SIZE] == Zeros(HEADER_SIZE)
    decreases |es|
  {
    if es == [] {
    } else {
      var s' := Apply(c, s, es[0]);
      HeaderSurvivesUpdates(c, s', es[1..]);
      if es[0].DoReset? {
        assert s'.ram[..HEADER_SIZE] == Zeros(HEADER_SIZE);
      } else {
        assert s'.ram[..HEADER_SIZE] == s.ram[..HEADER_SIZE];
      }
    }
  }

  lemma BootImageValid(c: Config, flash: seq<bv8>, id: int)
    requires ValidConfig(c) && c.start + STORE_SIZE <= |flash|
    ensures ImageValid(Boot(c, flash, id).ram)
  {
  }

  lemma HeaderDecides(ram: seq<bv8>, ram': seq<bv8>)
    requires |ram| >= HEADER_SIZE && |ram'| >= HEADER_SIZE && ram[..HEADER_SIZE] == ram'[..HEADER_SIZE]
    ensures ImageValid(ram) == ImageValid(ram')
  {
    assert ram[0..4] == ram[..HEADER_SIZE][0..4] && ram'[0..4] == ram'[..HEADER_SIZE][0..4];
    assert ram[4..6] == ram[..HEADER_SIZE][4..6] && ram'[4..6] == ram'[..HEADER_SIZE][4..6];
  }

  lemma RebootFromIdle(c: Config, s: Sys, id: int)
    requires ValidConfig(c) && Inv(c, s) && s.state == Idle
    ensures var s' := Boot(c, s.flash, id);
            if ImageValid(s.ram) then s'.ram[..IMAGE_SIZE] == s.ram[..IMAGE_SIZE] && s'.state == Idle
            else s'.ram == FreshImage() && s'.state == Changed
  {
    IdleIsStored(c, s);
    var image := s.flash[c.start..c.start + STORE_SIZE];
    assert image[..IMAGE_SIZE] == s.ram[..IMAGE_SIZE];
    assert image[..HEADER_SIZE] == image[..IMAGE_SIZE][..HEADER_SIZE] == s.ram[..HEADER_SIZE];
    HeaderDecides(image, s.ram);
  }

  /**
   * A reboot in `kIdle` restores the image if and only if `Reset` was not called since the boot before;
   * after a `Reset`, and whatever was stored after it, the image is the fresh one.
   */
  lemma RebootRestores(c: Config, flash: seq<bv8>, id: int, es: seq<Event>, id': int)
    requires ValidConfig(c) && c.start + STORE_SIZE <= |flash|
    requires LegalRun(c, Boot(c, flash, id), es) && Final(c, Boot(c, flash, id), es).state == Idle
    ensures var s := Final(c, Boot(c, flash, id), es);
            var s' := Boot(c, s.flash, id');
            && (s'.ram[..IMAGE_SIZE] == s.ram[..IMAGE_SIZE] <==> forall e :: e in es ==> !e.DoReset?)
            && ((exists e :: e in es && e.DoReset?) ==> s'.ram == FreshImage() && s'.state == Changed)
  {
    var s0 := Boot(c, flash, id);
    var s := Final(c, s0, es);
    HeaderSurvivesUpdates(c, s0, es);
    RebootFromIdle(c, s, id');
    BootImageValid(c, flash, id);
    if forall e :: e in es ==> !e.DoReset? {
      HeaderDecides(s.ram, s0.ram);
    } else {
      ZeroHeaderInvalid(s.ram);
    }
  }

  lemma ZeroHeaderInvalid(ram: seq<bv8>)
    requires |ram| == STORE_SIZE && ram[..HEADER_SIZE] == Zeros(HEADER_SIZE)
    ensures !ImageValid(ram)
    ensures ram[..IMAGE_SIZE] != FreshImage()[..IMAGE_SIZE]
  {
    assert ram[0..4][0] == ram[..HEADER_SIZE][0] == 0;
    assert ram[..IMAGE_SIZE][0] == ram[0];
    assert FreshImage()[..IMAGE_SIZE][0] == FreshImage()[0..4][0];
  }

  /**
   * A reboot in the middle of `kWriting` takes the torn image for a valid one exactly when the two words
   * that hold magic number and version had been programmed; the members not yet programmed then read 0xFF.
   */
  lemma TornWriteAccepted(c: Config, s: Sys, id: int)
    requires ValidConfig(c) && Inv(c, s) && s.state == Writing && InWrite(s.driver) && ImageValid(s.ram)
    ensures var s', n := Boot(c, s.flash, id), s.driver.data;
            && (s'.state == Idle <==> n >= 8)
            && (s'.state == Idle ==>
                  s'.ram[..n] == s.ram[..n] && forall a :: n <= a < IMAGE_SIZE ==> s'.ram[a] == ERASED)
  {
    var n, image := s.driver.data, s.flash[c.start..c.start + STORE_SIZE];
    forall a | 0 <= a < IMAGE_SIZE ensures image[a] == if a < n then s.ram[a] else ERASED {
      assert image[a] == s.flash[c.start + a];
    }
    ValidBytes(image);
    ValidBytes(s.ram);
    if n >= 8 { assert image[..n] == s.ram[..n]; }
  }

  // ---------------------------------------------------------------- what a reboot finds, in any state

  /**
   * The image last programmed and how much of it, and how much of the store was erased since, both from the start.
   * Erasing goes by pages.
   */
  datatype Content = Content(image: seq<bv8>, written: nat, erased: nat)

  /** The flash as it is when the store boots. */
  function ContentAtBoot(c: Config, flash: seq<bv8>): Content
    requires c.start + STORE_SIZE <= |flash|
  {
    Content(flash[c.start..c.start + STORE_SIZE], IMAGE_SIZE, 0)
  }

  function ByteAt(k: Content, a: nat): bv8
    requires a < |k.image|
  {
    if k.erased <= a < k.written then k.image[a] else ERASED
  }

  ghost predicate Holds(c: Config, s: Sys, k: Content) {
    && |k.image| == STORE_SIZE && k.written <= IMAGE_SIZE && k.written % 4 == 0
    && (k.erased == 0 || 2048 <= k.erased)
    && c.start + STORE_SIZE <= |s.flash|
    && forall a :: c.start <= a < c.start + IMAGE_SIZE ==> s.flash[a] == ByteAt(k, a - c.start)
  }

  /** Only the start of a page erase and of a word program change it. */
  function NextContent(c: Config, s: Sys, k: Content, e: Event): Content {
    if IsChange(e) then k
    else if s.state == Erasing && s.driver.phase == EraseProgram then
      k.(erased := Max(k.erased, s.driver.page + c.pageSize - c.start))
    else if s.state == Writing && s.driver.phase == WriteProgram then Content(s.ram, s.driver.data + 4, 0)
    else k
  }

  lemma EraseContent(c: Config, s: Sys, k: Content, busy: bool)
    requires ValidConfig(c) && Inv(c, s) && Holds(c, s, k)
    requires s.state == Erasing && s.driver.phase == EraseProgram
    ensures Holds(c, Commit(c, s, busy).0, NextContent(c, s, k, DoCommit(busy)))
  {
    var s', k' := Commit(c, s, busy).0, NextContent(c, s, k, DoCommit(busy));
    forall a | c.start <= a < c.start + IMAGE_SIZE ensures s'.flash[a] == ByteAt(k', a - c.start) {
      assert a < s.driver.page ==> s.flash[a] == ERASED;
    }
  }

  lemma WriteContent(c: Config, s: Sys, k: Content, busy: bool)
    requires ValidConfig(c) && Inv(c, s) && s.state == Writing && s.driver.phase == WriteProgram
    ensures Holds(c, Commit(c, s, busy).0, NextContent(c, s, k, DoCommit(busy)))
  {
    WriteStepInv(c, s, busy);
    ProgramIsExact(c, s, busy);
  }

  lemma CommitContent(c: Config, s: Sys, k: Content, busy: bool)
    requires ValidConfig(c) && Inv(c, s) && Holds(c, s, k)
    ensures Holds(c, Commit(c, s, busy).0, NextContent(c, s, k, DoCommit(busy)))
  {
    if s.state == Erasing && s.driver.phase == EraseProgram {
      EraseContent(c, s, k, busy);
    } else if s.state == Writing && s.driver.phase == WriteProgram {
      WriteContent(c, s, k, busy);
    }
  }

  lemma StepContent(c: Config, s: Sys, k: Content, e: Event)
    requires ValidConfig(c) && Inv(c, s) && Legal(s, e) && Holds(c, s, k)
    ensures Holds(c, Apply(c, s, e), NextContent(c, s, k, e))
  {
    if !IsChange(e) { CommitContent(c, s, k, e.busy); }
  }

  ghost function ContentAfter(c: Config, s: Sys, k: Content, es: seq<Event>): (k': Content)
    requires ValidConfig(c) && Inv(c, s) && LegalRun(c, s, es) && Holds(c, s, k)
    ensures Holds(c, Final(c, s, es), k')
    decreases |es|
  {
    if es == [] then k
    else StepContent(c, s, k, es[0]); ContentAfter(c, Apply(c, s, es[0]), NextContent(c, s, k, es[0]), es[1..])
  }

  lemma BootContent(c: Config, flash: seq<bv8>, id: int)
    requires ValidConfig(c) && c.start + STORE_SIZE <= |flash|
    ensures Holds(c, Boot(c, flash, id), ContentAtBoot(c, flash))
  {
  }

  /** What the flash holds at the end of a run from boot. */
  ghost function ContentOfRun(c: Config, flash: seq<bv8>, id: int, es: seq<Event>): (k: Content)
    requires ValidConfig(c) && c.start + STORE_SIZE <= |flash| && LegalRun(c, Boot(c, flash, id), es)
    ensures Holds(c, Final(c, Boot(c, flash, id), es), k)
  {
    BootContent(c, flash, id);
    ContentAfter(c, Boot(c, flash, id), ContentAtBoot(c, flash), es)
  }

  /** A reboot accepts what it finds exactly if the first page was not erased and the first eight bytes are in. */
  lemma RebootFinds(c: Config, s: Sys, k: Content, id: int)
    requires ValidConfig(c) && Holds(c, s, k)
    ensures var s' := Boot(c, s.flash, id);
            && (s'.state == Idle <==> k.erased == 0 && k.written >= 8 && ImageValid(k.image))
            && (s'.state == Idle ==> forall a :: 0 <= a < IMAGE_SIZE ==> s'.ram[a] == ByteAt(k, a))
            && (s'.state != Idle ==> s'.ram == FreshImage())
  {
    var image := s.flash[c.start..c.start + STORE_SIZE];
    forall a | 0 <= a < IMAGE_SIZE ensures image[a] == ByteAt(k, a) {
      assert image[a] == s.flash[c.start + a];
    }
    ValidBytes(image);
    ValidBytes(k.image);
  }

  lemma ValidBytes(ram: seq<bv8>)
    requires |ram| >= HEADER_SIZE
    ensures ImageValid(ram) <==>
              && ram[0] == MAGIC[0] && ram[1] == MAGIC[1] && ram[2] == MAGIC[2] && ram[3] == MAGIC[3]
              && ram[4] == VERSION[0] && ram[5] == VERSION[1]
  {
    assert ram[0..4] == [ram[0], ram[1], ram[2], ram[3]];
    assert ram[4..6] == [ram[4], ram[5]];
  }

  /**
   * In every state a run from boot can reach: a reboot accepts a torn image if and only if no page was erased since
   * its words began to be programmed, and between eight bytes and all but the last word of it are in. That is so
   * not only while writing: an update leaves the torn image in place until the next erase begins.
   */
  lemma TornImageAccepted(c: Config, flash: seq<bv8>, id: int, es: seq<Event>, id': int)
    requires ValidConfig(c) && c.start + STORE_SIZE <= |flash|
    requires LegalRun(c, Boot(c, flash, id), es)
    ensures var s := Final(c, Boot(c, flash, id), es);
            var k := ContentOfRun(c, flash, id, es);
            && (Boot(c, s.flash, id').state == Idle && k.written < IMAGE_SIZE
                <==> k.erased == 0 && 8 <= k.written < IMAGE_SIZE && ImageValid(k.image))
            && (Boot(c, s.flash, id').state == Idle ==>
                  forall a :: 0 <= a < IMAGE_SIZE ==> Boot(c, s.flash, id').ram[a] == ByteAt(k, a))
  {
    var s := Final(c, Boot(c, flash, id), es);
    RebootFinds(c, s, ContentOfRun(c, flash, id, es), id');
  }

  /** For example: an update while a word is programmed, and then a reboot. */
  lemma TornAfterUpdate(c: Config, s: Sys, k: Content, offset: nat, value: seq<bv8>, id: int, id': int)
    requires ValidConfig(c) && Inv(c, s) && Holds(c, s, k) && Legal(s, DoUpdate(offset, value, id))
    requires s.state == Writing && s.driver.phase == WriteProgram && 4 <= s.driver.data < IMAGE_SIZE - 4
    requires ImageValid(s.ram) && s.ram[offset..offset + |value|] != value
    ensures var s1 := Apply(c, s, DoCommit(false));
            var s2 := Apply(c, s1, DoUpdate(offset, value, id));
            && s2.state == Changed && Boot(c, s2.flash, id').state == Idle
            && Boot(c, s2.flash, id').ram[IMAGE_SIZE - 1] == ERASED
  {
    var s1 := Apply(c, s, DoCommit(false));
    var k1 := NextContent(c, s, k, DoCommit(false));
    StepContent(c, s, k, DoCommit(false));
    StepContent(c, s1, k1, DoUpdate(offset, value, id));
    RebootFinds(c, Apply(c, s1, DoUpdate(offset, value, id)), k1, id');
  }

  // ---------------------------------------------------------------- termination

  function EraseLeft(c: Config, d: Driver): nat
    requires ValidConfig(c)
  {
    match d.phase
    case Ready => 2 + 2 * (STORE_SIZE / c.pageSize)
    case EraseBusy => 1 + 2 * (d.length / c.pageSize)
    case EraseProgram => 2 * (d.length / c.pageSize)
    case WriteBusy => 3 + 2 * (STORE_SIZE / c.pageSize)
    case WriteProgram => 3 + 2 * (STORE_SIZE / c.pageSize)
  }

  const WRITE_CALLS := 2 + 2 * (IMAGE_SIZE / 4)

  function WriteLeft(d: Driver): nat {
    match d.phase
    case Ready => WRITE_CALLS
    case EraseBusy => WRITE_CALLS + 1
    case EraseProgram => WRITE_CALLS + 1
    case WriteBusy => 1 + 2 * (d.length / 4)
    case WriteProgram => 2 * (d.length / 4)
  }

  /** Calls of `Commit` left until idle, on a device that is never busy. */
  function Left(c: Config, s: Sys): nat
    requires ValidConfig(c)
  {
    match s.state
    case Idle => 0
    case Changed => 4 + EraseLeft(c, s.driver) + WRITE_CALLS
    case ChangedWaiting => 3 + EraseLeft(c, s.driver) + WRITE_CALLS
    case Erasing => 2 + EraseLeft(c, s.driver) + WRITE_CALLS
    case ErasedWaiting => 2 + WRITE_CALLS
    case Erased => 1 + WRITE_CALLS
    case Writing => WriteLeft(s.driver)
  }

  predicate Polling(s: Sys) {
    (s.state == Erasing && s.driver.phase == EraseBusy) || (s.state == Writing && s.driver.phase == WriteBusy)
  }

  lemma EraseProgress(c: Config, s: Sys, busy: bool)
    requires ValidConfig(c) && DriverInv(c, s)
    ensures var p := FlashModel.Erase(s.driver, s.flash, c.pageSize, c.start, STORE_SIZE, busy);
            if busy && s.driver.phase == EraseBusy then p == Poll(s.driver, s.flash, false)
            else if p.done then EraseLeft(c, s.driver) == 1
            else EraseLeft(c, p.driver) == EraseLeft(c, s.driver) - 1
  {
    if s.driver.phase == EraseProgram {
      var l := s.driver.length;
      if c.pageSize == 2048 {
        assert (l - 2048) / 2048 == l / 2048 - 1;
      } else {
        assert (l - 4096) / 4096 == l / 4096 - 1;
      }
    }
  }

  lemma WriteProgress(c: Config, s: Sys, busy: bool)
    requires Inv(c, s) && s.state == Writing
    ensures var p := FlashModel.Write(s.driver, s.flash, s.ram, c.start, IMAGE_SIZE, busy);
            if busy && s.driver.phase == WriteBusy then p == Poll(s.driver, s.flash, false)
            else if p.done then WriteLeft(s.driver) == 1
            else WriteLeft(p.driver) == WriteLeft(s.driver) - 1
  {
  }

  /** Every call of `Commit` is one step closer to idle, except a poll of a busy device, which changes nothing. */
  lemma CommitProgress(c: Config, s: Sys, busy: bool)
    requires ValidConfig(c) && Inv(c, s) && s.state != Idle
    ensures var s' := Commit(c, s, busy).0;
            if busy && Polling(s) then s' == s else Left(c, s') == Left(c, s) - 1
  {
    if s.state == Erasing {
      EraseProgress(c, s, busy);
    } else if s.state == Writing {
      WriteProgress(c, s, busy);
    }
  }

  ghost function CountBusy(busy: seq<bool>): nat {
    if busy == [] then 0 else (if busy[0] then 1 else 0) + CountBusy(busy[1..])
  }

  function Commits(busy: seq<bool>): seq<Event> {
    seq(|busy|, i requires 0 <= i < |busy| => DoCommit(busy[i]))
  }

  lemma {:induction false} CommitsLegal(c: Config, s: Sys, busy: seq<bool>)
    requires ValidConfig(c) && Inv(c, s)
    ensures LegalRun(c, s, Commits(busy))
    decreases |busy|
  {
    if busy == [] {
    } else {
      assert Commits(busy)[1..] == Commits(busy[1..]);
      CommitsLegal(c, Apply(c, s, Commits(busy)[0]), busy[1..]);
    }
  }

  /** After as many calls as are left and as the device was busy, the store is idle and the image is in the flash. */
  lemma {:induction false} CommitsReachIdle(c: Config, s: Sys, busy: seq<bool>)
    requires ValidConfig(c) && Inv(c, s)
    requires |busy| >= Left(c, s) + CountBusy(busy)
    ensures LegalRun(c, s, Commits(busy))
    ensures var s' := Final(c, s, Commits(busy));
            s'.state == Idle && s'.ram == s.ram && s'.flash[c.start..c.start + IMAGE_SIZE] == s.ram[..IMAGE_SIZE]
    decreases |busy|
  {
    CommitsLegal(c, s, busy);
    if busy == [] {
      IdleIsStored(c, s);
    } else {
      assert Commits(busy)[1..] == Commits(busy[1..]);
      if s.state != Idle { CommitProgress(c, s, busy[0]); }
      BusyAtMostLength(busy[1..]);
      CommitsReachIdle(c, Apply(c, s, Commits(busy)[0]), busy[1..]);
    }
  }

  lemma {:induction false} BusyAtMostLength(busy: seq<bool>)
    ensures CountBusy(busy) <= |busy|
  {
    if busy == [] {
    } else {
      BusyAtMostLength(busy[1..]);
    }
  }

  function Ticks(busy: seq<bool>): seq<Event> {
    seq(|busy|, i requires 0 <= i < |busy| => DoTimer(busy[i]))
  }

  /** One of so many ticks of the armed timer stores the image and releases the timer. */
  lemma {:induction false} TicksReachIdle(c: Config, s: Sys, busy: seq<bool>) returns (n: nat)
    requires ValidConfig(c) && Inv(c, s) && s.timer != TIMER_ID_NONE
    requires |busy| >= Max(Left(c, s), 1) + CountBusy(busy)
    ensures 0 < n <= |busy| && LegalRun(c, s, Ticks(busy[..n]))
    ensures var s' := Final(c, s, Ticks(busy[..n]));
            && s'.state == Idle && s'.timer == TIMER_ID_NONE && s'.ram == s.ram
            && s'.flash[c.start..c.start + IMAGE_SIZE] == s.ram[..IMAGE_SIZE]
    decreases |busy|
  {
    var s1 := Apply(c, s, DoTimer(busy[0]));
    TickProgress(c, s, busy[0]);
    if s1.state == Idle {
      n := 1;
      FirstTick(c, s, busy, 0);
      IdleIsStored(c, s1);
    } else {
      var rest := TicksReachIdle(c, s1, busy[1..]);
      FirstTick(c, s, busy, rest);
      n := rest + 1;
    }
  }

  lemma TickProgress(c: Config, s: Sys, busy: bool)
    requires ValidConfig(c) && Inv(c, s) && s.timer != TIMER_ID_NONE
    ensures var s1 := Apply(c, s, DoTimer(busy));
            && s1.ram == s.ram
            && if s1.state == Idle then s1.timer == TIMER_ID_NONE
               else s1.timer == s.timer && 1 <= Left(c, s1) <= Left(c, s) - if busy then 0 else 1
  {
    CommitInv(c, s, busy);
    if s.state != Idle { CommitProgress(c, s, busy); }
    if Apply(c, s, DoTimer(busy)).state != Idle { LeftPositive(c, Apply(c, s, DoTimer(busy))); }
  }

  lemma LeftPositive(c: Config, s: Sys)
    requires ValidConfig(c) && Inv(c, s) && s.state != Idle
    ensures Left(c, s) >= 1
  {
  }

  lemma FirstTick(c: Config, s: Sys, busy: seq<bool>, rest: nat)
    requires ValidConfig(c) && Inv(c, s) && s.timer != TIMER_ID_NONE && rest < |busy|
    requires LegalRun(c, Apply(c, s, DoTimer(busy[0])), Ticks(busy[1..][..rest]))
    ensures LegalRun(c, s, Ticks(busy[..rest + 1]))
    ensures Final(c, s, Ticks(busy[..rest + 1])) == Final(c, Apply(c, s, DoTimer(busy[0])), Ticks(busy[1..][..rest]))
  {
    var es := Ticks(busy[..rest + 1]);
    assert es[0] == DoTimer(busy[0]) && es[1..] == Ticks(busy[1..][..rest]);
  }

  // ---------------------------------------------------------------- from an update to the next boot

  predicate NoReset(es: seq<Event>) {
    forall e :: e in es ==> !e.DoReset?
  }

  /**
   * After any run from boot a value is stored, the commit is run until it is done, and the device boots again: the
   * value is read back if and only if there was no reset before, or it is what the fresh image has there.
   */
  lemma UpdateSurvivesReboot(c: Config, flash: seq<bv8>, id: int, es: seq<Event>, e: Event, busy: seq<bool>, id': int)
    requires ValidConfig(c) && c.start + STORE_SIZE <= |flash|
    requires LegalRun(c, Boot(c, flash, id), es)
    requires e.DoUpdate? && Legal(Final(c, Boot(c, flash, id), es), e)
    requires var s := Apply(c, Final(c, Boot(c, flash, id), es), e); |busy| >= Left(c, s) + CountBusy(busy)
    ensures var s := Apply(c, Final(c, Boot(c, flash, id), es), e);
            && LegalRun(c, s, Commits(busy))
            && var s' := Boot(c, Final(c, s, Commits(busy)).flash, id');
               s'.ram[e.offset..e.offset + |e.value|] == e.value <==> NoReset(es) || e.value == Zeros(|e.value|)
  {
    var s0 := Boot(c, flash, id);
    var s1 := Final(c, s0, es);
    HeaderSurvivesUpdates(c, s0, es);
    BootImageValid(c, flash, id);
    HeaderSays(s0.ram, s1.ram, NoReset(es));
    UpdateThenReboot(c, s1, e, busy, id');
  }

  lemma UpdateThenReboot(c: Config, s: Sys, e: Event, busy: seq<bool>, id: int)
    requires ValidConfig(c) && Inv(c, s) && e.DoUpdate? && Legal(s, e)
    requires |busy| >= Left(c, Apply(c, s, e)) + CountBusy(busy)
    ensures LegalRun(c, Apply(c, s, e), Commits(busy))
    ensures var s' := Boot(c, Final(c, Apply(c, s, e), Commits(busy)).flash, id);
            s'.ram[e.offset..e.offset + |e.value|] == e.value <==> ImageValid(s.ram) || e.value == Zeros(|e.value|)
  {
    var s1 := Apply(c, s, e);
    UpdateStored(s, e.offset, e.value, e.id);
    HeaderDecides(s.ram, s1.ram);
    CommitAndReboot(c, s1, busy, id);
    ReadBack(Boot(c, Final(c, s1, Commits(busy)).flash, id).ram, s1.ram, e.offset, e.value);
  }

  lemma HeaderSays(ram: seq<bv8>, ram': seq<bv8>, kept: bool)
    requires |ram| == |ram'| == STORE_SIZE && ImageValid(ram)
    requires ram'[..HEADER_SIZE] == if kept then ram[..HEADER_SIZE] else Zeros(HEADER_SIZE)
    ensures ImageValid(ram') <==> kept
  {
    if kept { HeaderDecides(ram', ram); } else { ZeroHeaderInvalid(ram'); }
  }

  /** What a boot finds after the commit: the image, if it is valid. */
  lemma CommitAndReboot(c: Config, s: Sys, busy: seq<bool>, id: int)
    requires ValidConfig(c) && Inv(c, s) && |busy| >= Left(c, s) + CountBusy(busy)
    ensures LegalRun(c, s, Commits(busy))
    ensures var s' := Boot(c, Final(c, s, Commits(busy)).flash, id);
            && |s'.ram| == STORE_SIZE
            && if ImageValid(s.ram) then s'.ram[..IMAGE_SIZE] == s.ram[..IMAGE_SIZE] else s'.ram == FreshImage()
  {
    CommitsReachIdle(c, s, busy);
    RebootFromIdle(c, Final(c, s, Commits(busy)), id);
  }

  lemma UpdateStored(s: Sys, offset: nat, value: seq<bv8>, id: int)
    requires HEADER_SIZE <= offset && offset + |value| <= IMAGE_SIZE && |s.ram| == STORE_SIZE
    ensures Update(s, offset, value, id).ram[offset..offset + |value|] == value
    ensures Update(s, offset, value, id).ram[..HEADER_SIZE] == s.ram[..HEADER_SIZE]
  {
  }

  lemma ReadBack(ram: seq<bv8>, stored: seq<bv8>, offset: nat, value: seq<bv8>)
    requires HEADER_SIZE <= offset && offset + |value| <= IMAGE_SIZE && |ram| == |stored| == STORE_SIZE
    requires stored[offset..offset + |value|] == value
    ensures ram[..IMAGE_SIZE] == stored[..IMAGE_SIZE] ==> ram[offset..offset + |value|] == value
    ensures ram == FreshImage() ==> ram[offset..offset + |value|] == Zeros(|value|)
  {
    if ram[..IMAGE_SIZE] == stored[..IMAGE_SIZE] {
      SubSlice(ram, 0, IMAGE_SIZE, offset, offset + |value|);
      SubSlice(stored, 0, IMAGE_SIZE, offset, offset + |value|);
    }
  }
}
