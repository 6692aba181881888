/** The configuration store of lib-configstore/include/configstore.h on a NOR flash, as a state machine on values. */
module ConfigModel {
  import opened Words
  import opened FlashModel

  const STORE_SIZE := 4096
  /** `sizeof(ConfigurationStore)`. */
  const IMAGE_SIZE := 3136
  /** Magic number, version and reserved bytes; every updatable member lies behind them. */
  const HEADER_SIZE := 16
  const MAGIC: seq<bv8> := [0x41, 0x76, 0x56, 0x00]
  const VERSION: seq<bv8> := [0, 1]
  const TIMER_ID_NONE := -1

  datatype State = Idle | Changed | ChangedWaiting | Erasing | Erased | ErasedWaiting | Writing

  /** Page size of the flash, and where the store starts in it. */
  datatype Config = Config(pageSize: nat, start: nat)

  datatype Sys = Sys(ram: seq<bv8>, state: State, timer: int, driver: Driver, flash: seq<bv8>)

  predicate ValidConfig(c: Config) {
    c.pageSize == 2048 || c.pageSize == 4096
  }

  // ---------------------------------------------------------------- operations

  /** `SetStatusChanged`; `id` is what `SoftwareTimerAdd` returns if it is called. */
  function SetStatusChanged(s: Sys, id: int): Sys {
    s.(state := Changed, timer := if s.timer != TIMER_ID_NONE then s.timer else id)
  }

  function Zeros(n: nat): seq<bv8> {
    seq(n, _ => 0)
  }

  function Splice(ram: seq<bv8>, offset: nat, bytes: seq<bv8>): (r: seq<bv8>)
    requires offset + |bytes| <= |ram|
    ensures |r| == |ram|
    ensures forall a :: 0 <= a < |ram| ==> r[a] == if offset <= a < offset + |bytes| then bytes[a - offset] else ram[a]
  {
    ram[..offset] + bytes + ram[offset + |bytes|..]
  }

  /** `Store`, `Update` and their indexed forms: copy and mark changed unless the member already has the value. */
  function Update(s: Sys, offset: nat, value: seq<bv8>, id: int): Sys
    requires offset + |value| <= |s.ram|
  {
    if s.ram[offset..offset + |value|] == value then s
    else SetStatusChanged(s.(ram := Splice(s.ram, offset, value)), id)
  }

  /** `UpdateArray` of the `n`-byte array at `offset`; only the first `length` bytes are compared. */
  function UpdateArray(s: Sys, offset: nat, n: nat, source: seq<bv8>, id: int): Sys
    requires offset + n <= |s.ram|
  {
    var length := if |source| > n then n else |source|;
    if s.ram[offset..offset + length] == source[..length] then s
    else SetStatusChanged(s.(ram := Splice(s.ram, offset, source[..length] + Zeros(n - length))), id)
  }

  function Reset(s: Sys, id: int): Sys {
    SetStatusChanged(s.(ram := Zeros(|s.ram|)), id)
  }

  predicate ImageValid(ram: seq<bv8>) {
    |ram| >= HEADER_SIZE && ram[0..4] == MAGIC && ram[4..6] == VERSION
  }

  function FreshImage(): (r: seq<bv8>)
    ensures |r| == STORE_SIZE && ImageValid(r) && forall a :: |MAGIC| + |VERSION| <= a < STORE_SIZE ==> r[a] == 0
  {
    var r := Splice(Splice(Zeros(STORE_SIZE), 0, MAGIC), 4, VERSION);
    assert r[0..4] == MAGIC;
    assert r[4..6] == VERSION;
    r
  }

  /** The constructor: the statics are in their initial state, the driver is idle. */
  function Boot(c: Config, flash: seq<bv8>, id: int): (s: Sys)
    requires c.start + STORE_SIZE <= |flash|
    ensures ValidConfig(c) ==> Inv(c, s)
  {
    var image := flash[c.start..c.start + STORE_SIZE];
    var s := Sys(image, Idle, TIMER_ID_NONE, Driver(Ready, 0, 0, 0, 0), flash);
    if ImageValid(image) then s else SetStatusChanged(s.(ram := FreshImage()), id)
  }

  /** `Flash`, called by `Commit`: one step of the state machine, and whether more steps are needed. */
  function Commit(c: Config, s: Sys, busy: bool): (Sys, bool)
    requires WriteInRange(s.driver, s.flash, s.ram)
  {
    match s.state
    case Idle => (s, false)
    case Changed => (s.(state := ChangedWaiting), true)
    case ChangedWaiting => (s.(state := Erasing), true)
    case Erasing =>
      var p := FlashModel.Erase(s.driver, s.flash, c.pageSize, c.start, STORE_SIZE, busy);
      (s.(driver := p.driver, flash := p.flash, state := if p.done then ErasedWaiting else Erasing), true)
    case ErasedWaiting => (s.(state := Erased), true)
    case Erased => (s.(state := Writing), true)
    case Writing =>
      var p := FlashModel.Write(s.driver, s.flash, s.ram, c.start, IMAGE_SIZE, busy);
      (s.(driver := p.driver, flash := p.flash, state := if p.done then Idle else Writing), !p.done)
  }

  /** The timer callback: stop the timer when there is nothing left to do. */
  function TimerTick(c: Config, s: Sys, busy: bool): Sys
    requires WriteInRange(s.driver, s.flash, s.ram)
  {
    var (s', more) := Commit(c, s, busy);
    if more then s' else s'.(timer := TIMER_ID_NONE)
  }

  // ---------------------------------------------------------------- invariant

  predicate ErasedFrom(flash: seq<bv8>, lo: nat, hi: nat) {
    hi <= |flash| && forall a :: lo <= a < hi ==> flash[a] == ERASED
  }

  /** The first `n` bytes of the image are in the flash. */
  predicate Written(c: Config, s: Sys, n: nat) {
    && c.start + n <= |s.flash| && n <= |s.ram|
    && forall a :: c.start <= a < c.start + n ==> s.flash[a] == s.ram[a - c.start]
  }

  /** What the driver has done so far, if it is in the middle of an operation. */
  predicate DriverInv(c: Config, s: Sys) {
    var d := s.driver;
    match d.phase
    case Ready => true
    case EraseBusy => EraseInv(c, s)
    case EraseProgram => EraseInv(c, s) && d.length > 0
    case WriteBusy => WriteBounds(c, s)
    case WriteProgram => WriteBounds(c, s) && d.length > 0
  }

  predicate EraseInv(c: Config, s: Sys) {
    var d := s.driver;
    && c.start <= d.page && d.page + d.length == c.start + STORE_SIZE
    && c.pageSize > 0 && d.length % c.pageSize == 0
    && ErasedFrom(s.flash, c.start, d.page)
  }

  predicate WriteBounds(c: Config, s: Sys) {
    var d := s.driver;
    d.data + d.length == IMAGE_SIZE && d.data % 4 == 0 && d.address == c.start + d.data
  }

  predicate InWrite(d: Driver) {
    d.phase == WriteBusy || d.phase == WriteProgram
  }

  predicate StateInv(c: Config, s: Sys) {
    match s.state
    case Idle => s.driver.phase == Ready && Written(c, s, IMAGE_SIZE)
    case ErasedWaiting => s.driver.phase == Ready && ErasedFrom(s.flash, c.start, c.start + STORE_SIZE)
    case Erased => s.driver.phase == Ready && ErasedFrom(s.flash, c.start, c.start + STORE_SIZE)
    case Writing =>
      if s.driver.phase == Ready then ErasedFrom(s.flash, c.start, c.start + STORE_SIZE)
      else
        && InWrite(s.driver)
        && Written(c, s, s.driver.data)
        && ErasedFrom(s.flash, c.start + s.driver.data, c.start + STORE_SIZE)
    case _ => true
  }

  predicate Inv(c: Config, s: Sys) {
    && |s.ram| == STORE_SIZE
    && c.start + STORE_SIZE <= |s.flash|
    && DriverInv(c, s)
    && StateInv(c, s)
  }

  /** Whenever work is left, the timer that will do it is armed. */
  predicate Armed(s: Sys) {
    s.state != Idle ==> s.timer != TIMER_ID_NONE
  }

  lemma BootInv(c: Config, flash: seq<bv8>, id: int)
    requires ValidConfig(c) && c.start + STORE_SIZE <= |flash|
    ensures Inv(c, Boot(c, flash, id))
    ensures id != TIMER_ID_NONE ==> Armed(Boot(c, flash, id))
  {
  }

  /** A change is always safe: it sends the machine back to erasing, whatever the driver was doing. */
  lemma ChangeInv(c: Config, s: Sys, ram: seq<bv8>, id: int)
    requires ValidConfig(c) && Inv(c, s) && |ram| == STORE_SIZE
    ensures Inv(c, SetStatusChanged(s.(ram := ram), id))
  {
  }

  lemma InvInRange(c: Config, s: Sys)
    requires Inv(c, s)
    ensures WriteInRange(s.driver, s.flash, s.ram)
  {
  }

  lemma EraseStepInv(c: Config, s: Sys, busy: bool)
    requires ValidConfig(c) && Inv(c, s) && s.state == Erasing && WriteInRange(s.driver, s.flash, s.ram)
    ensures Inv(c, Commit(c, s, busy).0)
  {
    if s.driver.phase == EraseProgram { ErasePageInv(c, s, busy); }
  }

  lemma ErasePageInv(c: Config, s: Sys, busy: bool)
    requires ValidConfig(c) && Inv(c, s) && s.state == Erasing && s.driver.phase == EraseProgram
    ensures Inv(c, Commit(c, s, busy).0)
  {
    var s' := Commit(c, s, busy).0;
    assert s'.driver.length == s.driver.length - c.pageSize;
  }

  lemma WriteWordInv(c: Config, s: Sys, busy: bool)
    requires ValidConfig(c) && Inv(c, s) && s.state == Writing && s.driver.phase == WriteProgram
    ensures Inv(c, Commit(c, s, busy).0)
  {
  }

  lemma WriteStepInv(c: Config, s: Sys, busy: bool)
    requires ValidConfig(c) && Inv(c, s) && s.state == Writing && WriteInRange(s.driver, s.flash, s.ram)
    ensures Inv(c, Commit(c, s, busy).0)
  {
    if s.driver.phase == WriteProgram { WriteWordInv(c, s, busy); }
  }

  lemma CommitInv(c: Config, s: Sys, busy: bool)
    requires ValidConfig(c) && Inv(c, s) && WriteInRange(s.driver, s.flash, s.ram)
    ensures Inv(c, Commit(c, s, busy).0)
    ensures Commit(c, s, busy).1 <==> Commit(c, s, busy).0.state != Idle
  {
    if s.state == Erasing {
      EraseStepInv(c, s, busy);
    } else if s.state == Writing {
      WriteStepInv(c, s, busy);
    }
  }
}
