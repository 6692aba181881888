/**
 * The configuration store and the flash driver as objects updated in place. Every method is proved
 * against the state machines of FlashModel and ConfigModel.
 */
module ConfigStore {
  import opened Words
  import opened FlashModel
  import opened ConfigModel
  import ConfigRuns

  class FlashCode {
    const pageSize: nat
    const flash: array<bv8>
    var phase: Phase
    var page: nat
    var address: nat
    var data: nat
    var length: u32
    /** How often the controller still reports busy; starting an operation sets it to any value. */
    var pending: nat

    function Registers(): Driver
      reads this
    {
      Driver(phase, page, address, data, length)
    }

    constructor (pageSize: nat, flash: array<bv8>)
      ensures Registers() == Driver(Ready, 0, 0, 0, 0) && this.pageSize == pageSize && this.flash == flash
    {
      this.pageSize, this.flash := pageSize, flash;
      phase, page, address, data, length := Ready, 0, 0, 0, 0;
    }

    method ControllerBusy() returns (busy: bool)
      modifies this`pending
      ensures busy ==> pending < old(pending)
    {
      busy := pending > 0;
      if busy {
        pending := pending - 1;
      }
    }

    method StartErasePage()
      requires flash.Length < WORD
      modifies flash, this`pending
      ensures flash[..] == ErasePage(old(flash[..]), page, pageSize)
    {
      for a := 0 to flash.Length
        invariant forall b :: 0 <= b < flash.Length ==>
                    flash[b] == if b < a && page <= b < page + pageSize then ERASED else old(flash[b])
      {
        if page <= a < page + pageSize {
          flash[a] := ERASED;
        }
      }
      pending := *;
    }

    method StartProgramWord(image: array<bv8>)
      requires address + 4 <= flash.Length && data + 4 <= image.Length && image != flash
      modifies flash, this`pending
      ensures flash[..] == ProgramWord(old(flash[..]), address, image[..], data)
    {
      flash[address], flash[address + 1], flash[address + 2], flash[address + 3] :=
        Program(flash[address], image[data]), Program(flash[address + 1], image[data + 1]),
        Program(flash[address + 2], image[data + 2]), Program(flash[address + 3], image[data + 3]);
      WordProgrammed(old(flash[..]), flash[..], address, image[..], data);
      pending := *;
    }

    method Erase(offset: nat, len: u32) returns (done: bool, ghost busy: bool)
      requires flash.Length < WORD
      modifies this, flash
      ensures Poll(Registers(), flash[..], done)
           == FlashModel.Erase(old(Registers()), old(flash[..]), pageSize, offset, len, busy)
      ensures busy ==> pending < old(pending)
    {
      done, busy := false, false;
      match phase
      case Ready =>
        page, length, phase := offset, len, EraseBusy;
      case EraseBusy =>
        var b := ControllerBusy();
        busy := b;
        if b {
          return;
        }
        if length == 0 {
          phase := Ready;
          done := true;
        } else {
          phase := EraseProgram;
        }
      case EraseProgram =>
        if length > 0 {
          StartErasePage();
          length := Wrap(length - pageSize);
          page := page + pageSize;
        }
        phase := EraseBusy;
      case WriteBusy => phase := Ready;
      case WriteProgram => phase := Ready;
    }

    method Write(offset: nat, len: u32, image: array<bv8>) returns (done: bool, ghost busy: bool)
      requires image != flash && WriteInRange(Registers(), flash[..], image[..])
      modifies this, flash
      ensures Poll(Registers(), flash[..], done)
           == FlashModel.Write(old(Registers()), old(flash[..]), image[..], offset, len, busy)
      ensures busy ==> pending < old(pending)
    {
      done, busy := false, false;
      match phase
      case Ready =>
        address, data, length, phase := offset, 0, len, WriteBusy;
      case WriteBusy =>
        var b := ControllerBusy();
        busy := b;
        if b {
          return;
        }
        if length == 0 {
          phase := Ready;
          done := true;
        } else {
          phase := WriteProgram;
        }
      case WriteProgram =>
        if length >= 4 {
          StartProgramWord(image);
          address, data, length := address + 4, data + 4, length - 4;
        } else if length > 0 {
          StartProgramWord(image);
        }
        phase := WriteBusy;
      case EraseBusy => phase := Ready;
      case EraseProgram => phase := Ready;
    }
  }

  lemma WordProgrammed(f: seq<bv8>, f': seq<bv8>, a: nat, image: seq<bv8>, d: nat)
    requires a + 4 <= |f| == |f'| && d + 4 <= |image|
    requires f'[a] == Program(f[a], image[d]) && f'[a + 1] == Program(f[a + 1], image[d + 1])
    requires f'[a + 2] == Program(f[a + 2], image[d + 2]) && f'[a + 3] == Program(f[a + 3], image[d + 3])
    requires forall b :: 0 <= b < |f| && !(a <= b < a + 4) ==> f'[b] == f[b]
    ensures f' == ProgramWord(f, a, image, d)
  {
    var w := ProgramWord(f, a, image, d);
    forall b | 0 <= b < |f| ensures f'[b] == w[b] {
      assert !(a <= b < a + 4) || b == a || b == a + 1 || b == a + 2 || b == a + 3;
    }
  }

  lemma FreshBytes()
    ensures FreshImage() == MAGIC + VERSION + Zeros(STORE_SIZE - 6)
  {
    var r := FreshImage();
    assert r == r[0..4] + r[4..6] + r[6..];
  }

  class Store {
    const c: Config
    const device: FlashCode
    const store: array<bv8>
    var state: State
    var timerId: int

    ghost function Abs(): Sys
      reads this, store, device, device.flash
    {
      Sys(store[..], state, timerId, device.Registers(), device.flash[..])
    }

    ghost predicate Valid()
      reads this, store, device, device.flash
    {
      && store != device.flash && device.flash.Length < WORD
      && ConfigModel.ValidConfig(c) && device.pageSize == c.pageSize
      && Inv(c, Abs())
    }

    /** A reboot: the RAM is lost, the flash and its contents stay. `id` is what the timer pool gives. */
    constructor (c: Config, device: FlashCode, id: int)
      requires ConfigModel.ValidConfig(c) && device.pageSize == c.pageSize
      requires device.Registers() == Driver(Ready, 0, 0, 0, 0)
      requires c.start + STORE_SIZE <= device.flash.Length < WORD
      ensures Valid() && fresh(store) && this.c == c && this.device == device
      ensures Abs() == Boot(c, device.flash[..], id)
      ensures var image := device.flash[..][c.start..c.start + STORE_SIZE];
              if image[0..4] == MAGIC && image[4..6] == VERSION then
                store[..] == image && state == Idle && timerId == TIMER_ID_NONE
              else
                store[..] == MAGIC + VERSION + Zeros(STORE_SIZE - 6) && state == Changed && timerId == id
    {
      this.c, this.device := c, device;
      state, timerId := Idle, TIMER_ID_NONE;
      store := new bv8[STORE_SIZE](_ => 0);
      new;
      ReadFlash();
      if !(store[0..4] == MAGIC && store[4..6] == VERSION) {
        MakeFresh();
        SetStatusChanged(id);
      }
      BootInv(c, device.flash[..], id);
      FreshBytes();
    }

    /** A zero image with magic number and version. */
    method MakeFresh()
      requires store.Length == STORE_SIZE
      modifies store
      ensures store[..] == FreshImage()
    {
      Fill(0);
      Copy(0, MAGIC);
      Copy(4, VERSION);
    }

    /** `StoreDevice::Read` */
    method ReadFlash()
      requires store.Length == STORE_SIZE && c.start + STORE_SIZE <= device.flash.Length && store != device.flash
      modifies store
      ensures store[..] == device.flash[..][c.start..c.start + STORE_SIZE]
    {
      for a := 0 to STORE_SIZE
        invariant forall b :: 0 <= b < a ==> store[b] == device.flash[c.start + b]
      {
        store[a] := device.flash[c.start + a];
      }
    }

    method Fill(from: nat)
      requires from <= store.Length
      modifies store
      ensures store[..] == old(store[..])[..from] + Zeros(store.Length - from)
    {
      for a := from to store.Length
        invariant forall b :: 0 <= b < store.Length ==> store[b] == if from <= b < a then 0 else old(store[b])
      {
        store[a] := 0;
      }
    }

    method Copy(offset: nat, bytes: seq<bv8>)
      requires offset + |bytes| <= store.Length
      modifies store
      ensures store[..] == Splice(old(store[..]), offset, bytes)
    {
      for k := 0 to |bytes|
        invariant forall b :: 0 <= b < store.Length ==>
                    store[b] == if offset <= b < offset + k then bytes[b - offset] else old(store[b])
      {
        store[offset + k] := bytes[k];
      }
    }

    method SetStatusChanged(id: int)
      modifies this`state, this`timerId
      ensures Abs() == ConfigModel.SetStatusChanged(old(Abs()), id)
      ensures ConfigRuns.Restarted(old(Abs()), Abs(), id)
    {
      state := Changed;
      if timerId == TIMER_ID_NONE {
        timerId := id;
      }
    }

    method Reset(id: int)
      requires Valid()
      modifies this`state, this`timerId, store
      ensures Valid() && Abs() == ConfigModel.Reset(old(Abs()), id)
      ensures store[..] == Zeros(STORE_SIZE) && ConfigRuns.Restarted(old(Abs()), Abs(), id)
    {
      Fill(0);
      SetStatusChanged(id);
    }

    method Update(offset: nat, value: seq<bv8>, id: int)
      requires Valid() && offset + |value| <= STORE_SIZE
      modifies this`state, this`timerId, store
      ensures Valid() && Abs() == ConfigModel.Update(old(Abs()), offset, value, id)
      ensures store[..][offset..offset + |value|] == value
      ensures forall a :: 0 <= a < STORE_SIZE && !(offset <= a < offset + |value|) ==> store[a] == old(store[a])
      ensures if old(store[..])[offset..offset + |value|] == value then state == old(state) && timerId == old(timerId)
              else ConfigRuns.Restarted(old(Abs()), Abs(), id)
    {
      assert store[..][offset..offset + |value|] == store[offset..offset + |value|];
      if store[offset..offset + |value|] != value {
        Copy(offset, value);
        SetStatusChanged(id);
      }
    }

    method UpdateArray(offset: nat, n: nat, source: seq<bv8>, id: int)
      requires Valid() && offset + n <= STORE_SIZE
      modifies this`state, this`timerId, store
      ensures Valid() && Abs() == ConfigModel.UpdateArray(old(Abs()), offset, n, source, id)
    {
      var length := |source|;
      if length > n {
        length := n;
      }
      assert store[..][offset..offset + length] == store[offset..offset + length];
      if store[offset..offset + length] != source[..length] {
        Replace(offset, n, source[..length]);
        SetStatusChanged(id);
      }
    }

    /** The array is cleared, then its first bytes are written. */
    method Replace(offset: nat, n: nat, value: seq<bv8>)
      requires store.Length == STORE_SIZE && |value| <= n && offset + n <= STORE_SIZE
      modifies store
      ensures store[..] == Splice(old(store[..]), offset, value + Zeros(n - |value|))
    {
      Copy(offset, Zeros(n));
      Copy(offset, value);
    }

    /** `Commit`: one step of `Flash`; false when there is nothing more to do. */
    method Commit() returns (more: bool, ghost busy: bool)
      requires Valid()
      modifies this`state, device, device.flash
      ensures Valid() && WriteInRange(old(Abs().driver), old(Abs().flash), old(Abs().ram))
      ensures (Abs(), more) == ConfigModel.Commit(c, old(Abs()), busy)
      ensures more <==> state != Idle
      ensures busy && ConfigRuns.Polling(old(Abs())) ==> device.pending < old(device.pending)
    {
      ghost var s := Abs();
      InvInRange(c, s);
      more, busy := true, false;
      match state {
        case Idle =>
          more := false;
        case Changed =>
          state := ChangedWaiting;
        case ChangedWaiting =>
          state := Erasing;
        case Erasing =>
          var done;
          done, busy := device.Erase(c.start, STORE_SIZE);
          if done {
            state := ErasedWaiting;
          }
        case ErasedWaiting =>
          state := Erased;
        case Erased =>
          state := Writing;
        case Writing =>
          var done;
          done, busy := device.Write(c.start, IMAGE_SIZE, store);
          if done {
            state := Idle;
            more := false;
          }
      }
      CommitInv(c, s, busy);
    }

    /** The timer callback. */
    method Timer() returns (ghost busy: bool)
      requires Valid()
      modifies this, device, device.flash
      ensures Valid() && WriteInRange(old(Abs().driver), old(Abs().flash), old(Abs().ram))
      ensures Abs() == TimerTick(c, old(Abs()), busy)
      ensures timerId == if state == Idle then TIMER_ID_NONE else old(timerId)
    {
      var more;
      more, busy := Commit();
      if !more {
        timerId := TIMER_ID_NONE;
      }
    }

    /** Terminates although nothing bounds how long each flash operation takes, and leaves the image in the flash. */
    method ConfigstoreCommit()
      requires Valid()
      modifies this`state, device, device.flash
      ensures Valid() && state == Idle && store[..] == old(store[..]) && timerId == old(timerId)
      ensures device.flash[..][c.start..c.start + IMAGE_SIZE] == store[..IMAGE_SIZE]
    {
      var more := true;
      while more
        invariant Valid() && (!more ==> state == Idle)
        decreases more, ConfigRuns.Left(c, Abs()), device.pending
      {
        ghost var s := Abs();
        ghost var busy;
        more, busy := Commit();
        if more { ConfigRuns.CommitProgress(c, s, busy); }
      }
      ConfigRuns.IdleIsStored(c, Abs());
    }
  }
}
