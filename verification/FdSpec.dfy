/** The file descriptor table as a value: what each call does to it, the discipline of the
    exclusive device locks, and what every run of calls keeps. */
module FdSpec {
  const MAX_FD: nat := 32
  const FD_EXCL: bv32 := 0x8000_0000
  const FD_DEV: bv32 := 0x4000_0000
  const FD_FLAGS_MASK: bv32 := 0xC000_0000
  const FCNTL_FLAGS_MASK: bv32 := 0x0000_4008   // O_NONBLOCK | O_APPEND

  datatype Option<+T> = None | Some(value: T)

  /** What a name can resolve to: a registered device, or a filesystem. */
  datatype Dev = Device(id: nat) | Filesystem(id: nat)

  const DEV_NULL: Dev := Device(0)

  datatype Slot = Slot(dev: Option<Dev>, flags: bv32)

  /** alt_fd_list and alt_max_fd. */
  datatype Table = Table(slots: seq<Slot>, maxFd: int)

  datatype Errno = EACCES | EMFILE | ENODEV | EBADFD | ENOTTY | EINVAL | DriverError(code: nat)

  datatype Result = Ok(value: int) | Flags(bits: bv32) | Err(errno: Errno)

  datatype Request = TIOCEXCL | TIOCNXCL | DriverRequest
  datatype Command = F_GETFL | F_SETFL | OtherCommand

  const FREE: Slot := Slot(None, 0)

  function Reset(): Table
  {
    Table(seq(MAX_FD, i => if i < 3 then Slot(Some(DEV_NULL), 0) else FREE), -1)
  }

  function With(f: bv32, bits: bv32): bv32 { f | bits }
  function Less(f: bv32, bits: bv32): bv32 { f & !bits }
  function Only(f: bv32, bits: bv32): bv32 { f & bits }
  predicate Has(f: bv32, bits: bv32) { f & bits != 0 }

  predicate Excl(s: Slot) { Has(s.flags, FD_EXCL) }
  predicate IsDev(s: Slot) { Has(s.flags, FD_DEV) }

  predicate Wf(t: Table)
  {
    |t.slots| == MAX_FD && -1 <= t.maxFd < MAX_FD
  }

  predicate InUse(t: Table, fd: int)
    requires Wf(t)
  {
    0 <= fd < MAX_FD && t.slots[fd].dev.Some?
  }

  /** The lowest free slot, or MAX_FD when there is none. */
  function LowestFree(slots: seq<Slot>): (r: nat)
    ensures r <= |slots|
    ensures r < |slots| ==> slots[r].dev.None?
    ensures forall i :: 0 <= i < r ==> slots[i].dev.Some?
  {
    if slots == [] || slots[0].dev.None? then 0 else 1 + LowestFree(slots[1..])
  }

  function Max(a: int, b: int): int { if a >= b then a else b }

  // ----- the calls -----

  /** alt_get_fd */
  function GetFd(t: Table, dev: Dev): (Table, Result)
    requires Wf(t)
  {
    var i := LowestFree(t.slots);
    if i == MAX_FD then (t, Err(EMFILE))
    else (Table(t.slots[i := t.slots[i].(dev := Some(dev))], Max(t.maxFd, i)), Ok(i))
  }

  /** alt_release_fd */
  function Release(t: Table, fd: int): Table
    requires Wf(t) && fd < MAX_FD
  {
    if fd > 2 then t.(slots := t.slots[fd := FREE]) else t
  }

  /** Another descriptor below `bound` is on fd's device, and locked if `locked` asks so. */
  predicate Contended(t: Table, fd: nat, bound: int, locked: bool)
    requires Wf(t) && fd < MAX_FD && bound <= MAX_FD
  {
    exists i :: 0 <= i < bound && i != fd && t.slots[i].dev == t.slots[fd].dev && (locked ==> Excl(t.slots[i]))
  }

  function SetFlags(t: Table, fd: nat, flags: bv32): Table
    requires Wf(t) && fd < MAX_FD
  {
    t.(slots := t.slots[fd := t.slots[fd].(flags := flags)])
  }

  /** The flags an open stores: the caller's without the two reserved bits, and FD_DEV for a device. */
  function Marked(dev: Dev, flags: bv32): bv32
  {
    if dev.Device? then With(Less(flags, FD_FLAGS_MASK), FD_DEV) else Less(flags, FD_FLAGS_MASK)
  }

  /** The table while an open is under way: the lowest free slot taken and its flags stored. */
  function Claim(t: Table, dev: Dev, flags: bv32): (r: Table)
    requires Wf(t) && LowestFree(t.slots) < MAX_FD
    ensures Wf(r)
  {
    SetFlags(GetFd(t, dev).0, LowestFree(t.slots), Marked(dev, flags))
  }

  /** ALT_OPEN once the name is resolved; `driver` is what the driver's open answers. */
  function Open(t: Table, target: Option<Dev>, flags: bv32, driver: int): (r: (Table, Result))
    requires Wf(t)
    ensures Wf(r.0) && !r.1.Flags? && (r.1.Ok? ==> 0 <= r.1.value < MAX_FD)
  {
    var fd := LowestFree(t.slots);
    if target.None? then (t, Err(ENODEV))
    else if fd == MAX_FD then (t, Err(EMFILE))
    else
      var t1 := Claim(t, target.value, flags);
      if target.value.Device? && Contended(t1, fd, t1.maxFd + 1, true) then (Release(t1, fd), Err(EACCES))
      else if driver < 0 then (Release(t1, fd), Err(DriverError(-driver)))
      else (t1, Ok(fd))
  }

  /** ALT_CLOSE; `driver` is what the driver's close answers. */
  function Close(t: Table, fd: int, driver: int): (Table, Result)
    requires Wf(t) && (fd < 0 || InUse(t, fd))
  {
    if fd < 0 then (t, Err(EBADFD))
    else (Release(t, fd), if driver < 0 then Err(DriverError(-driver)) else Ok(0))
  }

  /** alt_fd_lock: the scan stops short of the high-water mark. */
  function Lock(t: Table, fd: nat): (Table, Result)
    requires Wf(t) && fd < MAX_FD
  {
    if Contended(t, fd, t.maxFd, false) then (t, Err(EACCES))
    else (SetFlags(t, fd, With(t.slots[fd].flags, FD_EXCL)), Ok(0))
  }

  /** alt_fd_unlock */
  function Unlock(t: Table, fd: nat): Table
    requires Wf(t) && fd < MAX_FD
  {
    SetFlags(t, fd, Less(t.slots[fd].flags, FD_EXCL))
  }

  /** ALT_IOCTL; `driver` is what the driver's ioctl answers, None if it has no such routine. */
  function Ioctl(t: Table, fd: int, req: Request, driver: Option<int>): (Table, Result)
    requires Wf(t) && (fd < 0 || InUse(t, fd))
  {
    if fd < 0 then (t, Err(EBADFD))
    else if IsDev(t.slots[fd]) && req == TIOCEXCL then Lock(t, fd)
    else if IsDev(t.slots[fd]) && req == TIOCNXCL then (Unlock(t, fd), Ok(0))
    else if driver.None? then (t, Err(ENOTTY))
    else if driver.value < 0 then (t, Err(DriverError(-driver.value)))
    else (t, Ok(driver.value))
  }

  /** ALT_FCNTL does not ask whether the descriptor is open. */
  function Fcntl(t: Table, fd: int, cmd: Command, arg: bv32): (Table, Result)
    requires Wf(t) && fd < MAX_FD
  {
    if fd < 0 then (t, Err(EBADFD))
    else match cmd
      case F_GETFL => (t, Flags(Less(t.slots[fd].flags, FD_FLAGS_MASK)))
      case F_SETFL =>
        (SetFlags(t, fd, With(Less(t.slots[fd].flags, FCNTL_FLAGS_MASK), Only(arg, FCNTL_FLAGS_MASK))), Ok(0))
      case OtherCommand => (t, Err(EINVAL))
  }

  /** alt_open_fd: what alt_io_redirect does to one of the standard descriptors. */
  function Redirect(t: Table, std: nat, target: Option<Dev>, flags: bv32, driver: int): (r: Table)
    requires Wf(t) && std < 3
    ensures Wf(r)
  {
    var (t1, got) := Open(t, target, flags, driver);
    if !got.Ok? then t1
    else Release(t1.(slots := t1.slots[std := t1.slots[got.value]]), got.value)
  }

  // ----- flag bits -----

  lemma OpenBits(f: bv32)
    ensures !Has(Less(f, FD_FLAGS_MASK), FD_EXCL) && !Has(Less(f, FD_FLAGS_MASK), FD_DEV)
    ensures Has(With(f, FD_DEV), FD_EXCL) == Has(f, FD_EXCL) && Has(With(f, FD_DEV), FD_DEV)
  {
  }

  lemma LockBits(f: bv32)
    ensures Has(With(f, FD_EXCL), FD_DEV) == Has(f, FD_DEV) && Has(With(f, FD_EXCL), FD_EXCL)
    ensures !Has(f, FD_EXCL) ==> Less(With(f, FD_EXCL), FD_EXCL) == f
  {
  }

  lemma UnlockBits(f: bv32)
    ensures Has(Less(f, FD_EXCL), FD_DEV) == Has(f, FD_DEV) && !Has(Less(f, FD_EXCL), FD_EXCL)
  {
  }

  lemma FcntlBits(f: bv32, arg: bv32)
    ensures var g := With(Less(f, FCNTL_FLAGS_MASK), Only(arg, FCNTL_FLAGS_MASK));
            Has(g, FD_EXCL) == Has(f, FD_EXCL) && Has(g, FD_DEV) == Has(f, FD_DEV)
  {
  }

  // ----- what every run keeps -----

  /** h holds the lock of its device and i is another descriptor on that device. */
  predicate Shares(t: Table, h: int, i: int)
    requires Wf(t)
  {
    && 0 <= h < MAX_FD && 0 <= i < MAX_FD && i != h
    && Excl(t.slots[h]) && t.slots[i].dev == t.slots[h].dev
  }

  /** A lock's holder shares its device with at most one other descriptor, which stands above it. */
  ghost predicate LockDiscipline(t: Table)
    requires Wf(t)
  {
    && (forall h, i :: Shares(t, h, i) ==> h < i)
    && (forall h, i, j :: Shares(t, h, i) && Shares(t, h, j) ==> i == j)
  }

  ghost predicate Inv(t: Table)
  {
    && Wf(t)
    && (forall i :: 0 <= i < 3 ==> t.slots[i].dev.Some?)
    && (forall i :: 2 < i < MAX_FD && t.slots[i].dev.Some? ==> i <= t.maxFd)
    && (forall i :: 0 <= i < MAX_FD && IsDev(t.slots[i]) ==>
          t.maxFd >= 3 && t.slots[i].dev.Some? && t.slots[i].dev.value.Device?)
    && (forall i :: 0 <= i < MAX_FD && Excl(t.slots[i]) ==> IsDev(t.slots[i]))
    && LockDiscipline(t)
  }

  datatype Call =
    | DoOpen(target: Option<Dev>, flags: bv32, driver: int)
    | DoClose(fd: int, driver: int)
    | DoIoctl(fd: int, req: Request, answer: Option<int>)
    | DoFcntl(fd: int, cmd: Command, arg: bv32)
    | DoRedirect(std: nat, target: Option<Dev>, flags: bv32, driver: int)

  /** Descriptors passed in are negative or, save for fcntl, open. */
  predicate Permitted(t: Table, c: Call)
    requires Wf(t)
  {
    match c
    case DoOpen(_, _, _) => true
    case DoClose(fd, _) => fd < 0 || InUse(t, fd)
    case DoIoctl(fd, _, _) => fd < 0 || InUse(t, fd)
    case DoFcntl(fd, _, _) => fd < MAX_FD
    case DoRedirect(std, _, _, _) => std < 3
  }

  function Step(t: Table, c: Call): Table
    requires Wf(t) && Permitted(t, c)
  {
    match c
    case DoOpen(target, flags, driver) => Open(t, target, flags, driver).0
    case DoClose(fd, driver) => Close(t, fd, driver).0
    case DoIoctl(fd, req, answer) => Ioctl(t, fd, req, answer).0
    case DoFcntl(fd, cmd, arg) => Fcntl(t, fd, cmd, arg).0
    case DoRedirect(std, target, flags, driver) => Redirect(t, std, target, flags, driver)
  }

  lemma ResetInv()
    ensures Inv(Reset())
  {
    assert forall i :: 0 <= i < MAX_FD ==> Reset().slots[i].flags == 0;
  }

  /** A change that only frees descriptors above 2 and takes bits away keeps the invariant. */
  lemma Shrinks(t: Table, t': Table)
    requires Inv(t) && Wf(t') && t'.maxFd == t.maxFd
    requires forall i :: 0 <= i < MAX_FD ==>
               && (t'.slots[i].dev == t.slots[i].dev || (i > 2 && t'.slots[i] == FREE))
               && (Excl(t'.slots[i]) ==> Excl(t.slots[i]))
               && IsDev(t'.slots[i]) == (IsDev(t.slots[i]) && t'.slots[i].dev.Some?)
    ensures Inv(t')
  {
    assert forall h, i :: Shares(t', h, i) ==> Shares(t, h, i);
  }

  lemma ReleaseKeeps(t: Table, fd: int)
    requires Inv(t) && fd < MAX_FD
    ensures Inv(Release(t, fd))
  {
    Shrinks(t, Release(t, fd));
  }

  lemma FcntlKeeps(t: Table, fd: int, cmd: Command, arg: bv32)
    requires Inv(t) && fd < MAX_FD
    ensures Inv(Fcntl(t, fd, cmd, arg).0)
  {
    if fd >= 0 {
      FcntlBits(t.slots[fd].flags, arg);
      hide With, Less, Only, Has;
      Shrinks(t, Fcntl(t, fd, cmd, arg).0);
    }
  }

  lemma UnlockKeeps(t: Table, fd: nat)
    requires Inv(t) && fd < MAX_FD
    ensures Inv(Unlock(t, fd))
  {
    UnlockBits(t.slots[fd].flags);
    hide With, Less, Only, Has;
    Shrinks(t, Unlock(t, fd));
  }

  /** Past the scan, only the slot at the high-water mark can be on the device as well. */
  lemma ScanLeaves(t: Table, fd: nat, i: int)
    requires Inv(t) && InUse(t, fd) && IsDev(t.slots[fd])
    requires !Contended(t, fd, t.maxFd, false)
    requires 0 <= i < MAX_FD && i != fd && t.slots[i].dev == t.slots[fd].dev
    ensures i == t.maxFd && fd < i
  {
  }

  lemma LockKeeps(t: Table, fd: nat)
    requires Inv(t) && InUse(t, fd) && IsDev(t.slots[fd])
    ensures Inv(Lock(t, fd).0)
  {
    if !Contended(t, fd, t.maxFd, false) {
      var t' := Lock(t, fd).0;
      LockBits(t.slots[fd].flags);
      hide With, Less, Only, Has;
      forall h, i | Shares(t', h, i)
        ensures h < i && (h == fd ==> i == t.maxFd) && (h != fd ==> Shares(t, h, i))
      {
        if h == fd {
          ScanLeaves(t, fd, i);
        } else {
          assert Shares(t, h, i);
        }
      }
    }
  }

  lemma PlainBits(f: bv32)
    ensures Less(f, FD_FLAGS_MASK) & 0x3FFF_FFFF == f & 0x3FFF_FFFF
    ensures With(f, FD_DEV) & 0x3FFF_FFFF == f & 0x3FFF_FFFF
  {
  }

  /** The flags an open stores: the caller's in the lower thirty bits, no lock, and the device
      mark for a device. */
  lemma MarkedBits(dev: Dev, flags: bv32)
    ensures !Has(Marked(dev, flags), FD_EXCL)
    ensures Has(Marked(dev, flags), FD_DEV) <==> dev.Device?
    ensures Marked(dev, flags) & 0x3FFF_FFFF == flags & 0x3FFF_FFFF
  {
    PlainBits(flags);
    PlainBits(Less(flags, FD_FLAGS_MASK));
    OpenBits(flags);
    OpenBits(Less(flags, FD_FLAGS_MASK));
    hide With, Less, Only, Has;
  }

  /** Claiming a slot for a device nobody has locked keeps the invariant. */
  lemma ClaimKeeps(t: Table, dev: Dev, flags: bv32)
    requires Inv(t) && LowestFree(t.slots) < MAX_FD
    requires forall i :: 0 <= i < MAX_FD && t.slots[i].dev == Some(dev) ==> !Excl(t.slots[i])
    ensures Inv(Claim(t, dev, flags))
  {
    var fd := LowestFree(t.slots);
    var t' := Claim(t, dev, flags);
    MarkedBits(dev, flags);
    hide Marked, LowestFree, Has;
    assert fd > 2 && t'.slots[fd] == Slot(Some(dev), Marked(dev, flags));
    forall h, i | Shares(t', h, i)
      ensures Shares(t, h, i)
    {
      assert h != fd;
    }
  }

  /** What backing out of an open leaves: the claimed slot free, the high-water mark maybe higher. */
  lemma ClaimUndone(t: Table, dev: Dev, flags: bv32)
    requires Inv(t) && LowestFree(t.slots) < MAX_FD
    ensures var fd := LowestFree(t.slots);
            Release(Claim(t, dev, flags), fd) == Table(t.slots[fd := FREE], Max(t.maxFd, fd))
    ensures LowestFree(t.slots) > 2
    ensures Inv(Release(Claim(t, dev, flags), LowestFree(t.slots)))
  {
    var fd := LowestFree(t.slots);
    hide LowestFree;
    Raises(t, Max(t.maxFd, fd));
    ReleaseKeeps(t.(maxFd := Max(t.maxFd, fd)), fd);
    assert t.slots[fd := FREE] == Claim(t, dev, flags).slots[fd := FREE];
  }

  lemma OpenKeeps(t: Table, target: Option<Dev>, flags: bv32, driver: int)
    requires Inv(t)
    ensures Inv(Open(t, target, flags, driver).0)
  {
    var fd := LowestFree(t.slots);
    if target.Some? && fd < MAX_FD {
      var t1 := Claim(t, target.value, flags);
      ClaimUndone(t, target.value, flags);
      hide LowestFree, Marked, Has;
      if !(target.value.Device? && Contended(t1, fd, t1.maxFd + 1, true)) && driver >= 0 {
        forall i | 0 <= i < MAX_FD && t.slots[i].dev == target
          ensures !Excl(t.slots[i])
        {
          assert i != fd && t1.slots[i] == t.slots[i];
        }
        ClaimKeeps(t, target.value, flags);
      }
    }
  }

  /** A successful open returns the lowest free descriptor, never a standard one, with the
      caller's flags and the device mark if it is a device's; its device is locked by nobody. */
  lemma OpenedExact(t: Table, target: Option<Dev>, flags: bv32, driver: int)
    requires Inv(t) && Open(t, target, flags, driver).1.Ok?
    ensures var (t', r) := Open(t, target, flags, driver);
            && 2 < r.value < MAX_FD
            && t.slots[r.value].dev.None? && (forall i :: 0 <= i < r.value ==> t.slots[i].dev.Some?)
            && t'.slots == t.slots[r.value := t'.slots[r.value]] && t'.slots[r.value].dev == target
            && t'.slots[r.value].flags & 0x3FFF_FFFF == flags & 0x3FFF_FFFF
            && (IsDev(t'.slots[r.value]) <==> target.value.Device?)
            && t'.maxFd == Max(t.maxFd, r.value)
            && (forall i :: 0 <= i < MAX_FD && t'.slots[i].dev == target ==> !Excl(t'.slots[i]))
  {
    var fd := LowestFree(t.slots);
    var t1 := Claim(t, target.value, flags);
    MarkedBits(target.value, flags);
    ClaimUndone(t, target.value, flags);
    hide LowestFree, Marked, Has;
    assert t1.slots[fd] == Slot(target, Marked(target.value, flags));
    assert forall i :: 0 <= i < MAX_FD && i != fd ==> t1.slots[i] == t.slots[i];
  }

  /** A failed open restores every slot, except that flags which fcntl left on the free slot it
      tried are cleared; only the high-water mark may stay higher. */
  lemma FailedOpenRestores(t: Table, target: Option<Dev>, flags: bv32, driver: int)
    requires Inv(t) && Open(t, target, flags, driver).1.Err?
    ensures var (t', r) := Open(t, target, flags, driver);
            var fd := LowestFree(t.slots);
            && t.maxFd <= t'.maxFd <= Max(t.maxFd, fd)
            && (forall i :: 0 <= i < MAX_FD && i != fd ==> t'.slots[i] == t.slots[i])
            && (t'.slots == t.slots <==> target.None? || fd == MAX_FD || t.slots[fd].flags == 0)
  {
    var fd := LowestFree(t.slots);
    if target.Some? && fd < MAX_FD {
      ClaimUndone(t, target.value, flags);
      hide LowestFree;
      assert t.slots[fd].flags == 0 ==> t.slots[fd := FREE] == t.slots;
    }
  }

  /** A higher high-water mark does no harm. */
  lemma Raises(t: Table, maxFd: int)
    requires Inv(t) && t.maxFd <= maxFd < MAX_FD
    ensures Inv(t.(maxFd := maxFd))
  {
    assert forall h, i :: Shares(t.(maxFd := maxFd), h, i) ==> Shares(t, h, i);
  }

  /** Moving an unlocked descriptor onto a standard one. */
  lemma MoveKeeps(t: Table, std: nat, fd: int)
    requires Inv(t) && std < 3 && 2 < fd < MAX_FD && t.slots[fd].dev.Some?
    requires forall i :: 0 <= i < MAX_FD && t.slots[i].dev == t.slots[fd].dev ==> !Excl(t.slots[i])
    ensures Inv(Release(t.(slots := t.slots[std := t.slots[fd]]), fd))
  {
    var t' := Release(t.(slots := t.slots[std := t.slots[fd]]), fd);
    assert forall i :: 0 <= i < MAX_FD && i != std && i != fd ==> t'.slots[i] == t.slots[i];
    assert t'.slots[std] == t.slots[fd] && t'.slots[fd] == FREE;
    forall h, i | Shares(t', h, i)
      ensures Shares(t, h, i)
    {
      assert h != std && h != fd && i != std;
    }
  }

  lemma RedirectKeeps(t: Table, std: nat, target: Option<Dev>, flags: bv32, driver: int)
    requires Inv(t) && std < 3
    ensures Inv(Redirect(t, std, target, flags, driver))
  {
    OpenKeeps(t, target, flags, driver);
    var (t1, got) := Open(t, target, flags, driver);
    if got.Ok? {
      OpenedExact(t, target, flags, driver);
      hide Open, Inv;
      MoveKeeps(t1, std, got.value);
    }
  }

  /** Every call keeps the table's invariant, the lock discipline included. */
  lemma StepKeeps(t: Table, c: Call)
    requires Inv(t) && Permitted(t, c)
    ensures Inv(Step(t, c))
  {
    match c
    case DoOpen(target, flags, driver) => OpenKeeps(t, target, flags, driver);
    case DoClose(fd, _) => if fd >= 0 { ReleaseKeeps(t, fd); }
    case DoIoctl(fd, req, _) =>
      if fd >= 0 && IsDev(t.slots[fd]) {
        if req == TIOCEXCL { LockKeeps(t, fd); }
        if req == TIOCNXCL { UnlockKeeps(t, fd); }
      }
    case DoFcntl(fd, cmd, arg) => FcntlKeeps(t, fd, cmd, arg);
    case DoRedirect(std, target, flags, driver) => RedirectKeeps(t, std, target, flags, driver);
  }

  predicate RunPermitted(t: Table, calls: seq<Call>)
    requires Wf(t)
    decreases |calls|
  {
    calls == [] || (Permitted(t, calls[0]) && Wf(Step(t, calls[0])) && RunPermitted(Step(t, calls[0]), calls[1..]))
  }

  function Run(t: Table, calls: seq<Call>): (r: Table)
    requires Wf(t) && RunPermitted(t, calls)
    ensures Wf(r)
    decreases |calls|
  {
    if calls == [] then t else Run(Step(t, calls[0]), calls[1..])
  }

  lemma {:induction false} RunKeeps(t: Table, calls: seq<Call>)
    requires Inv(t) && RunPermitted(t, calls)
    ensures Inv(Run(t, calls))
    decreases |calls|
  {
    if calls != [] {
      StepKeeps(t, calls[0]);
      RunKeeps(Step(t, calls[0]), calls[1..]);
    }
  }

  /** After any run from reset: at most one descriptor per device holds the lock, any other
      descriptor on a locked device is the only one and stands above the holder. */
  lemma LocksExclusive(calls: seq<Call>)
    requires RunPermitted(Reset(), calls)
    ensures var t := Run(Reset(), calls);
            && LockDiscipline(t)
            && (forall h, k :: 0 <= h < MAX_FD && 0 <= k < MAX_FD && Excl(t.slots[h]) && Excl(t.slots[k]) ==>
                  t.slots[h].dev == t.slots[k].dev ==> h == k)
  {
    ResetInv();
    RunKeeps(Reset(), calls);
    var t := Run(Reset(), calls);
    forall h, k | 0 <= h < MAX_FD && 0 <= k < MAX_FD && Excl(t.slots[h]) && Excl(t.slots[k])
                  && t.slots[h].dev == t.slots[k].dev
      ensures h == k
    {
      if h != k {
        assert Shares(t, h, k) && Shares(t, k, h);
      }
    }
  }

  // ----- what calls undo and leave alone -----

  lemma FcntlBitsExact(f: bv32, arg: bv32)
    ensures var g := With(Less(f, FCNTL_FLAGS_MASK), Only(arg, FCNTL_FLAGS_MASK));
            && Only(g, FCNTL_FLAGS_MASK) == Only(arg, FCNTL_FLAGS_MASK)
            && Less(g, FCNTL_FLAGS_MASK) == Less(f, FCNTL_FLAGS_MASK)
  {
  }

  /** fcntl sets just the two settable flags, to the argument's; every other flag stays, and
      no descriptor's device, lock or device mark changes. */
  lemma FcntlExact(t: Table, fd: nat, arg: bv32)
    requires Wf(t) && fd < MAX_FD
    ensures var t' := Fcntl(t, fd, F_SETFL, arg).0;
            && Only(t'.slots[fd].flags, FCNTL_FLAGS_MASK) == Only(arg, FCNTL_FLAGS_MASK)
            && Less(t'.slots[fd].flags, FCNTL_FLAGS_MASK) == Less(t.slots[fd].flags, FCNTL_FLAGS_MASK)
            && t'.maxFd == t.maxFd
            && (forall i :: 0 <= i < MAX_FD ==>
                  && t'.slots[i].dev == t.slots[i].dev
                  && Excl(t'.slots[i]) == Excl(t.slots[i]) && IsDev(t'.slots[i]) == IsDev(t.slots[i]))
            && (forall i :: 0 <= i < MAX_FD && i != fd ==> t'.slots[i] == t.slots[i])
  {
    var f := t.slots[fd].flags;
    FcntlBits(f, arg);
    FcntlBitsExact(f, arg);
    hide With, Less, Only, Has;
  }

  /** F_GETFL answers the flags without the two reserved bits, and changes nothing. */
  lemma GetflExact(t: Table, fd: nat, arg: bv32)
    requires Wf(t) && fd < MAX_FD
    ensures Fcntl(t, fd, F_GETFL, arg) == (t, Flags(t.slots[fd].flags & 0x3FFF_FFFF))
  {
    PlainMask(t.slots[fd].flags);
  }

  lemma PlainMask(f: bv32)
    ensures Less(f, FD_FLAGS_MASK) == f & 0x3FFF_FFFF
  {
  }

  /** What F_GETFL finds after an open: the flags given to it. */
  lemma OpenThenGetfl(t: Table, target: Option<Dev>, flags: bv32, driver: int)
    requires Inv(t) && Open(t, target, flags, driver).1.Ok?
    ensures var (t', r) := Open(t, target, flags, driver);
            Fcntl(t', r.value, F_GETFL, 0).1 == Flags(flags & 0x3FFF_FFFF)
  {
    OpenedExact(t, target, flags, driver);
    var (t', r) := Open(t, target, flags, driver);
    GetflExact(t', r.value, 0);
  }

  /** ... and after F_SETFL: the two settable flags as set, the others as before. */
  lemma SetflThenGetfl(t: Table, fd: nat, arg: bv32)
    requires Wf(t) && fd < MAX_FD
    ensures var (t', r) := Fcntl(t, fd, F_SETFL, arg);
            var got := Fcntl(t', fd, F_GETFL, 0).1;
            && r == Ok(0) && got.Flags?
            && got.bits & 0x4008 == arg & 0x4008
            && got.bits & 0x3FFF_BFF7 == t.slots[fd].flags & 0x3FFF_BFF7
  {
    var t' := Fcntl(t, fd, F_SETFL, arg).0;
    GetflExact(t', fd, 0);
    SetBits(t.slots[fd].flags, arg);
  }

  lemma SetBits(f: bv32, arg: bv32)
    ensures var g := With(Less(f, FCNTL_FLAGS_MASK), Only(arg, FCNTL_FLAGS_MASK)) & 0x3FFF_FFFF;
            g & 0x4008 == arg & 0x4008 && g & 0x3FFF_BFF7 == f & 0x3FFF_BFF7
  {
  }

  /** Closing what was just opened leaves the table with the slot free again. */
  lemma OpenThenClose(t: Table, target: Option<Dev>, flags: bv32, opening: int, closing: int)
    requires Inv(t) && Open(t, target, flags, opening).1.Ok?
    ensures var (t1, r) := Open(t, target, flags, opening);
            && InUse(t1, r.value)
            && Close(t1, r.value, closing).0.slots == t.slots[r.value := FREE]
            && (t.slots[r.value].flags == 0 ==> Close(t1, r.value, closing).0.slots == t.slots)
  {
    ClaimUndone(t, target.value, flags);
    OpenedExact(t, target, flags, opening);
    hide Inv, LowestFree, Claim;
    var fd := LowestFree(t.slots);
    assert t.slots[fd].flags == 0 ==> t.slots[fd := FREE] == t.slots;
  }

  /** Redirection puts the device and the flags on the standard descriptor and gives the slot it
      opened back; if the open fails the standard descriptor stays as it was. */
  lemma RedirectExact(t: Table, std: nat, target: Option<Dev>, flags: bv32, driver: int)
    requires Inv(t) && std < 3
    ensures var (t', r) := (Redirect(t, std, target, flags, driver), Open(t, target, flags, driver).1);
            && (r.Ok? ==>
                  && t'.slots[std].dev == target && t'.slots[r.value] == FREE
                  && t'.slots[std].flags & 0x3FFF_FFFF == flags & 0x3FFF_FFFF
                  && (IsDev(t'.slots[std]) <==> target.value.Device?) && !Excl(t'.slots[std]))
            && (!r.Ok? ==> t'.slots[std] == t.slots[std])
            && forall i :: 0 <= i < MAX_FD && i != std && t.slots[i].dev.Some? ==> t'.slots[i] == t.slots[i]
  {
    if Open(t, target, flags, driver).1.Ok? {
      OpenedExact(t, target, flags, driver);
    } else {
      FailedOpenRestores(t, target, flags, driver);
    }
    hide Open;
  }

  // ----- what a lock is worth -----

  predicate Locked(t: Table, dev: Dev)
    requires Wf(t)
  {
    exists h :: 0 <= h < MAX_FD && t.slots[h].dev == Some(dev) && Excl(t.slots[h])
  }

  /** Opening is refused with EACCES exactly while somebody holds the device's lock. */
  lemma LockRefusesOpen(t: Table, dev: Dev, flags: bv32, driver: int)
    requires Inv(t) && LowestFree(t.slots) < MAX_FD
    ensures Open(t, Some(dev), flags, driver).1 == Err(EACCES) <==> Locked(t, dev)
  {
    var fd := LowestFree(t.slots);
    var t1 := Claim(t, dev, flags);
    hide LowestFree;
    assert t1.slots[fd].dev == Some(dev);
    assert forall i :: 0 <= i < MAX_FD && i != fd ==> t1.slots[i] == t.slots[i];
    if Locked(t, dev) {
      var h :| 0 <= h < MAX_FD && t.slots[h].dev == Some(dev) && Excl(t.slots[h]);
      assert 0 <= h < t1.maxFd + 1 && t1.slots[h] == t.slots[h];
    }
  }

  function Users(t: Table, dev: Dev): set<int>
    requires Wf(t)
  {
    set i | 0 <= i < MAX_FD && t.slots[i].dev == Some(dev)
  }

  ghost predicate Holds(t: Table, h: nat, dev: Dev)
  {
    Wf(t) && h < MAX_FD && t.slots[h].dev == Some(dev) && Excl(t.slots[h])
  }

  /** A call puts no further descriptor on a device whose lock is held before it. */
  lemma NoNewUser(t: Table, c: Call, h: nat, dev: Dev)
    requires Inv(t) && Permitted(t, c) && Holds(t, h, dev)
    ensures Users(Step(t, c), dev) <= Users(t, dev)
  {
    StepKeeps(t, c);
    match c
    case DoOpen(target, flags, driver) => NoNewUserOpen(t, target, flags, driver, h, dev);
    case DoRedirect(std, target, flags, driver) => NoNewUserOpen(t, target, flags, driver, h, dev);
    case _ =>
  }

  lemma NoNewUserOpen(t: Table, target: Option<Dev>, flags: bv32, driver: int, h: nat, dev: Dev)
    requires Inv(t) && Holds(t, h, dev)
    ensures var (t', r) := Open(t, target, flags, driver);
            Users(t', dev) <= Users(t, dev) && (r.Ok? ==> target != Some(dev))
  {
    var (t', r) := Open(t, target, flags, driver);
    if r.Ok? {
      OpenedExact(t, target, flags, driver);
      assert h != r.value && t'.slots[h] == t.slots[h];
    } else {
      FailedOpenRestores(t, target, flags, driver);
      OpenKeeps(t, target, flags, driver);
      hide Open;
      if LowestFree(t.slots) < MAX_FD && target.Some? {
        ClaimUndone(t, target.value, flags);
      }
    }
  }

  /** h keeps dev's lock before every call and after the last. */
  ghost predicate HeldThroughout(t: Table, calls: seq<Call>, h: nat, dev: Dev)
    requires Wf(t) && RunPermitted(t, calls)
    decreases |calls|
  {
    Holds(t, h, dev) && (calls != [] ==> HeldThroughout(Step(t, calls[0]), calls[1..], h, dev))
  }

  /** While one descriptor holds the lock, the descriptors on the device only become fewer. */
  lemma {:induction false} LockedDeviceNeverGrows(t: Table, calls: seq<Call>, h: nat, dev: Dev)
    requires Inv(t) && RunPermitted(t, calls) && HeldThroughout(t, calls, h, dev)
    ensures Users(Run(t, calls), dev) <= Users(t, dev)
    decreases |calls|
  {
    if calls != [] {
      NoNewUser(t, calls[0], h, dev);
      StepKeeps(t, calls[0]);
      LockedDeviceNeverGrows(Step(t, calls[0]), calls[1..], h, dev);
    }
  }

  /** The unlock request undoes a granted lock request, bit for bit. */
  lemma LockUndone(t: Table, fd: nat, a: Option<int>, b: Option<int>)
    requires Inv(t) && InUse(t, fd) && IsDev(t.slots[fd]) && !Excl(t.slots[fd])
    requires Ioctl(t, fd, TIOCEXCL, a).1.Ok?
    ensures var t' := Ioctl(t, fd, TIOCEXCL, a).0;
            InUse(t', fd) && Excl(t'.slots[fd]) && Ioctl(t', fd, TIOCNXCL, b) == (t, Ok(0))
  {
    LockBits(t.slots[fd].flags);
    hide With, Less, Only, Has;
    assert Lock(t, fd).0.slots[fd := t.slots[fd]] == t.slots;
  }

  /** Nobody else holds the lock that fd holds. */
  lemma SoleHolder(t: Table, fd: nat)
    requires Inv(t) && InUse(t, fd) && Excl(t.slots[fd])
    ensures forall h | 0 <= h < MAX_FD && h != fd && t.slots[h].dev == t.slots[fd].dev :: !Excl(t.slots[h])
  {
    forall h | 0 <= h < MAX_FD && h != fd && t.slots[h].dev == t.slots[fd].dev
      ensures !Excl(t.slots[h])
    {
      assert Shares(t, fd, h);
      assert !Shares(t, h, fd);
    }
  }

  /** The holder's unlock request always succeeds, frees the device for everybody, and changes
      nothing else. */
  lemma UnlockFrees(t: Table, fd: nat, a: Option<int>)
    requires Inv(t) && InUse(t, fd) && Excl(t.slots[fd])
    ensures var (t', r) := Ioctl(t, fd, TIOCNXCL, a);
            && r == Ok(0) && Locked(t, t.slots[fd].dev.value) && !Locked(t', t.slots[fd].dev.value)
            && t' == t.(slots := t.slots[fd := t'.slots[fd]]) && t'.slots[fd].dev == t.slots[fd].dev
            && t'.slots[fd].flags & 0x7FFF_FFFF == t.slots[fd].flags & 0x7FFF_FFFF
  {
    UnlockBits(t.slots[fd].flags);
    SoleHolder(t, fd);
    UnlockKeepsRest(t.slots[fd].flags);
    hide With, Less, Only, Has;
  }

  lemma UnlockKeepsRest(f: bv32)
    ensures Less(f, FD_EXCL) & 0x7FFF_FFFF == f & 0x7FFF_FFFF
    ensures !Has(f, FD_EXCL) ==> Less(f, FD_EXCL) == f
  {
  }

  /** An unlock request on a device's descriptor without the lock succeeds and changes nothing. */
  lemma UnlockOfOthers(t: Table, fd: nat, a: Option<int>)
    requires Inv(t) && InUse(t, fd) && IsDev(t.slots[fd]) && !Excl(t.slots[fd])
    ensures Ioctl(t, fd, TIOCNXCL, a) == (t, Ok(0))
  {
    UnlockKeepsRest(t.slots[fd].flags);
    hide With, Less, Only, Has;
    assert t.slots[fd := t.slots[fd]] == t.slots;
  }

  /** A negative descriptor, and a command fcntl does not know, are errors without effect. */
  lemma BadArguments(t: Table, fd: int, driver: int, answer: Option<int>, req: Request, cmd: Command, arg: bv32)
    requires Wf(t) && fd < MAX_FD
    ensures fd < 0 ==> Close(t, fd, driver) == Ioctl(t, fd, req, answer) == Fcntl(t, fd, cmd, arg) == (t, Err(EBADFD))
    ensures fd >= 0 ==> Fcntl(t, fd, OtherCommand, arg) == (t, Err(EINVAL))
  {
  }

  /** Every other request, and any request on a descriptor that is not a device's, goes to the
      driver: it leaves the table alone and answers what the driver does, or ENOTTY. */
  lemma IoctlPasses(t: Table, fd: int, req: Request, driver: Option<int>)
    requires Inv(t) && InUse(t, fd) && (req == DriverRequest || !IsDev(t.slots[fd]))
    ensures var (t', r) := Ioctl(t, fd, req, driver);
            && t' == t
            && (r == Err(ENOTTY) <==> driver.None?)
            && (driver.Some? && driver.value >= 0 ==> r == Ok(driver.value))
            && (driver.Some? && driver.value < 0 ==> r == Err(DriverError(-driver.value)))
  {
  }

  /** Closing the holder frees the device for everybody, exactly if the holder is not a standard
      descriptor: those keep their device and their lock. */
  lemma CloseUnlocks(t: Table, fd: nat, driver: int)
    requires Inv(t) && InUse(t, fd) && Excl(t.slots[fd])
    ensures Locked(t, t.slots[fd].dev.value)
    ensures Locked(Close(t, fd, driver).0, t.slots[fd].dev.value) <==> fd <= 2
  {
    SoleHolder(t, fd);
  }

  /** Close answers 0 or the driver's error, and whatever it answers the descriptor is free and
      every other one as before, unless it is a standard one: then nothing changes. */
  lemma CloseExact(t: Table, fd: nat, driver: int)
    requires Inv(t) && InUse(t, fd)
    ensures var (t', r) := Close(t, fd, driver);
            && (r == Ok(0) <==> driver >= 0) && (driver < 0 ==> r == Err(DriverError(-driver)))
            && (fd <= 2 ==> t' == t)
            && (fd > 2 ==> !InUse(t', fd) && t'.slots[fd].flags == 0)
            && t'.maxFd == t.maxFd && forall i :: 0 <= i < MAX_FD && i != fd ==> t'.slots[i] == t.slots[i]
  {
  }

  /** What an open answers: ENODEV for an unknown name, EMFILE if all descriptors are in use,
      EACCES for a locked device, then the driver's error, and else a descriptor. */
  lemma OpenAnswers(t: Table, target: Option<Dev>, flags: bv32, driver: int)
    requires Inv(t)
    ensures var r := Open(t, target, flags, driver).1;
            var full := forall i :: 0 <= i < MAX_FD ==> InUse(t, i);
            && (target.None? ==> r == Err(ENODEV))
            && (target.Some? && full ==> r == Err(EMFILE))
            && (target.Some? && !full && Locked(t, target.value) ==> r == Err(EACCES))
            && (target.Some? && !full && !Locked(t, target.value) && driver < 0 ==> r == Err(DriverError(-driver)))
            && (target.Some? && !full && !Locked(t, target.value) && driver >= 0 ==> r.Ok?)
  {
    var fd := LowestFree(t.slots);
    if fd < MAX_FD {
      assert !InUse(t, fd);
      if target.Some? {
        LockRefusesOpen(t, target.value, flags, driver);
      }
    } else {
      assert forall i :: 0 <= i < MAX_FD ==> InUse(t, i);
    }
  }


  predicate Sole(t: Table, fd: nat)
    requires Wf(t) && fd < MAX_FD
  {
    !Contended(t, fd, MAX_FD, false)
  }

  /** The lock request grants every sole descriptor the lock, and grants it as documented, to sole
      descriptors only, exactly unless the only other descriptor on the device stands at the
      high-water mark. */
  lemma LockGrantExact(t: Table, fd: nat, a: Option<int>)
    requires Inv(t) && InUse(t, fd) && IsDev(t.slots[fd])
    ensures var (t', r) := Ioctl(t, fd, TIOCEXCL, a);
            && (r.Ok? ==>
                  && r == Ok(0) && t' == t.(slots := t.slots[fd := t'.slots[fd]])
                  && Holds(t', fd, t.slots[fd].dev.value))
            && (!r.Ok? ==> r == Err(EACCES) && t' == t)
            && (Sole(t, fd) ==> r.Ok?)
    ensures (Ioctl(t, fd, TIOCEXCL, a).1.Ok? <==> Sole(t, fd))
            <==> || fd == t.maxFd
                 || t.slots[t.maxFd].dev != t.slots[fd].dev
                 || Contended(t, fd, t.maxFd, false)
  {
    LockBits(t.slots[fd].flags);
    hide With, Less, Only, Has;
    if !Contended(t, fd, t.maxFd, false) && !Sole(t, fd) {
      var i :| 0 <= i < MAX_FD && i != fd && t.slots[i].dev == t.slots[fd].dev;
      ScanLeaves(t, fd, i);
    }
  }

  lemma RunOfThree(t: Table, a: Call, b: Call, c: Call)
    requires Wf(t) && Permitted(t, a) && Wf(Step(t, a))
    requires Permitted(Step(t, a), b) && Wf(Step(Step(t, a), b))
    requires Permitted(Step(Step(t, a), b), c) && Wf(Step(Step(Step(t, a), b), c))
    ensures RunPermitted(t, [a, b, c]) && Run(t, [a, b, c]) == Step(Step(Step(t, a), b), c)
  {
    hide Permitted, Step, Wf;
    var t1, t2 := Step(t, a), Step(Step(t, a), b);
    assert [a, b, c][1..] == [b, c] && [b, c][1..] == [c] && [c][1..] == [];
    assert RunPermitted(Step(t2, c), []);
    assert RunPermitted(t2, [c]) && Run(t2, [c]) == Step(t2, c);
    assert RunPermitted(t1, [b, c]) && Run(t1, [b, c]) == Step(t2, c);
  }

  lemma LowestAt(slots: seq<Slot>, k: nat)
    requires k < |slots| && slots[k].dev.None? && forall i :: 0 <= i < k ==> slots[i].dev.Some?
    ensures LowestFree(slots) == k
  {
  }

  lemma SecondOpen(t1: Table, t2: Table)
    requires var marked := Slot(Some(Device(1)), FD_DEV);
             && t1 == Table(Reset().slots[3 := marked], 3) && t2 == Table(t1.slots[4 := marked], 4)
    ensures Step(Reset(), DoOpen(Some(Device(1)), 0, 0)) == t1
    ensures Step(t1, DoOpen(Some(Device(1)), 0, 0)) == t2
  {
    LowestAt(Reset().slots, 3);
    LowestAt(t1.slots, 4);
    hide LowestFree;
    assert Marked(Device(1), 0) == FD_DEV;
    ResetInv();
    assert forall i :: 0 <= i < MAX_FD ==> !Excl(t2.slots[i]);
  }

  lemma SharedLock(t: Table, d: Option<Dev>)
    requires Wf(t) && t.maxFd == 4 && d.Some?
    requires t.slots[3] == t.slots[4] == Slot(d, FD_DEV)
    requires forall i :: 0 <= i < 3 ==> t.slots[i].dev != d
    ensures var c := DoIoctl(3, TIOCEXCL, None);
            Permitted(t, c) && Wf(Step(t, c)) && Excl(Step(t, c).slots[3]) && !Sole(Step(t, c), 3)
  {
    var t' := Step(t, DoIoctl(3, TIOCEXCL, None));
    assert !Contended(t, 3, 4, false);
    assert t'.slots[4].dev == t'.slots[3].dev;
  }

  /** The documented condition for a lock, no other descriptor on the device, does not hold of
      the code: open a device twice and the first descriptor gets the lock. */
  lemma LockGrantedToShared()
    ensures var d := Some(Device(1));
            var calls := [DoOpen(d, 0, 0), DoOpen(d, 0, 0), DoIoctl(3, TIOCEXCL, None)];
            && RunPermitted(Reset(), calls)
            && Excl(Run(Reset(), calls).slots[3]) && !Sole(Run(Reset(), calls), 3)
  {
    var d := Some(Device(1));
    var marked := Slot(d, FD_DEV);
    var t1 := Table(Reset().slots[3 := marked], 3);
    var t2 := Table(t1.slots[4 := marked], 4);
    SecondOpen(t1, t2);
    SharedLock(t2, d);
    hide Step, Permitted, Excl, Sole;
    RunOfThree(Reset(), DoOpen(d, 0, 0), DoOpen(d, 0, 0), DoIoctl(3, TIOCEXCL, None));
  }

  /** A failed open does not always restore the table: fcntl sets a flag on a closed descriptor,
      and the open that tries that slot and fails clears it. */
  lemma FailedOpenClears()
    ensures var setup := [DoFcntl(3, F_SETFL, 0x4000)];
            && RunPermitted(Reset(), setup)
            && var t := Run(Reset(), setup);
               && t.slots[3].flags == 0x4000
               && Open(t, Some(Device(1)), 0, -1).1.Err?
               && Open(t, Some(Device(1)), 0, -1).0.slots[3].flags == 0
  {
    var c := DoFcntl(3, F_SETFL, 0x4000);
    var t := Table(Reset().slots[3 := Slot(None, 0x4000)], -1);
    StaleFlag(t);
    ResetInv();
    StepKeeps(Reset(), c);
    hide Step, Inv, Marked;
    assert [c][1..] == [];
    assert RunPermitted(t, []) && Run(t, []) == t;
    LowestAt(t.slots, 3);
    ClaimUndone(t, Device(1), 0);
  }

  lemma StaleFlag(t: Table)
    requires t == Table(Reset().slots[3 := Slot(None, 0x4000)], -1)
    ensures Step(Reset(), DoFcntl(3, F_SETFL, 0x4000)) == t
  {
    assert With(Less(0, FCNTL_FLAGS_MASK), Only(0x4000, FCNTL_FLAGS_MASK)) == 0x4000;
  }

  lemma RedirectFirst(t1: Table)
    requires t1 == Table(Reset().slots[0 := Slot(Some(Device(1)), FD_DEV)], 3)
    ensures Step(Reset(), DoRedirect(0, Some(Device(1)), 0, 0)) == t1
  {
    LowestAt(Reset().slots, 3);
    hide LowestFree;
    assert Marked(Device(1), 0) == FD_DEV;
    ResetInv();
    var got := Open(Reset(), Some(Device(1)), 0, 0);
    assert got.1 == Ok(3);
    assert got.0.slots[0 := got.0.slots[3]][3 := FREE] == t1.slots;
  }

  /** A redirected standard descriptor can lock its device for good: closing it keeps the lock,
      and nobody can open the device from then on. */
  lemma LockOutlivesClose()
    ensures var d := Device(1);
            var calls := [DoRedirect(0, Some(d), 0, 0), DoIoctl(0, TIOCEXCL, None), DoClose(0, 0)];
            && RunPermitted(Reset(), calls)
            && Locked(Run(Reset(), calls), d)
            && Open(Run(Reset(), calls), Some(d), 0, 0).1 == Err(EACCES)
  {
    var d := Device(1);
    var t1 := Table(Reset().slots[0 := Slot(Some(d), FD_DEV)], 3);
    var t2 := Step(t1, DoIoctl(0, TIOCEXCL, None));
    RedirectFirst(t1);
    ResetInv();
    StepKeeps(Reset(), DoRedirect(0, Some(d), 0, 0));
    LocksStandard(t1, t2);
    StepKeeps(t1, DoIoctl(0, TIOCEXCL, None));
    hide Step, Inv, Locked, Open, LowestFree;
    LowestAt(t2.slots, 3);
    CloseUnlocks(t2, 0, 0);
    ClosesStandard(t2);
    LockRefusesOpen(t2, d, 0, 0);
    RunOfThree(Reset(), DoRedirect(0, Some(d), 0, 0), DoIoctl(0, TIOCEXCL, None), DoClose(0, 0));
  }

  lemma LocksStandard(t1: Table, t2: Table)
    requires t1 == Table(Reset().slots[0 := Slot(Some(Device(1)), FD_DEV)], 3)
    requires t2 == Step(t1, DoIoctl(0, TIOCEXCL, None))
    ensures Wf(t2) && InUse(t2, 0) && t2.slots[0].dev == Some(Device(1)) && Excl(t2.slots[0])
    ensures t2.slots[3].dev.None? && forall i :: 0 <= i < 3 ==> t2.slots[i].dev.Some?
  {
    assert !Contended(t1, 0, 3, false);
  }

  lemma ClosesStandard(t: Table)
    requires Wf(t) && InUse(t, 0)
    ensures Step(t, DoClose(0, 0)) == Close(t, 0, 0).0 == t
  {
  }
}
