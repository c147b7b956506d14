/** The file descriptor calls as the HAL runs them, over the array alt_fd_list and the
    high-water mark alt_max_fd. */
module FdTable {
  import opened FdSpec

  class FdList {
    const list: array<Slot>
    var maxFd: int

    ghost function View(): Table
      reads this, list
    {
      Table(list[..], maxFd)
    }

    ghost predicate Valid()
      reads this, list
    {
      list.Length == MAX_FD && Inv(View())
    }

    /** alt_fd_list and alt_max_fd as alt_dev.c initialises them. */
    constructor ()
      ensures Valid() && View() == Reset() && fresh(list)
      ensures maxFd == -1
      ensures forall fd :: 0 <= fd < 32 ==> list[fd] == Slot(if fd < 3 then Some(DEV_NULL) else None, 0)
    {
      list := new Slot[MAX_FD](i => if 0 <= i < 3 then Slot(Some(DEV_NULL), 0) else FREE);
      maxFd := -1;
      new;
      assert list[..] == Reset().slots;
      ResetInv();
    }

    /** alt_get_fd */
    method AltGetFd(dev: Dev) returns (r: Result)
      requires list.Length == MAX_FD && Wf(View())
      modifies this, list
      ensures Wf(View()) && (View(), r) == GetFd(old(View()), dev)
    {
      var i := 0;
      while i < MAX_FD
        invariant i <= MAX_FD && View() == old(View())
        invariant forall j :: 0 <= j < i ==> list[j].dev.Some?
      {
        if list[i].dev.None? {
          LowestAt(list[..], i);
          list[i] := list[i].(dev := Some(dev));
          if i > maxFd {
            maxFd := i;
          }
          assert list[..] == old(list[..])[i := list[i]];
          return Ok(i);
        }
        i := i + 1;
      }
      assert LowestFree(list[..]) == MAX_FD;
      return Err(EMFILE);
    }

    /** alt_release_fd */
    method AltReleaseFd(fd: int)
      requires list.Length == MAX_FD && Wf(View()) && fd < MAX_FD
      modifies list
      ensures View() == Release(old(View()), fd)
    {
      if fd > 2 {
        list[fd] := list[fd].(flags := 0);
        list[fd] := list[fd].(dev := None);
        assert list[..] == old(list[..])[fd := FREE];
      }
    }

    /** alt_file_locked; its unsigned index reaches the high-water mark because an open has
        already raised that above -1. */
    method AltFileLocked(fd: nat) returns (locked: bool)
      requires list.Length == MAX_FD && Wf(View()) && fd < MAX_FD && maxFd >= 0
      modifies list
      ensures View() == SetFlags(old(View()), fd, With(old(list[fd].flags), FD_DEV))
      ensures locked == Contended(View(), fd, maxFd + 1, true)
    {
      list[fd] := list[fd].(flags := With(list[fd].flags, FD_DEV));
      assert list[..] == old(list[..])[fd := list[fd]];
      var i := 0;
      while i <= maxFd
        invariant 0 <= i <= maxFd + 1
        invariant list[..] == old(list[..])[fd := old(list[fd]).(flags := With(old(list[fd].flags), FD_DEV))]
        invariant forall j :: 0 <= j < i && j != fd && list[j].dev == list[fd].dev ==> !Excl(list[j])
      {
        if list[i].dev == list[fd].dev && Excl(list[i]) && i != fd {
          return true;
        }
        i := i + 1;
      }
      return false;
    }

    /** ALT_OPEN; `target` is what alt_find_dev and alt_find_file make of the name, `driver`
        the answer of the driver's open, 0 if it has none. */
    method AltOpen(target: Option<Dev>, flags: bv32, driver: int) returns (r: Result)
      requires Valid()
      modifies this, list
      ensures Valid() && (View(), r) == Open(old(View()), target, flags, driver)
    {
      OpenKeeps(View(), target, flags, driver);
      hide With, Less, Only, Has, Inv, LowestFree, Contended;
      if target.None? {
        return Err(ENODEV);
      }
      var dev := target.value;
      var index := AltGetFd(dev);
      if index.Err? {
        return index;
      }
      var fd: nat := index.value;
      list[fd] := list[fd].(flags := Less(flags, FD_FLAGS_MASK));
      assert list[..] == old(GetFd(View(), dev).0.slots)[fd := list[fd]];
      var locked := false;
      if dev.Device? {
        locked := AltFileLocked(fd);
      }
      assert View() == Claim(old(View()), dev, flags);
      var status := if locked then Err(EACCES) else if driver < 0 then Err(DriverError(-driver)) else Ok(fd);
      if status.Err? {
        AltReleaseFd(fd);
      }
      return status;
    }

    /** ALT_CLOSE */
    method AltClose(fd: int, driver: int) returns (r: Result)
      requires Valid() && (fd < 0 || InUse(View(), fd))
      modifies list
      ensures Valid() && (View(), r) == Close(old(View()), fd, driver)
    {
      if fd < 0 {
        return Err(EBADFD);
      }
      ReleaseKeeps(View(), fd);
      AltReleaseFd(fd);
      return if driver < 0 then Err(DriverError(-driver)) else Ok(0);
    }

    /** alt_fd_lock */
    method AltFdLock(fd: nat) returns (r: Result)
      requires list.Length == MAX_FD && Wf(View()) && fd < MAX_FD
      modifies list
      ensures (View(), r) == Lock(old(View()), fd)
    {
      var i := 0;
      while i < maxFd
        invariant 0 <= i && (i <= maxFd || i == 0) && View() == old(View())
        invariant forall j :: 0 <= j < i && j != fd ==> list[j].dev != list[fd].dev
      {
        if i != fd && list[i].dev == list[fd].dev {
          return Err(EACCES);
        }
        i := i + 1;
      }
      assert !Contended(View(), fd, maxFd, false);
      list[fd] := list[fd].(flags := With(list[fd].flags, FD_EXCL));
      assert list[..] == old(list[..])[fd := list[fd]];
      return Ok(0);
    }

    /** alt_fd_unlock */
    method AltFdUnlock(fd: nat) returns (r: Result)
      requires list.Length == MAX_FD && Wf(View()) && fd < MAX_FD
      modifies list
      ensures View() == Unlock(old(View()), fd) && r == Ok(0)
    {
      list[fd] := list[fd].(flags := Less(list[fd].flags, FD_EXCL));
      assert list[..] == old(list[..])[fd := list[fd]];
      return Ok(0);
    }

    /** ALT_IOCTL */
    method AltIoctl(fd: int, req: Request, driver: Option<int>) returns (r: Result)
      requires Valid() && (fd < 0 || InUse(View(), fd))
      modifies list
      ensures Valid() && (View(), r) == Ioctl(old(View()), fd, req, driver)
    {
      if fd < 0 {
        return Err(EBADFD);
      }
      StepKeeps(View(), DoIoctl(fd, req, driver));
      hide With, Less, Only, Has, Inv, Contended;
      if IsDev(list[fd]) && req == TIOCEXCL {
        r := AltFdLock(fd);
      } else if IsDev(list[fd]) && req == TIOCNXCL {
        r := AltFdUnlock(fd);
      } else if driver.Some? {
        r := if driver.value < 0 then Err(DriverError(-driver.value)) else Ok(driver.value);
      } else {
        r := Err(ENOTTY);
      }
    }

    /** ALT_FCNTL */
    method AltFcntl(fd: int, cmd: Command, arg: bv32) returns (r: Result)
      requires Valid() && fd < MAX_FD
      modifies list
      ensures Valid() && (View(), r) == Fcntl(old(View()), fd, cmd, arg)
    {
      hide With, Less, Only, Has, Inv;
      FcntlKeeps(View(), fd, cmd, arg);
      if fd < 0 {
        return Err(EBADFD);
      }
      match cmd
      case F_GETFL =>
        r := Flags(Less(list[fd].flags, FD_FLAGS_MASK));
      case F_SETFL =>
        list[fd] := list[fd].(flags := Less(list[fd].flags, FCNTL_FLAGS_MASK));
        list[fd] := list[fd].(flags := With(list[fd].flags, Only(arg, FCNTL_FLAGS_MASK)));
        ghost var kept := Less(old(list[fd]).flags, FCNTL_FLAGS_MASK);
        assert list[fd] == old(list[fd]).(flags := With(kept, Only(arg, FCNTL_FLAGS_MASK)));
        assert list[..] == old(list[..])[fd := list[fd]];
        r := Ok(0);
      case OtherCommand =>
        r := Err(EINVAL);
    }

    /** alt_open_fd */
    method AltOpenFd(std: nat, target: Option<Dev>, flags: bv32, driver: int)
      requires Valid() && std < 3
      modifies this, list
      ensures Valid() && View() == Redirect(old(View()), std, target, flags, driver)
    {
      RedirectKeeps(View(), std, target, flags, driver);
      if Open(View(), target, flags, driver).1.Ok? {
        OpenedExact(View(), target, flags, driver);
      }
      hide With, Less, Only, Has, Inv, Open, Contended;
      var source := AltOpen(target, flags, driver);
      if source.Ok? {
        list[std] := list[source.value];
        AltReleaseFd(source.value);
      }
    }

    /** alt_io_redirect */
    method AltIoRedirect(stdout: Option<Dev>, stdin: Option<Dev>, stderr: Option<Dev>,
                         flags: seq<bv32>, drivers: seq<int>)
      requires Valid() && |flags| == |drivers| == 3
      modifies this, list
      ensures Valid()
      ensures View() ==
              Redirect(Redirect(Redirect(old(View()), 1, stdout, flags[0], drivers[0]),
                                0, stdin, flags[1], drivers[1]),
                       2, stderr, flags[2], drivers[2])
    {
      AltOpenFd(1, stdout, flags[0], drivers[0]);
      AltOpenFd(0, stdin, flags[1], drivers[1]);
      AltOpenFd(2, stderr, flags[2], drivers[2]);
    }
  }
}
