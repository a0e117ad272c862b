/** The descriptor routines as they run, over the fixed descriptor array and the high-water mark. */
module FdPool {
  import opened Options
  import opened FileDescriptors

  /** The requests ioctl treats itself; all others go to the driver. */
  datatype Request = Exclusive | NonExclusive | Other

  /** What a driver answers to an ioctl, if it has one. */
  function DriverAnswer(driver: Option<int>): Rc {
    match driver
    case None => Enotty
    case Some(code) => if code < 0 then DriverError(code) else Ok(code)
  }

  class Pool {
    const fds: array<Fd>
    var maxFd: int

    ghost function View(): Table
      reads this, fds
    {
      Table(fds[..], maxFd)
    }

    ghost predicate Valid()
      reads this, fds
    {
      Inv(View())
    }

    constructor ()
      ensures Valid() && fresh(fds) && View() == Initial()
    {
      fds := new Fd[MAX_FD](i => if i < 3 then Fd(Some(DEV_NULL), NO_FLAGS) else Fd(None, NO_FLAGS));
      maxFd := -1;
      new;
      assert fds[..] == Initial().fds;
      InitialHolds();
    }

    /** Allocates the first free descriptor. */
    method GetFd(dev: Dev) returns (rc: Rc)
      requires fds.Length == MAX_FD
      modifies this`maxFd, fds
      ensures var i := FirstFree(old(fds[..]), 0);
              if i == MAX_FD then rc == Emfile && fds[..] == old(fds[..]) && maxFd == old(maxFd)
              else && rc == Ok(i) && maxFd == Max(old(maxFd), i)
                   && fds[..] == old(fds[..])[i := old(fds[i]).(dev := Some(dev))]
    {
      var i := 0;
      while i < MAX_FD
        invariant i <= MAX_FD && FirstFree(fds[..], 0) == FirstFree(fds[..], i)
        invariant fds[..] == old(fds[..]) && maxFd == old(maxFd)
      {
        if fds[i].dev.None? {
          fds[i] := fds[i].(dev := Some(dev));
          if i > maxFd {
            maxFd := i;
          }
          return Ok(i);
        }
        i := i + 1;
      }
      rc := Emfile;
    }

    method ReleaseFd(fd: int)
      requires fd < fds.Length
      modifies fds
      ensures View() == Release(old(View()), fd)
    {
      if fd > 2 {
        fds[fd] := Fd(None, NO_FLAGS);
      }
    }

    /** Marks the descriptor as a device's and looks for a lock on that device, up to the mark. */
    method FileLocked(fd: nat) returns (locked: bool)
      requires fd < fds.Length && maxFd < fds.Length
      modifies fds
      ensures fds[..] == old(fds[..])[fd := old(fds[fd]).(flags := old(fds[fd]).flags.(dev := true))]
      ensures locked <==> LockedByOther(View(), fd)
    {
      fds[fd] := fds[fd].(flags := fds[fd].flags.(dev := true));
      var i := 0;
      while i <= maxFd
        invariant 0 <= i
        invariant forall j: nat :: j < i && j <= maxFd && j != fd && fds[j].dev == fds[fd].dev ==> !fds[j].flags.excl
        decreases maxFd - i
      {
        if fds[i].dev == fds[fd].dev && fds[i].flags.excl && i != fd {
          return true;
        }
        i := i + 1;
      }
      locked := false;
    }

    /** Opens a resolved name; `driver` is what the driver's own open returns. */
    method OpenDev(found: Option<Dev>, flags: Flags, driver: int) returns (rc: Rc)
      requires Valid()
      modifies this`maxFd, fds
      ensures Valid()
      ensures (View(), rc) == Open(old(View()), found, flags, driver)
    {
      OpenKeeps(View(), found, flags, driver);
      if found.None? {
        return Enodev;
      }
      ghost var t := View();
      var dev := found.value;
      rc := GetFd(dev);
      if !rc.Ok? {
        return;
      }
      var index := rc.n;
      fds[index] := fds[index].(flags := flags.(excl := false, dev := false));
      var locked := false;
      if dev.Device? {
        locked := FileLocked(index);
      }
      assert View() == Claimed(t, index, dev, flags);
      if locked {
        rc := Eacces;
      } else if driver < 0 {
        rc := DriverError(driver);
      }
      if !rc.Ok? {
        ReleaseFd(index);
      }
    }

    /** Grants the lock unless another slot below the mark refers to the device. */
    method FdLock(fd: nat) returns (rc: Rc)
      requires Valid() && fd < fds.Length && fds[fd].flags.dev
      modifies fds
      ensures Valid() && (View(), rc) == Lock(old(View()), fd)
    {
      LockKeeps(View(), fd);
      var i := 0;
      while i < maxFd
        invariant 0 <= i
        invariant forall j: nat :: j < i && j < maxFd && j != fd ==> fds[j].dev != fds[fd].dev
      {
        if i != fd && fds[i].dev == fds[fd].dev {
          return Eacces;
        }
        i := i + 1;
      }
      fds[fd] := fds[fd].(flags := fds[fd].flags.(excl := true));
      rc := Ok(0);
    }

    method Close(fd: int, driver: int) returns (rc: Rc)
      requires Valid() && Passable(View(), fd)
      modifies fds
      ensures Valid() && View() == Apply(old(View()), OpClose(fd))
      ensures rc == if fd < 0 then Ebadfd else if driver < 0 then DriverError(driver) else Ok(0)
    {
      if fd < 0 {
        return Ebadfd;
      }
      ReleaseKeeps(View(), fd);
      ReleaseFd(fd);
      rc := if driver < 0 then DriverError(driver) else Ok(0);
    }

    /** Lock requests on devices are handled here; everything else is the driver's, if it has an ioctl. */
    method Ioctl(fd: int, req: Request, driver: Option<int>) returns (rc: Rc)
      requires Valid() && Passable(View(), fd)
      modifies fds
      ensures Valid()
      ensures req.Exclusive? ==> View() == Apply(old(View()), OpLock(fd))
      ensures req.NonExclusive? ==> View() == Apply(old(View()), OpUnlock(fd))
      ensures req.Other? ==> View() == old(View())
      ensures rc == if fd < 0 then Ebadfd
                    else if req.Other? || !old(fds[fd]).flags.dev then
                      match driver
                      case None => Enotty
                      case Some(code) => if code < 0 then DriverError(code) else Ok(code)
                    else if req.Exclusive? then Lock(old(View()), fd).1
                    else Ok(0)
    {
      if fd < 0 {
        return Ebadfd;
      }
      if fds[fd].flags.dev {
        if req.Exclusive? {
          rc := FdLock(fd);
          return;
        } else if req.NonExclusive? {
          UnlockKeeps(View(), fd);
          fds[fd] := fds[fd].(flags := fds[fd].flags.(excl := false));
          return Ok(0);
        }
      }
      rc := DriverAnswer(driver);
    }

    /** F_SETFL changes the append and non-blocking bits only, on any descriptor, in use or not. */
    method SetFl(fd: int, append: bool, nonblock: bool) returns (rc: Rc)
      requires Valid() && fd < fds.Length
      modifies fds
      ensures Valid() && View() == Apply(old(View()), OpSetFlags(fd, append, nonblock))
      ensures rc == if fd < 0 then Ebadfd else Ok(0)
    {
      if fd < 0 {
        return Ebadfd;
      }
      SetFlagsKeeps(View(), fd, append, nonblock);
      fds[fd] := fds[fd].(flags := fds[fd].flags.(append := append, nonblock := nonblock));
      rc := Ok(0);
    }

    /** Opens a name onto a given standard slot; on failure the slot keeps what it had. */
    method OpenFd(slot: nat, found: Option<Dev>, flags: Flags, driver: int)
      requires Valid() && slot <= 2
      modifies this`maxFd, fds
      ensures Valid() && View() == Redirect(old(View()), slot, found, flags, driver)
    {
      RedirectKeeps(View(), slot, found, flags, driver);
      ghost var t := View();
      FreeSlotIsPoolSlot(t);
      var old' := OpenDev(found, flags, driver);
      if old'.Ok? {
        fds[slot] := fds[old'.n];
        ReleaseFd(old'.n);
      }
    }

    /** Start-up redirection of the standard streams: out, in, then err. */
    method IoRedirect(stdout: Option<Dev>, stdin: Option<Dev>, stderr: Option<Dev>, write: Flags, read: Flags,
                      d1: int, d0: int, d2: int)
      requires Valid()
      modifies this`maxFd, fds
      ensures Valid()
      ensures var t1 := Redirect(old(View()), 1, stdout, write, d1);
              Inv(t1) &&
              var t0 := Redirect(t1, 0, stdin, read, d0);
              Inv(t0) && View() == Redirect(t0, 2, stderr, write, d2)
      ensures old(View()) == Initial() ==> View() == Started(stdout, stdin, stderr, write, read, d1, d0, d2)
    {
      OpenFd(1, stdout, write, d1);
      OpenFd(0, stdin, read, d0);
      OpenFd(2, stderr, write, d2);
    }
  }
}
