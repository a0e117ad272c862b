/** The file descriptor pool: allocation, the high-water mark, and exclusive locks. */
module FileDescriptors {
  import opened Options

  const MAX_FD: nat := 32

  /** What a descriptor refers to. Devices and filesystems are registered in separate lists. */
  datatype Dev = Device(id: nat) | FileSystem(id: nat)

  /** fd_flags: the lock bit, the device bit, the two bits fcntl may change, and the rest. */
  datatype Flags = Flags(excl: bool, dev: bool, append: bool, nonblock: bool, mode: nat)

  const NO_FLAGS := Flags(false, false, false, false, 0)

  datatype Fd = Fd(dev: Option<Dev>, flags: Flags)

  datatype Table = Table(fds: seq<Fd>, maxFd: int)

  /** Results: a descriptor or zero, or an error number. */
  datatype Rc = Ok(n: int) | Emfile | Enodev | Eacces | Ebadfd | Enotty | DriverError(code: int)

  const DEV_NULL := Device(0)

  function Initial(): Table {
    var std := Fd(Some(DEV_NULL), NO_FLAGS);
    Table([std, std, std] + seq(MAX_FD - 3, _ => Fd(None, NO_FLAGS)), -1)
  }

  // ----- Operations on the table -----

  /** The first free slot at or after i, or MAX_FD. */
  function FirstFree(fds: seq<Fd>, i: nat): (r: nat)
    requires i <= |fds|
    ensures i <= r <= |fds|
    ensures r < |fds| ==> fds[r].dev.None?
    ensures forall j :: i <= j < r ==> fds[j].dev.Some?
    decreases |fds| - i
  {
    if i == |fds| || fds[i].dev.None? then i else FirstFree(fds, i + 1)
  }

  function Max(a: int, b: int): int { if a > b then a else b }

  /** Some other slot up to the high-water mark holds the lock on the device of slot i. */
  ghost predicate LockedByOther(t: Table, i: nat)
    requires i < |t.fds| && t.maxFd < |t.fds|
  {
    exists j: nat :: j <= t.maxFd && j != i && t.fds[j].dev == t.fds[i].dev && t.fds[j].flags.excl
  }

  /** Some other slot below the high-water mark refers to the device of slot i. */
  ghost predicate SharedBelowMark(t: Table, i: nat)
    requires i < |t.fds| && t.maxFd < |t.fds|
  {
    exists j: nat :: j < t.maxFd && j != i && t.fds[j].dev == t.fds[i].dev
  }

  function Release(t: Table, fd: int): Table
    requires fd < |t.fds|
  {
    if fd > 2 then t.(fds := t.fds[fd := Fd(None, NO_FLAGS)]) else t
  }

  /** The table once slot i has been claimed for dev with the caller's flags. */
  function Claimed(t: Table, i: nat, dev: Dev, flags: Flags): Table
    requires i < |t.fds|
  {
    var flags' := flags.(excl := false, dev := dev.Device?);
    Table(t.fds[i := Fd(Some(dev), flags')], Max(t.maxFd, i))
  }

  /** open(): the name resolves to `found`; `driver` is the result of the driver's own open. */
  ghost function Open(t: Table, found: Option<Dev>, flags: Flags, driver: int): (Table, Rc)
    requires |t.fds| == MAX_FD && t.maxFd < MAX_FD
  {
    if found.None? then (t, Enodev)
    else
      var i := FirstFree(t.fds, 0);
      if i == MAX_FD then (t, Emfile)
      else
        var t1 := Claimed(t, i, found.value, flags);
        if found.value.Device? && LockedByOther(t1, i) then (Release(t1, i), Eacces)
        else if driver < 0 then (Release(t1, i), DriverError(driver))
        else (t1, Ok(i))
  }

  /** ioctl(TIOCEXCL) on a device descriptor. */
  ghost function Lock(t: Table, fd: nat): (Table, Rc)
    requires fd < |t.fds| && t.maxFd < |t.fds|
  {
    if SharedBelowMark(t, fd) then (t, Eacces)
    else (t.(fds := t.fds[fd := t.fds[fd].(flags := t.fds[fd].flags.(excl := true))]), Ok(0))
  }

  function Unlock(t: Table, fd: nat): Table
    requires fd < |t.fds|
  {
    t.(fds := t.fds[fd := t.fds[fd].(flags := t.fds[fd].flags.(excl := false))])
  }

  /** fcntl(F_SETFL): only the append and non-blocking bits change. */
  function SetFlags(t: Table, fd: nat, append: bool, nonblock: bool): Table
    requires fd < |t.fds|
  {
    t.(fds := t.fds[fd := t.fds[fd].(flags := t.fds[fd].flags.(append := append, nonblock := nonblock))])
  }

  /** Opening a device onto one of the standard slots. */
  ghost function Redirect(t: Table, slot: nat, found: Option<Dev>, flags: Flags, driver: int): Table
    requires |t.fds| == MAX_FD && t.maxFd < MAX_FD && slot <= 2
  {
    var (t1, rc) := Open(t, found, flags, driver);
    if rc.Ok? then Release(t1.(fds := t1.fds[slot := t1.fds[FirstFree(t.fds, 0)]]), FirstFree(t.fds, 0)) else t1
  }

  // ----- The invariant -----

  /**
   One slot: standard slots stay in use, pool slots in use lie at or below the mark, free ones carry
   neither the lock nor the device bit.
   */
  predicate SlotOk(fd: Fd, i: int, maxFd: int) {
    && (i <= 2 ==> fd.dev.Some?)
    && (i > 2 && fd.dev.Some? ==> i <= maxFd)
    && (fd.dev.None? ==> !fd.flags.excl && !fd.flags.dev)
    && (fd.flags.dev ==> fd.dev.Some? && fd.dev.value.Device? && maxFd >= 3)
    && (fd.flags.excl ==> fd.flags.dev)
  }

  ghost predicate SlotsOk(t: Table) {
    && |t.fds| == MAX_FD && -1 <= t.maxFd < MAX_FD
    && forall i :: 0 <= i < MAX_FD ==> SlotOk(t.fds[i], i, t.maxFd)
  }

  /** A lock holder with sharers sits strictly below the high-water mark, and no sharer is a holder. */
  ghost predicate LocksOk(t: Table)
    requires |t.fds| == MAX_FD
  {
    forall h, i ::
      0 <= h < MAX_FD && 0 <= i < MAX_FD && h != i && t.fds[h].flags.excl && t.fds[h].dev == t.fds[i].dev ==>
        h < t.maxFd && !t.fds[i].flags.excl
  }

  ghost predicate Inv(t: Table) { SlotsOk(t) && LocksOk(t) }

  /** At start-up the standard streams are the null device, and the other 29 slots are free and clear. */
  lemma InitialHolds()
    ensures Inv(Initial()) && |Initial().fds| == 32 && Initial().maxFd == -1
    ensures forall j :: 0 <= j < 3 ==> Initial().fds[j] == Fd(Some(Device(0)), Flags(false, false, false, false, 0))
    ensures forall j :: 3 <= j < 32 ==> Initial().fds[j] == Fd(None, Flags(false, false, false, false, 0))
  {}

  lemma ReleaseKeeps(t: Table, fd: int)
    requires Inv(t) && fd < MAX_FD
    ensures Inv(Release(t, fd))
  {}

  lemma UnlockKeeps(t: Table, fd: nat)
    requires Inv(t) && fd < MAX_FD
    ensures Inv(Unlock(t, fd))
  {}

  lemma SetFlagsKeeps(t: Table, fd: nat, append: bool, nonblock: bool)
    requires Inv(t) && fd < MAX_FD
    ensures Inv(SetFlags(t, fd, append, nonblock))
    ensures var f, t' := t.fds[fd].flags, SetFlags(t, fd, append, nonblock);
            && t'.fds == t.fds[fd := Fd(t.fds[fd].dev, Flags(f.excl, f.dev, append, nonblock, f.mode))]
            && t'.maxFd == t.maxFd
  {}

  /** The lock scan misses slot maxFd, yet a second holder never arises. */
  lemma LockKeeps(t: Table, fd: nat)
    requires Inv(t) && fd < MAX_FD && t.fds[fd].flags.dev
    ensures Inv(Lock(t, fd).0)
  {
    if !SharedBelowMark(t, fd) {
      forall i: nat | i < MAX_FD && i != fd && t.fds[i].dev == t.fds[fd].dev
        ensures i == t.maxFd && fd < t.maxFd && !t.fds[i].flags.excl
      {
        assert SlotOk(t.fds[i], i, t.maxFd) && SlotOk(t.fds[fd], fd, t.maxFd);
        assert !(i < t.maxFd);
      }
    }
  }

  lemma FreeSlotIsPoolSlot(t: Table)
    requires SlotsOk(t)
    ensures FirstFree(t.fds, 0) >= 3
  {
    assert SlotOk(t.fds[0], 0, t.maxFd) && SlotOk(t.fds[1], 1, t.maxFd) && SlotOk(t.fds[2], 2, t.maxFd);
  }

  /** A freshly claimed slot has no lock holder on its device. */
  lemma CopyIsUnlocked(t: Table, dev: Dev, flags: Flags)
    requires Inv(t) && FirstFree(t.fds, 0) < MAX_FD
    requires dev.Device? ==> !LockedByOther(Claimed(t, FirstFree(t.fds, 0), dev, flags), FirstFree(t.fds, 0))
    ensures var i := FirstFree(t.fds, 0);
            var t1 := Claimed(t, i, dev, flags);
            forall h :: 0 <= h < MAX_FD && t1.fds[h].flags.excl ==> t1.fds[h].dev != t1.fds[i].dev
  {
    FreeSlotIsPoolSlot(t);
    var i := FirstFree(t.fds, 0);
    var t1 := Claimed(t, i, dev, flags);
    forall h: nat | h < MAX_FD && h != i && t1.fds[h].flags.excl
      ensures t1.fds[h].dev != t1.fds[i].dev
    {
      assert SlotOk(t.fds[h], h, t.maxFd);
      assert h <= t1.maxFd;
    }
  }

  /** Claiming a free slot for an unlocked device keeps the invariant. */
  lemma ClaimKeeps(t: Table, dev: Dev, flags: Flags)
    requires Inv(t) && FirstFree(t.fds, 0) < MAX_FD
    requires dev.Device? ==> !LockedByOther(Claimed(t, FirstFree(t.fds, 0), dev, flags), FirstFree(t.fds, 0))
    ensures Inv(Claimed(t, FirstFree(t.fds, 0), dev, flags))
  {
    FreeSlotIsPoolSlot(t);
    CopyIsUnlocked(t, dev, flags);
  }

  /** Whatever fails after the claim, releasing the slot frees and clears it and touches no other. */
  lemma ReleaseRestores(t: Table, dev: Dev, flags: Flags)
    requires Inv(t) && FirstFree(t.fds, 0) < MAX_FD
    ensures var i := FirstFree(t.fds, 0);
            var t2 := Release(Claimed(t, i, dev, flags), i);
            t2.fds == t.fds[i := Fd(None, NO_FLAGS)] && t2.maxFd >= t.maxFd && Inv(t2)
  {
    FreeSlotIsPoolSlot(t);
    var i := FirstFree(t.fds, 0);
    assert Release(Claimed(t, i, dev, flags), i).fds == t.fds[i := Fd(None, NO_FLAGS)];
  }

  lemma OpenKeeps(t: Table, found: Option<Dev>, flags: Flags, driver: int)
    requires Inv(t)
    ensures Inv(Open(t, found, flags, driver).0)
  {
    var i := FirstFree(t.fds, 0);
    if found.Some? && i < MAX_FD {
      ReleaseRestores(t, found.value, flags);
      if !(found.value.Device? && LockedByOther(Claimed(t, i, found.value, flags), i)) {
        ClaimKeeps(t, found.value, flags);
      }
    }
  }

  /** The first free slot, the one an open tries, carries flags left by fcntl. */
  predicate FreeSlotHasFlags(t: Table)
    requires |t.fds| == MAX_FD
  {
    var i := FirstFree(t.fds, 0);
    i < MAX_FD && t.fds[i].flags != NO_FLAGS
  }

  /**
   A failed open leaves every slot's device as it was, and no flags but perhaps those of the first free
   slot: it leaves the whole table as it was if and only if no device was found or that slot was clear.
   */
  lemma FailedOpenRestoresIff(t: Table, found: Option<Dev>, flags: Flags, driver: int)
    requires Inv(t) && !Open(t, found, flags, driver).1.Ok?
    ensures var fds' := Open(t, found, flags, driver).0.fds;
            && (fds' == t.fds <==> found.None? || !FreeSlotHasFlags(t))
            && (fds' != t.fds ==> fds' == t.fds[FirstFree(t.fds, 0) := Fd(None, NO_FLAGS)])
            && (forall j :: 0 <= j < MAX_FD ==> fds'[j].dev == t.fds[j].dev)
  {
    var i := FirstFree(t.fds, 0);
    if found.Some? && i < MAX_FD {
      ReleaseRestores(t, found.value, flags);
      assert t.fds[i := Fd(None, NO_FLAGS)][i] == Fd(None, NO_FLAGS);
      if t.fds[i].flags == NO_FLAGS {
        assert t.fds[i := Fd(None, NO_FLAGS)] == t.fds;
      }
    }
  }

  /** A successful open returns the lowest free slot, which is neither in use nor a standard slot. */
  lemma OpenTakesLowestFree(t: Table, found: Option<Dev>, flags: Flags, driver: int)
    requires Inv(t) && Open(t, found, flags, driver).1.Ok?
    ensures var (t', rc) := Open(t, found, flags, driver);
            && 3 <= rc.n < MAX_FD && t.fds[rc.n].dev.None? && t'.fds[rc.n].dev == found
            && (forall j :: 0 <= j < rc.n ==> t.fds[j].dev.Some?)
            && (forall j :: 0 <= j < MAX_FD && j != rc.n ==> t'.fds[j] == t.fds[j])
  {
    FreeSlotIsPoolSlot(t);
  }

  /** Some descriptor holds the lock on the device. */
  ghost predicate Held(t: Table, dev: Option<Dev>) {
    exists h: nat :: h < |t.fds| && t.fds[h].flags.excl && t.fds[h].dev == dev
  }

  /** With the invariant, the scan up to the mark sees every holder. */
  lemma LockedIffHeld(t: Table, dev: Dev, flags: Flags)
    requires Inv(t) && FirstFree(t.fds, 0) < MAX_FD
    ensures LockedByOther(Claimed(t, FirstFree(t.fds, 0), dev, flags), FirstFree(t.fds, 0)) <==> Held(t, Some(dev))
  {
    var i := FirstFree(t.fds, 0);
    var t1 := Claimed(t, i, dev, flags);
    FreeSlotIsPoolSlot(t);
    if Held(t, Some(dev)) {
      var h: nat :| h < |t.fds| && t.fds[h].flags.excl && t.fds[h].dev == Some(dev);
      assert SlotOk(t.fds[h], h, t.maxFd);
      assert h != i && t1.fds[h] == t.fds[h] && h <= t1.maxFd;
    }
    if LockedByOther(t1, i) {
      var j: nat :| j <= t1.maxFd && j != i && t1.fds[j].dev == t1.fds[i].dev && t1.fds[j].flags.excl;
      assert t.fds[j] == t1.fds[j];
    }
  }

  /** No slot is free. */
  predicate AllInUse(t: Table) { forall j :: 0 <= j < |t.fds| ==> t.fds[j].dev.Some? }

  /** Which opens succeed, what descriptor and flags they give, and the error of each that does not. */
  lemma OpenResult(t: Table, found: Option<Dev>, flags: Flags, driver: int)
    requires Inv(t)
    ensures var (t', rc) := Open(t, found, flags, driver);
            && (rc == if found.None? then Enodev else if AllInUse(t) then Emfile
                      else if found.value.Device? && Held(t, found) then Eacces
                      else if driver < 0 then DriverError(driver) else Ok(FirstFree(t.fds, 0)))
            && (rc.Ok? ==>
                  && 0 <= rc.n < |t'.fds|
                  && t'.fds[rc.n] ==
                       Fd(found, Flags(false, found.value.Device?, flags.append, flags.nonblock, flags.mode)))
  {
    var i := FirstFree(t.fds, 0);
    if found.Some? && i < MAX_FD {
      LockedIffHeld(t, found.value, flags);
    }
  }

  /** Every open of a locked device fails. */
  lemma LockedOpenFails(t: Table, h: nat, flags: Flags, driver: int)
    requires Inv(t) && h < MAX_FD && t.fds[h].flags.excl
    ensures !Open(t, t.fds[h].dev, flags, driver).1.Ok?
  {
    var i := FirstFree(t.fds, 0);
    assert SlotOk(t.fds[h], h, t.maxFd);
    if i < MAX_FD {
      var t1 := Claimed(t, i, t.fds[h].dev.value, flags);
      assert h <= t1.maxFd && h != i && t1.fds[h] == t.fds[h];
    }
  }

  lemma RedirectKeeps(t: Table, slot: nat, found: Option<Dev>, flags: Flags, driver: int)
    requires Inv(t) && slot <= 2
    ensures Inv(Redirect(t, slot, found, flags, driver))
  {
    OpenKeeps(t, found, flags, driver);
    var (t1, rc) := Open(t, found, flags, driver);
    if rc.Ok? {
      FreeSlotIsPoolSlot(t);
      var i := FirstFree(t.fds, 0);
      var t2 := t1.(fds := t1.fds[slot := t1.fds[i]]);
      assert forall h :: 0 <= h < MAX_FD && t1.fds[h].flags.excl ==> t1.fds[h].dev != t1.fds[i].dev by {
        CopyIsUnlocked(t, found.value, flags);
      }
      assert Inv(t2);
      ReleaseKeeps(t2, i);
    }
  }

  /**
   After a redirection the standard slot has the device and the flags that the caller opened, the slot that
   was used for it is free and clear again, and nothing else differs. One that fails changes no device.
   */
  lemma RedirectEffects(t: Table, slot: nat, found: Option<Dev>, flags: Flags, driver: int)
    requires Inv(t) && slot <= 2
    ensures var t', rc := Redirect(t, slot, found, flags, driver), Open(t, found, flags, driver).1;
            && |t'.fds| == |t.fds| && FirstFree(t'.fds, 0) == FirstFree(t.fds, 0)
            && (rc.Ok? ==>
                  && t'.fds[slot] ==
                       Fd(found, Flags(false, found.value.Device?, flags.append, flags.nonblock, flags.mode))
                  && 3 <= rc.n < |t.fds| && t'.fds[rc.n] == Fd(None, Flags(false, false, false, false, 0))
                  && forall j :: 0 <= j < |t.fds| && j != slot && j != rc.n ==> t'.fds[j] == t.fds[j])
            && (!rc.Ok? ==> forall j :: 0 <= j < |t.fds| ==> t'.fds[j].dev == t.fds[j].dev)
  {
    FreeSlotIsPoolSlot(t);
    OpenResult(t, found, flags, driver);
    var t', rc := Redirect(t, slot, found, flags, driver), Open(t, found, flags, driver).1;
    if rc.Ok? {
      OpenTakesLowestFree(t, found, flags, driver);
    } else {
      FailedOpenRestoresIff(t, found, flags, driver);
    }
    SameFirstFree(t.fds, t'.fds, 0);
  }

  lemma {:induction false} SameFirstFree(a: seq<Fd>, b: seq<Fd>, i: nat)
    requires |a| == |b| && i <= |a| && forall j :: 0 <= j < |a| ==> (a[j].dev.None? <==> b[j].dev.None?)
    ensures FirstFree(a, i) == FirstFree(b, i)
    decreases |a| - i
  {
    if i < |a| && a[i].dev.Some? {
      SameFirstFree(a, b, i + 1);
    }
  }

  /** The table after the start-up redirection of standard output, input and error. */
  ghost function Started(stdout: Option<Dev>, stdin: Option<Dev>, stderr: Option<Dev>, write: Flags, read: Flags,
                         d1: int, d0: int, d2: int): (t: Table)
    ensures Inv(t)
  {
    InitialHolds();
    var t1 := Redirect(Initial(), 1, stdout, write, d1);
    RedirectKeeps(Initial(), 1, stdout, write, d1);
    var t0 := Redirect(t1, 0, stdin, read, d0);
    RedirectKeeps(t1, 0, stdin, read, d0);
    RedirectKeeps(t0, 2, stderr, write, d2);
    Redirect(t0, 2, stderr, write, d2)
  }

  /** No descriptor is locked. */
  ghost predicate NoLocks(t: Table) { forall j :: 0 <= j < |t.fds| ==> !t.fds[j].flags.excl }

  /** The first free slot is 3 and nothing is locked. */
  ghost predicate PoolUntouched(t: Table) { Inv(t) && NoLocks(t) && FirstFree(t.fds, 0) == 3 }

  lemma RedirectSparesPool(t: Table, slot: nat, found: Option<Dev>, flags: Flags, driver: int)
    requires PoolUntouched(t) && slot <= 2
    ensures PoolUntouched(Redirect(t, slot, found, flags, driver))
  {
    RedirectKeeps(t, slot, found, flags, driver);
    RedirectEffects(t, slot, found, flags, driver);
    if !Open(t, found, flags, driver).1.Ok? {
      FailedOpenRestoresIff(t, found, flags, driver);
    }
  }

  lemma UntouchedOpen(t: Table, dev: Dev, flags: Flags, driver: int)
    requires PoolUntouched(t)
    ensures Open(t, Some(dev), flags, driver).1 == if driver < 0 then DriverError(driver) else Ok(3)
  {
    OpenResult(t, Some(dev), flags, driver);
  }

  /** However the start-up redirections go, the first open after them returns 3, or its driver's error. */
  lemma FirstOpenReturnsThree(stdout: Option<Dev>, stdin: Option<Dev>, stderr: Option<Dev>, write: Flags, read: Flags,
                              d1: int, d0: int, d2: int, dev: Dev, flags: Flags, driver: int)
    ensures Open(Started(stdout, stdin, stderr, write, read, d1, d0, d2), Some(dev), flags, driver).1
            == if driver < 0 then DriverError(driver) else Ok(3)
  {
    InitialHolds();
    assert PoolUntouched(Initial()) by { assert FirstFree(Initial().fds, 0) == 3; }
    RedirectSparesPool(Initial(), 1, stdout, write, d1);
    var t1 := Redirect(Initial(), 1, stdout, write, d1);
    RedirectSparesPool(t1, 0, stdin, read, d0);
    var t0 := Redirect(t1, 0, stdin, read, d0);
    RedirectSparesPool(t0, 2, stderr, write, d2);
    UntouchedOpen(Started(stdout, stdin, stderr, write, read, d1, d0, d2), dev, flags, driver);
  }

  // ----- Every sequence of calls -----

  datatype Op =
    | OpOpen(found: Option<Dev>, flags: Flags, driver: int)
    | OpClose(fd: int)
    | OpLock(fd: int)
    | OpUnlock(fd: int)
    | OpSetFlags(fd: int, append: bool, nonblock: bool)
    | OpRedirect(slot: nat, found: Option<Dev>, flags: Flags, driver: int)

  /** What close and ioctl can take: a negative number, or a descriptor in use, whose device they look into. */
  predicate Passable(t: Table, fd: int) { fd < 0 || (fd < |t.fds| && t.fds[fd].dev.Some?) }

  predicate Legal(t: Table, op: Op) {
    match op
    case OpOpen(_, _, _) => true
    case OpClose(fd) => Passable(t, fd)
    case OpLock(fd) => Passable(t, fd)
    case OpUnlock(fd) => Passable(t, fd)
    case OpSetFlags(fd, _, _) => fd < |t.fds|
    case OpRedirect(slot, _, _, _) => slot <= 2
  }

  /** The ioctl lock requests reach the lock code only for device descriptors. */
  ghost function Apply(t: Table, op: Op): Table
    requires |t.fds| == MAX_FD && t.maxFd < MAX_FD && Legal(t, op)
  {
    match op
    case OpOpen(found, flags, driver) => Open(t, found, flags, driver).0
    case OpClose(fd) => if fd < 0 then t else Release(t, fd)
    case OpLock(fd) => if fd < 0 || !t.fds[fd].flags.dev then t else Lock(t, fd).0
    case OpUnlock(fd) => if fd < 0 || !t.fds[fd].flags.dev then t else Unlock(t, fd)
    case OpSetFlags(fd, append, nonblock) => if fd < 0 then t else SetFlags(t, fd, append, nonblock)
    case OpRedirect(slot, found, flags, driver) => Redirect(t, slot, found, flags, driver)
  }

  lemma ApplyKeeps(t: Table, op: Op)
    requires Inv(t) && Legal(t, op)
    ensures Inv(Apply(t, op))
  {
    match op
    case OpOpen(found, flags, driver) => OpenKeeps(t, found, flags, driver);
    case OpClose(fd) => ReleaseKeeps(t, fd);
    case OpLock(fd) =>
      if fd >= 0 && t.fds[fd].flags.dev {
        LockKeeps(t, fd);
      }
    case OpUnlock(fd) =>
      if fd >= 0 {
        UnlockKeeps(t, fd);
      }
    case OpSetFlags(fd, append, nonblock) =>
      if fd >= 0 {
        SetFlagsKeeps(t, fd, append, nonblock);
      }
    case OpRedirect(slot, found, flags, driver) => RedirectKeeps(t, slot, found, flags, driver);
  }

  /** A history of calls from start-up; `now` is the table it leads to. */
  datatype History = Boot | Then(before: History, op: Op, now: Table) {
    function Last(): Table { if Boot? then Initial() else now }
  }

  ghost predicate Happened(h: History)
    decreases h
  {
    h.Then? ==>
      && Happened(h.before)
      && (|h.before.Last().fds| == MAX_FD && h.before.Last().maxFd < MAX_FD ==>
            Legal(h.before.Last(), h.op) && h.now == Apply(h.before.Last(), h.op))
  }

  lemma {:induction false} HistoryHolds(h: History)
    requires Happened(h)
    ensures Inv(h.Last())
    decreases h
  {
    match h
    case Boot => InitialHolds();
    case Then(before, op, now) =>
      HistoryHolds(before);
      ApplyKeeps(before.Last(), op);
  }

  /** At most one descriptor per device holds the lock, and while one does every open of the device fails. */
  lemma LocksAreExclusive(h: History, i: nat, j: nat, flags: Flags, driver: int)
    requires Happened(h) && i < MAX_FD && j < MAX_FD
    ensures var t := h.Last();
            && |t.fds| == MAX_FD && t.maxFd < MAX_FD
            && (t.fds[i].flags.excl && t.fds[j].flags.excl && t.fds[i].dev == t.fds[j].dev ==> i == j)
            && (t.fds[i].flags.excl ==> !Open(t, t.fds[i].dev, flags, driver).1.Ok?)
  {
    HistoryHolds(h);
    if h.Last().fds[i].flags.excl {
      LockedOpenFails(h.Last(), i, flags, driver);
    }
  }

  // ----- Free slots, and which histories keep them clear -----

  ghost predicate FreeSlotsClear(t: Table) {
    forall i :: 0 <= i < |t.fds| && t.fds[i].dev.None? ==> t.fds[i].flags == NO_FLAGS
  }

  /** A flag update that sets a bit on a descriptor not in use. */
  predicate MarksFreeSlot(t: Table, op: Op)
    requires Legal(t, op)
  {
    op.OpSetFlags? && op.fd >= 0 && t.fds[op.fd].dev.None? && (op.append || op.nonblock)
  }

  lemma OpenClear(t: Table, found: Option<Dev>, flags: Flags, driver: int)
    requires Inv(t) && FreeSlotsClear(t)
    ensures FreeSlotsClear(Open(t, found, flags, driver).0)
  {
    if !Open(t, found, flags, driver).1.Ok? {
      FailedOpenRestoresIff(t, found, flags, driver);
    }
  }

  /** A call keeps the free slots clear if and only if it is not such an update. */
  lemma ApplyClearIff(t: Table, op: Op)
    requires Inv(t) && Legal(t, op) && FreeSlotsClear(t)
    ensures FreeSlotsClear(Apply(t, op)) <==> !MarksFreeSlot(t, op)
  {
    match op
    case OpOpen(found, flags, driver) => OpenClear(t, found, flags, driver);
    case OpRedirect(slot, found, flags, driver) => OpenClear(t, found, flags, driver);
    case OpSetFlags(fd, append, nonblock) =>
      if fd >= 0 {
        assert Apply(t, op).fds[fd].dev == t.fds[fd].dev;
      }
    case _ =>
  }

  /** No call of the history marks a free slot. */
  ghost predicate Tidy(h: History)
    requires Happened(h)
    decreases h
  {
    h.Then? ==>
      && Tidy(h.before)
      && (Legal(h.before.Last(), h.op) ==> !MarksFreeSlot(h.before.Last(), h.op))
  }

  /** In such a history free slots are clear, so every failed open leaves every slot as it was. */
  lemma {:induction false} TidyOpensRestore(h: History)
    requires Happened(h) && Tidy(h)
    ensures var t := h.Last();
            && Inv(t) && FreeSlotsClear(t)
            && forall found, flags, driver ::
                 !Open(t, found, flags, driver).1.Ok? ==> Open(t, found, flags, driver).0.fds == t.fds
    decreases h
  {
    HistoryHolds(h);
    if h.Then? {
      TidyOpensRestore(h.before);
      ApplyClearIff(h.before.Last(), h.op);
    }
    forall found, flags, driver | !Open(h.Last(), found, flags, driver).1.Ok?
      ensures Open(h.Last(), found, flags, driver).0.fds == h.Last().fds
    {
      FailedOpenRestoresIff(h.Last(), found, flags, driver);
    }
  }

  /** From start-up: a flag update on the free slot 3, and an open that fails in the driver does not restore it. */
  lemma MarkedSlotIsNotRestored()
    ensures var t := SetFlags(Initial(), 3, false, true);
            && Happened(Then(Boot, OpSetFlags(3, false, true), t))
            && Inv(t) && !FreeSlotsClear(t)
            && !Open(t, Some(Device(7)), NO_FLAGS, -1).1.Ok?
            && Open(t, Some(Device(7)), NO_FLAGS, -1).0.fds != t.fds
  {
    var t := SetFlags(Initial(), 3, false, true);
    InitialHolds();
    SetFlagsKeeps(Initial(), 3, false, true);
    assert Happened(Boot);
    assert FirstFree(t.fds, 0) == 3;
    FailedOpenRestoresIff(t, Some(Device(7)), NO_FLAGS, -1);
  }

  // ----- Where the code differs from its comments -----

  /** Closing a holder releases its lock, and lets the device be opened, if and only if it is not a standard slot. */
  lemma CloseReleasesLockIff(t: Table, fd: nat, flags: Flags, driver: nat)
    requires Inv(t) && fd < MAX_FD && t.fds[fd].flags.excl
    ensures var t' := Apply(t, OpClose(fd));
            && Inv(t')
            && ((exists j: nat :: j < MAX_FD && t'.fds[j].flags.excl && t'.fds[j].dev == t.fds[fd].dev) <==> fd <= 2)
            && (Open(t', t.fds[fd].dev, flags, driver).1.Ok? <==> fd > 2)
  {
    assert SlotOk(t.fds[fd], fd, t.maxFd);
    var t' := Apply(t, OpClose(fd));
    ReleaseKeeps(t, fd);
    if fd <= 2 {
      LockedOpenFails(t, fd, flags, driver);
    } else {
      assert forall j: nat :: j < MAX_FD && t'.fds[j].dev == t.fds[fd].dev ==> !t'.fds[j].flags.excl;
      var i := FirstFree(t'.fds, 0);
      assert t'.fds[fd].dev.None?;
      assert i <= fd;
      assert !LockedByOther(Claimed(t', i, t.fds[fd].dev.value, flags), i);
    }
  }

  /** An unlock by the holder leaves everything but its lock bit, and the device can be opened again. */
  lemma UnlockReleases(t: Table, fd: nat, flags: Flags, driver: int)
    requires Inv(t) && fd < MAX_FD && t.fds[fd].flags.excl
    ensures var t', f := Apply(t, OpUnlock(fd)), t.fds[fd].flags;
            && Inv(t')
            && t'.fds == t.fds[fd := Fd(t.fds[fd].dev, Flags(false, true, f.append, f.nonblock, f.mode))]
            && !Held(t', t.fds[fd].dev)
            && (Open(t', t.fds[fd].dev, flags, driver).1.Ok? <==> driver >= 0 && !AllInUse(t))
  {
    assert SlotOk(t.fds[fd], fd, t.maxFd);
    var t' := Apply(t, OpUnlock(fd));
    UnlockKeeps(t, fd);
    OpenResult(t', t.fds[fd].dev, flags, driver);
    assert forall j :: 0 <= j < |t.fds| ==> t'.fds[j].dev == t.fds[j].dev;
  }

  /** A refused lock request changes nothing; a granted one sets the lock bit alone, and an unlock undoes it. */
  lemma LockAndUnlock(t: Table, fd: nat)
    requires Inv(t) && fd < MAX_FD && t.fds[fd].flags.dev
    ensures var (t', rc), f := Lock(t, fd), t.fds[fd].flags;
            && (!rc.Ok? ==> rc == Eacces && t' == t && Shared(t, fd))
            && (rc.Ok? ==>
                  && rc == Ok(0) && Inv(t')
                  && t' == Table(t.fds[fd := Fd(t.fds[fd].dev, f.(excl := true))], t.maxFd)
                  && (!f.excl ==> Apply(t', OpUnlock(fd)) == t))
  {
    LockKeeps(t, fd);
    var t' := Lock(t, fd).0;
    if Lock(t, fd).1.Ok? && !t.fds[fd].flags.excl {
      assert t'.fds[fd].(flags := t'.fds[fd].flags.(excl := false)) == t.fds[fd];
      assert Unlock(t', fd).fds == t.fds;
    }
  }

  /** Another descriptor refers to the device of fd. */
  ghost predicate Shared(t: Table, fd: nat)
    requires fd < |t.fds|
  {
    exists j: nat :: j < |t.fds| && j != fd && t.fds[j].dev == t.fds[fd].dev
  }

  /**
   A granted lock is really exclusive if and only if the slot at the high-water mark is not another
   descriptor of the same device.
   */
  lemma GrantIsExclusiveIff(t: Table, fd: nat)
    requires Inv(t) && fd < MAX_FD && t.fds[fd].flags.dev && Lock(t, fd).1.Ok?
    ensures !Shared(t, fd) <==> !(fd != t.maxFd && t.fds[t.maxFd].dev == t.fds[fd].dev)
  {
    assert SlotOk(t.fds[fd], fd, t.maxFd);
    if Shared(t, fd) {
      var j: nat :| j < MAX_FD && j != fd && t.fds[j].dev == t.fds[fd].dev;
      assert SlotOk(t.fds[j], j, t.maxFd);
      assert !(j < t.maxFd);
    }
  }

  /** From start-up: two opens of one device, and the lower one is granted the lock although the upper is open. */
  lemma SharedLockIsGranted()
    ensures var dev := Some(Device(7));
            var t1 := Open(Initial(), dev, NO_FLAGS, 0).0;
            |t1.fds| == MAX_FD && t1.maxFd < MAX_FD &&
            var t2 := Open(t1, dev, NO_FLAGS, 0).0;
            && Happened(Then(Then(Boot, OpOpen(dev, NO_FLAGS, 0), t1), OpOpen(dev, NO_FLAGS, 0), t2))
            && Inv(t2) && t2.fds[3].flags.dev && Shared(t2, 3) && Lock(t2, 3).1.Ok?
  {
    var dev := Some(Device(7));
    InitialHolds();
    assert FirstFree(Initial().fds, 0) == 3;
    var t1 := OpenedAt(Initial(), 3, NO_FLAGS);
    assert FirstFree(t1.fds, 0) == 4;
    var t2 := OpenedAt(t1, 4, NO_FLAGS);
    assert Happened(Boot);
    assert Happened(Then(Boot, OpOpen(dev, NO_FLAGS, 0), t1));
    assert t2.fds[4].dev == t2.fds[3].dev;
  }

  /** An open of device 7 that nothing locks. */
  lemma OpenedAt(t: Table, i: nat, flags: Flags) returns (t': Table)
    requires Inv(t) && i < MAX_FD && FirstFree(t.fds, 0) == i
    requires forall j :: 0 <= j < MAX_FD ==> !t.fds[j].flags.excl
    ensures t' == Claimed(t, i, Device(7), flags) && Open(t, Some(Device(7)), flags, 0) == (t', Ok(i)) && Inv(t')
  {
    t' := Claimed(t, i, Device(7), flags);
    OpenKeeps(t, Some(Device(7)), flags, 0);
  }

  /** From start-up: standard output redirected to a device, locked and closed, and the device stays locked. */
  lemma LockOutlivesClose()
    ensures var dev := Some(Device(7));
            var t1 := Redirect(Initial(), 1, dev, NO_FLAGS, 0);
            |t1.fds| == MAX_FD && t1.maxFd < MAX_FD && t1.fds[1].flags.dev &&
            var t2 := Lock(t1, 1).0;
            && Happened(Then(Then(Then(Boot, OpRedirect(1, dev, NO_FLAGS, 0), t1), OpLock(1), t2), OpClose(1), t2))
            && t2.fds[1].flags.excl && Inv(t2) && !Open(t2, dev, NO_FLAGS, 0).1.Ok?
  {
    var dev := Some(Device(7));
    InitialHolds();
    assert FirstFree(Initial().fds, 0) == 3;
    RedirectKeeps(Initial(), 1, dev, NO_FLAGS, 0);
    var t := OpenedAt(Initial(), 3, NO_FLAGS);
    var t1 := Redirect(Initial(), 1, dev, NO_FLAGS, 0);
    assert t1.fds[1] == t.fds[3] && t1.maxFd == 3;
    var t2 := Lock(t1, 1).0;
    assert !SharedBelowMark(t1, 1);
    LockKeeps(t1, 1);
    LockedOpenFails(t2, 1, NO_FLAGS, 0);
    var h1 := Then(Boot, OpRedirect(1, dev, NO_FLAGS, 0), t1);
    assert Happened(Boot);
    assert Happened(h1);
    assert Happened(Then(h1, OpLock(1), t2));
  }
}
