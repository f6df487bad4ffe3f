/** The file-descriptor pool: allocation, release, exclusive locks and
    redirection over one table with a high-water mark. */

module FdModel {
  import opened Words

  const ALT_MAX_FD := 32
  const ALT_FD_EXCL: bv32 := 0x80000000
  const ALT_FD_DEV: bv32 := 0x40000000
  const ALT_FD_FLAGS_MASK: bv32 := ALT_FD_EXCL | ALT_FD_DEV
  const ALT_FCNTL_FLAGS_MASK: bv32 := 0x4008  // O_APPEND | O_NONBLOCK

  const EACCES := 13
  const ENODEV := 19
  const EINVAL := 22
  const EMFILE := 24
  const ENOTTY := 25
  const EBADFD := 81

  datatype Kind = Device | Filesystem
  datatype Dev = Dev(id: nat, kind: Kind)

  /** What a driver's open callback does: its status and the private word it leaves. */
  datatype Reply = Reply(status: int, priv: int)

  datatype Fd = Fd(dev: Option<Dev>, priv: int, flags: bv32)
  datatype Pool = Pool(table: seq<Fd>, maxFd: int)

  const FREE_SLOT := Fd(None, 0, 0)
  const NULL_DEVICE := Dev(0, Device)
  const STD_SLOT := Fd(Some(NULL_DEVICE), 0, 0)

  /** alt_dev.c: the three standard descriptors on /dev/null, the rest free. */
  function Initial(): Pool {
    Pool([STD_SLOT, STD_SLOT, STD_SLOT] + seq(ALT_MAX_FD - 3, _ => FREE_SLOT), -1)
  }

  predicate Has(flags: bv32, bit: bv32) {
    flags & bit != 0
  }

  function OpenFlags(dev: Dev, flags: bv32): (r: bv32)
    ensures !Has(r, ALT_FD_EXCL) && (Has(r, ALT_FD_DEV) <==> dev.kind.Device?)
    ensures r & !ALT_FD_FLAGS_MASK == flags & !ALT_FD_FLAGS_MASK
  {
    if dev.kind.Device? then (flags & !ALT_FD_FLAGS_MASK) | ALT_FD_DEV else flags & !ALT_FD_FLAGS_MASK
  }

  function WithLock(flags: bv32): (r: bv32)
    ensures r & !ALT_FD_EXCL == flags & !ALT_FD_EXCL
    ensures Has(r, ALT_FD_EXCL)
    ensures Has(r, ALT_FD_DEV) == Has(flags, ALT_FD_DEV)
  {
    flags | ALT_FD_EXCL
  }

  function WithoutLock(flags: bv32): (r: bv32)
    ensures r & !ALT_FD_EXCL == flags & !ALT_FD_EXCL
    ensures !Has(r, ALT_FD_EXCL)
    ensures Has(r, ALT_FD_DEV) == Has(flags, ALT_FD_DEV)
  {
    flags & !ALT_FD_EXCL
  }

  /** What F_GETFL shows: never the lock and device bits, and all the others. */
  function UserFlags(flags: bv32): (r: bv32)
    ensures !Has(r, ALT_FD_EXCL) && !Has(r, ALT_FD_DEV)
    ensures r | (flags & ALT_FD_FLAGS_MASK) == flags
  {
    flags & !ALT_FD_FLAGS_MASK
  }

  function WithUserFlags(flags: bv32, arg: bv32): (r: bv32)
    ensures r & !ALT_FCNTL_FLAGS_MASK == flags & !ALT_FCNTL_FLAGS_MASK
    ensures r & ALT_FCNTL_FLAGS_MASK == arg & ALT_FCNTL_FLAGS_MASK
    ensures Has(r, ALT_FD_EXCL) == Has(flags, ALT_FD_EXCL)
    ensures Has(r, ALT_FD_DEV) == Has(flags, ALT_FD_DEV)
  {
    (flags & !ALT_FCNTL_FLAGS_MASK) | (arg & ALT_FCNTL_FLAGS_MASK)
  }

  lemma NoBits()
    ensures !Has(0, ALT_FD_EXCL) && !Has(0, ALT_FD_DEV)
  {
  }

  lemma LockThenUnlock(flags: bv32)
    requires !Has(flags, ALT_FD_EXCL)
    ensures WithoutLock(WithLock(flags)) == flags
  {
  }

  predicate SlotOk(f: Fd) {
    && (Has(f.flags, ALT_FD_EXCL) ==> Has(f.flags, ALT_FD_DEV))
    && (Has(f.flags, ALT_FD_DEV) ==> f.dev.Some? && f.dev.value.kind.Device?)
  }

  ghost predicate Inv(p: Pool) {
    && |p.table| == ALT_MAX_FD
    && (p.maxFd == -1 || 3 <= p.maxFd < ALT_MAX_FD)
    && (forall i :: 0 <= i < ALT_MAX_FD ==> SlotOk(p.table[i]))
    && (forall i :: 0 <= i < 3 ==> p.table[i].dev.Some?)
    && (forall i :: 3 <= i < ALT_MAX_FD && p.maxFd < i ==> p.table[i].dev.None?)
    && (p.maxFd == -1 ==> forall i :: 0 <= i < ALT_MAX_FD ==> !Has(p.table[i].flags, ALT_FD_DEV))
  }

  // ------------------------------------------------------------ operations

  /** The first free index at or after `i`, or the table's length. */
  function LowestFree(table: seq<Fd>, i: nat): (r: nat)
    requires i <= |table|
    ensures i <= r <= |table|
    ensures forall j :: i <= j < r ==> table[j].dev.Some?
    ensures r < |table| ==> table[r].dev.None?
    decreases |table| - i
  {
    if i == |table| || table[i].dev.None? then i else LowestFree(table, i + 1)
  }

  /** Some descriptor other than `self`, below `bound`, holds `dev` exclusively. */
  predicate LockedBelow(table: seq<Fd>, dev: Option<Dev>, self: int, bound: int)
    requires bound <= |table|
  {
    exists i :: 0 <= i < bound && i != self && table[i].dev == dev && Has(table[i].flags, ALT_FD_EXCL)
  }

  /** Some descriptor other than `self`, below `bound`, refers to `dev`. */
  predicate SharedBelow(table: seq<Fd>, dev: Option<Dev>, self: int, bound: int)
    requires bound <= |table|
  {
    exists i :: 0 <= i < bound && i != self && table[i].dev == dev
  }

  /** alt_get_fd. */
  function Allocate(p: Pool, dev: Dev): (Pool, int) {
    var i := LowestFree(p.table, 0);
    if i == |p.table| then (p, -EMFILE)
    else (Pool(p.table[i := p.table[i].(dev := Some(dev))], if i > p.maxFd then i else p.maxFd), i)
  }

  /** alt_release_fd. */
  function Release(p: Pool, fd: int): Pool
    requires fd < |p.table|
  {
    if fd > 2 then p.(table := p.table[fd := p.table[fd].(dev := None, flags := 0)]) else p
  }

  function Answer(f: Fd, reply: Option<Reply>): (Fd, int) {
    match reply
    case None => (f, 0)
    case Some(r) => (f.(priv := r.priv), r.status)
  }

  /** ALT_OPEN, given what the name lookup found and what the driver's open
      callback, if there is one, would do. The result is a status, -errno. */
  function Open(p: Pool, found: Option<Dev>, flags: bv32, reply: Option<Reply>): (Pool, int)
    requires Inv(p)
  {
    match found
    case None => (p, -ENODEV)
    case Some(dev) =>
      var (q, fd) := Allocate(p, dev);
      if fd < 0 then (q, fd)
      else
        var slot := q.table[fd].(flags := OpenFlags(dev, flags));
        var q := q.(table := q.table[fd := slot]);
        if dev.kind.Device? && LockedBelow(q.table, Some(dev), fd, q.maxFd + 1) then (Release(q, fd), -EACCES)
        else
          var (slot', status) := Answer(slot, reply);
          var q := q.(table := q.table[fd := slot']);
          if status < 0 then (Release(q, fd), status) else (q, fd)
  }

  /** alt_fd_lock; the scan stops one short of the high-water mark. */
  function Lock(p: Pool, fd: nat): (Pool, int)
    requires fd < |p.table| && p.maxFd <= |p.table|
  {
    if SharedBelow(p.table, p.table[fd].dev, fd, p.maxFd) then (p, -EACCES)
    else (p.(table := p.table[fd := p.table[fd].(flags := WithLock(p.table[fd].flags))]), 0)
  }

  /** alt_fd_unlock. */
  function Unlock(p: Pool, fd: nat): Pool
    requires fd < |p.table|
  {
    p.(table := p.table[fd := p.table[fd].(flags := WithoutLock(p.table[fd].flags))])
  }

  /** F_SETFL. */
  function SetFlags(p: Pool, fd: nat, arg: bv32): Pool
    requires fd < |p.table|
  {
    p.(table := p.table[fd := p.table[fd].(flags := WithUserFlags(p.table[fd].flags, arg))])
  }

  /** alt_open_fd: open the name and move the new descriptor onto `target`. */
  function Redirect(p: Pool, target: nat, found: Option<Dev>, flags: bv32, reply: Option<Reply>): Pool
    requires Inv(p) && target < 3
  {
    var (q, fd) := Open(p, found, flags, reply);
    if 0 <= fd < |q.table| && target < |q.table| then Release(q.(table := q.table[target := q.table[fd]]), fd) else q
  }

  datatype Command = F_GETFL | F_SETFL(arg: bv32) | OtherCommand

  datatype Request = TIOCEXCL | TIOCNXCL | OtherRequest

  datatype Op =
    | OpenOp(found: Option<Dev>, flags: bv32, reply: Option<Reply>)
    | CloseOp(fd: int)
    | IoctlOp(fd: int, request: Request)
    | FcntlOp(fd: int, arg: bv32)
    | RedirectOp(target: nat, found: Option<Dev>, flags: bv32, reply: Option<Reply>)

  /** A negative descriptor is refused by the calls themselves; any other must be
      open, except for fcntl, which looks at the flag word only. */
  predicate OpenOrNegative(p: Pool, fd: int) {
    fd < |p.table| && (fd >= 0 ==> p.table[fd].dev.Some?)
  }

  predicate Legal(p: Pool, op: Op) {
    match op
    case OpenOp(_, _, _) => true
    case CloseOp(fd) => OpenOrNegative(p, fd)
    case IoctlOp(fd, _) => OpenOrNegative(p, fd)
    case FcntlOp(fd, _) => fd < |p.table|
    case RedirectOp(target, _, _, _) => target < 3
  }

  /** ALT_IOCTL: the two lock requests are handled centrally, for devices only. */
  function Ioctl(p: Pool, fd: nat, request: Request): Pool
    requires fd < |p.table| && p.maxFd <= |p.table|
  {
    if !Has(p.table[fd].flags, ALT_FD_DEV) then p
    else
      match request
      case TIOCEXCL => Lock(p, fd).0
      case TIOCNXCL => Unlock(p, fd)
      case OtherRequest => p
  }

  // ------------------------------------------------------------ open

  /** Same devices and flag words; private words may differ. */
  ghost predicate SameDescriptors(s: seq<Fd>, t: seq<Fd>) {
    |s| == |t| && forall i :: 0 <= i < |s| ==> s[i].dev == t[i].dev && s[i].flags == t[i].flags
  }

  ghost predicate Locked(table: seq<Fd>, dev: Dev) {
    exists i :: 0 <= i < |table| && table[i].dev == Some(dev) && Has(table[i].flags, ALT_FD_EXCL)
  }

  /** When open succeeds, and with what; stated without the scan bounds of the code. */
  ghost predicate OpenSucceeds(p: Pool, found: Option<Dev>, reply: Option<Reply>) {
    && found.Some?
    && LowestFree(p.table, 0) < |p.table|
    && !(found.value.kind.Device? && Locked(p.table, found.value))
    && (reply.Some? ==> reply.value.status >= 0)
  }

  /** The high-water mark after an open that found a device, successful or not. */
  function Raised(p: Pool, found: Option<Dev>): int {
    var i := LowestFree(p.table, 0);
    if found.Some? && p.maxFd < i < |p.table| then i else p.maxFd
  }

  /** The lowest free entry has no flags left over. */
  predicate Clean(table: seq<Fd>) {
    var i := LowestFree(table, 0);
    i < |table| ==> table[i].flags == 0
  }

  /** The table after its lowest free entry was claimed and given back. */
  function Returned(table: seq<Fd>): (r: seq<Fd>)
    ensures |r| == |table|
  {
    var i := LowestFree(table, 0);
    if i < |table| then table[i := table[i].(flags := 0)] else table
  }

  lemma ReturnedIsSame(table: seq<Fd>, t: seq<Fd>)
    requires SameDescriptors(t, Returned(table))
    ensures SameDescriptors(t, table) <==> Clean(table)
  {
    hide LowestFree;
  }

  lemma OpenSpec(p: Pool, found: Option<Dev>, flags: bv32, reply: Option<Reply>)
    requires Inv(p)
    ensures var (q, rc) := Open(p, found, flags, reply);
            && Inv(q)
            && (rc >= 0 <==> OpenSucceeds(p, found, reply))
            && (rc < 0 ==> SameDescriptors(q.table, if found.Some? then Returned(p.table) else p.table))
            && (rc < 0 ==> (SameDescriptors(q.table, p.table) <==> found.None? || Clean(p.table)))
            && (rc >= 0 ==>
                  && rc == LowestFree(p.table, 0) < |p.table|
                  && q.table[rc].dev == found && q.table[rc].flags == OpenFlags(found.value, flags)
                  && q.table == p.table[rc := q.table[rc]]
                  && q.table[rc].priv == if reply.Some? then reply.value.priv else p.table[rc].priv)
            && q.maxFd == Raised(p, found)
  {
    var (q, rc) := Open(p, found, flags, reply);
    OpenCases(p, found, flags, reply);
    OpenKeepsInv(p, found, flags, reply);
    if rc < 0 && found.Some? {
      ReturnedIsSame(p.table, q.table);
    }
    hide Open, Inv, OpenSucceeds, Returned, Clean, LowestFree, OpenFlags;
  }

  lemma OpenCases(p: Pool, found: Option<Dev>, flags: bv32, reply: Option<Reply>)
    requires Inv(p)
    ensures var (q, rc) := Open(p, found, flags, reply);
            && (rc >= 0 <==> OpenSucceeds(p, found, reply))
            && (rc < 0 ==> SameDescriptors(q.table, if found.Some? then Returned(p.table) else p.table))
            && (rc >= 0 ==>
                  && rc == LowestFree(p.table, 0) < |p.table|
                  && q.table[rc].dev == found && q.table[rc].flags == OpenFlags(found.value, flags)
                  && q.table == p.table[rc := q.table[rc]]
                  && q.table[rc].priv == if reply.Some? then reply.value.priv else p.table[rc].priv)
            && q.maxFd == Raised(p, found)
  {
    NoBits();
    hide Has, OpenFlags, WithLock, WithoutLock, WithUserFlags;
    hide LowestFree, LockedBelow, Locked;
    if found.Some? {
      var (q, fd) := Allocate(p, found.value);
      if fd >= 0 {
        var slot := q.table[fd].(flags := OpenFlags(found.value, flags));
        q := q.(table := q.table[fd := slot]);
        BoundedScanIsWhole(p, q, fd, found.value);
      }
    }
  }

  lemma OpenKeepsInv(p: Pool, found: Option<Dev>, flags: bv32, reply: Option<Reply>)
    requires Inv(p)
    ensures Inv(Open(p, found, flags, reply).0)
  {
    NoBits();
    hide Has, OpenFlags, WithLock, WithoutLock, WithUserFlags, LowestFree, LockedBelow;
  }

  /** The scan up to the high-water mark sees every lock in the table. */
  lemma BoundedScanIsWhole(p: Pool, q: Pool, fd: nat, dev: Dev)
    requires Inv(p) && fd < ALT_MAX_FD && p.table[fd].dev.None?
    requires |q.table| == |p.table| && q.table == p.table[fd := q.table[fd]]
    requires q.maxFd == if fd > p.maxFd then fd else p.maxFd
    ensures LockedBelow(q.table, Some(dev), fd, q.maxFd + 1) <==> Locked(p.table, dev)
  {
    if Locked(p.table, dev) {
      var i :| 0 <= i < |p.table| && p.table[i].dev == Some(dev) && Has(p.table[i].flags, ALT_FD_EXCL);
      assert i != fd && q.table[i] == p.table[i] && i <= q.maxFd;
    }
    if LockedBelow(q.table, Some(dev), fd, q.maxFd + 1) {
      var i :| 0 <= i <= q.maxFd && i != fd && q.table[i].dev == Some(dev) && Has(q.table[i].flags, ALT_FD_EXCL);
      assert p.table[i] == q.table[i];
    }
  }

  // ------------------------------------------------------------ the other calls

  lemma ReleaseKeepsInv(p: Pool, fd: int)
    requires Inv(p) && fd < |p.table|
    ensures Inv(Release(p, fd))
  {
    NoBits();
    hide Has, OpenFlags, WithLock, WithoutLock, WithUserFlags;
  }

  lemma CloseUndoesOpen(p: Pool, found: Option<Dev>, flags: bv32, reply: Option<Reply>)
    requires Inv(p) && OpenSucceeds(p, found, reply)
    ensures var (q, fd) := Open(p, found, flags, reply);
            && 0 <= fd < |q.table|
            && (SameDescriptors(Release(q, fd).table, p.table) <==> Clean(p.table))
  {
    OpenSpec(p, found, flags, reply);
    var (q, fd) := Open(p, found, flags, reply);
    hide Open;
    assert SameDescriptors(Release(q, fd).table, Returned(p.table));
    ReturnedIsSame(p.table, Release(q, fd).table);
    hide Clean, Returned, Release;
  }

  /** A granted lock excludes every other descriptor of the device, except that
      the scan never looks at the descriptor on the high-water mark itself. */
  lemma LockGrant(p: Pool, fd: nat)
    requires Inv(p) && fd < |p.table| && Has(p.table[fd].flags, ALT_FD_DEV)
    ensures 3 <= p.maxFd < |p.table|
    ensures var (q, rc) := Lock(p, fd);
            var dev := p.table[fd].dev;
            && Inv(q)
            && (rc == 0 ==>
                  (SharedBelow(p.table, dev, fd, |p.table|) <==> fd != p.maxFd && p.table[p.maxFd].dev == dev))
            && (rc != 0 ==> q == p && SharedBelow(p.table, dev, fd, |p.table|))
            && (rc == 0 ==> Has(q.table[fd].flags, ALT_FD_EXCL))
  {
    NoBits();
    hide Has, OpenFlags, WithLock, WithoutLock, WithUserFlags;
    var dev := p.table[fd].dev;
    if SharedBelow(p.table, dev, fd, |p.table|) && !SharedBelow(p.table, dev, fd, p.maxFd) {
      var i :| 0 <= i < |p.table| && i != fd && p.table[i].dev == dev;
      assert i == p.maxFd;
    }
  }

  lemma UnlockUndoesLock(p: Pool, fd: nat)
    requires Inv(p) && fd < |p.table| && !Has(p.table[fd].flags, ALT_FD_EXCL)
    requires Lock(p, fd).1 == 0
    ensures Unlock(Lock(p, fd).0, fd) == p
  {
    LockThenUnlock(p.table[fd].flags);
    hide Has, OpenFlags, WithLock, WithoutLock, WithUserFlags;
    assert Unlock(Lock(p, fd).0, fd).table == p.table;
  }

  /** Redirection touches one descriptor and leaks none: the one it opened is free again. */
  lemma RedirectSpec(p: Pool, target: nat, found: Option<Dev>, flags: bv32, reply: Option<Reply>)
    requires Inv(p) && target < 3
    ensures var q := Redirect(p, target, found, flags, reply);
            && Inv(q)
            && (!OpenSucceeds(p, found, reply) ==>
                  SameDescriptors(q.table, if found.Some? then Returned(p.table) else p.table))
            && (OpenSucceeds(p, found, reply) ==>
                  var slot := Fd(found, 0, OpenFlags(found.value, flags));
                  && SameDescriptors(q.table, Returned(p.table)[target := slot])
                  && q.table[target].priv ==
                       if reply.Some? then reply.value.priv else p.table[LowestFree(p.table, 0)].priv)
  {
    OpenSpec(p, found, flags, reply);
    var (q, fd) := Open(p, found, flags, reply);
    hide Open;
    NoBits();
    hide Has, OpenFlags, WithLock, WithoutLock, WithUserFlags;
    if fd >= 0 {
      var moved := q.(table := q.table[target := q.table[fd]]);
      assert Inv(moved);
      ReleaseKeepsInv(moved, fd);
    }
  }

  lemma IoctlKeepsInv(p: Pool, fd: nat, request: Request)
    requires Inv(p) && fd < |p.table|
    ensures Inv(Ioctl(p, fd, request))
  {
    NoBits();
    hide Has, OpenFlags, WithLock, WithoutLock, WithUserFlags;
  }

  /** A granted lock sets the lock bit and a refused one nothing, after unlocking
      the bit is clear, and no other entry or bit ever changes. */
  ghost predicate IoctlEffect(p: Pool, q: Pool, fd: nat, request: Request)
    requires fd < |p.table| == |q.table| && p.maxFd <= |p.table|
  {
    var f, g := p.table[fd], q.table[fd];
    && q.maxFd == p.maxFd && q.table == p.table[fd := g] && g == f.(flags := g.flags)
    && g.flags & !ALT_FD_EXCL == f.flags & !ALT_FD_EXCL
    && match request
       case TIOCEXCL =>
         if Has(f.flags, ALT_FD_DEV) && !SharedBelow(p.table, f.dev, fd, p.maxFd) then Has(g.flags, ALT_FD_EXCL)
         else q == p
       case TIOCNXCL => !Has(g.flags, ALT_FD_EXCL)
       case OtherRequest => q == p
  }

  lemma IoctlSpec(p: Pool, fd: nat, request: Request)
    requires Inv(p) && Legal(p, IoctlOp(fd, request))
    ensures Apply(p, IoctlOp(fd, request)) == Ioctl(p, fd, request)
    ensures IoctlEffect(p, Ioctl(p, fd, request), fd, request)
  {
    assert SlotOk(p.table[fd]);
    hide Inv, Has, SharedBelow;
    if Has(p.table[fd].flags, ALT_FD_DEV) {
      LockEffect(p, fd);
      UnlockEffect(p, fd);
    }
    hide Lock, Unlock;
    assert p.table[fd := p.table[fd]] == p.table;
  }

  lemma LockEffect(p: Pool, fd: nat)
    requires fd < |p.table| && p.maxFd <= |p.table| && Has(p.table[fd].flags, ALT_FD_DEV)
    ensures IoctlEffect(p, Lock(p, fd).0, fd, TIOCEXCL)
  {
    hide Has, WithLock, SharedBelow;
    assert p.table[fd := p.table[fd]] == p.table;
  }

  lemma UnlockEffect(p: Pool, fd: nat)
    requires fd < |p.table| && p.maxFd <= |p.table|
    ensures IoctlEffect(p, Unlock(p, fd), fd, TIOCNXCL)
  {
    hide Has, WithoutLock, SharedBelow;
  }

  lemma {:induction false} SameFree(s: seq<Fd>, t: seq<Fd>, i: nat)
    requires |s| == |t| && i <= |s| && forall j :: 0 <= j < |s| ==> s[j].dev == t[j].dev
    ensures LowestFree(s, i) == LowestFree(t, i)
    decreases |s| - i
  {
    if i < |s| && s[i].dev.Some? {
      SameFree(s, t, i + 1);
    }
  }

  /** Once its only lock is given up, the device can be opened again under the
      conditions of any other open. */
  lemma UnlockedOpens(p: Pool, fd: nat, dev: Dev, flags: bv32, reply: Option<Reply>)
    requires Inv(p) && Legal(p, IoctlOp(fd, TIOCNXCL)) && Holds(p, fd, dev)
    requires forall i :: 0 <= i < |p.table| && i != fd ==> !Holds(p, i, dev)
    ensures var q := Apply(p, IoctlOp(fd, TIOCNXCL));
            Open(q, Some(dev), flags, reply).1 >= 0
            <==> LowestFree(p.table, 0) < |p.table| && (reply.Some? ==> reply.value.status >= 0)
  {
    IoctlSpec(p, fd, TIOCNXCL);
    hide Ioctl;
    var q := Apply(p, IoctlOp(fd, TIOCNXCL));
    OpenSpec(q, Some(dev), flags, reply);
    SameFree(p.table, q.table, 0);
    hide Apply, Inv, Open, LowestFree, Has;
    if Locked(q.table, dev) {
      var i :| 0 <= i < |q.table| && q.table[i].dev == Some(dev) && Has(q.table[i].flags, ALT_FD_EXCL);
      assert i != fd && Holds(p, i, dev);
    }
  }

  /** F_SETFL cannot forge or drop a lock, on any descriptor, open or not. */
  lemma FcntlKeepsLocks(p: Pool, fd: nat, arg: bv32)
    requires Inv(p) && fd < |p.table|
    ensures var q := SetFlags(p, fd, arg);
            && Inv(q)
            && forall i :: 0 <= i < |p.table| ==>
                 && q.table[i].dev == p.table[i].dev
                 && (Has(q.table[i].flags, ALT_FD_EXCL) <==> Has(p.table[i].flags, ALT_FD_EXCL))
                 && (Has(q.table[i].flags, ALT_FD_DEV) <==> Has(p.table[i].flags, ALT_FD_DEV))
  {
    NoBits();
    hide Has, OpenFlags, WithLock, WithoutLock, WithUserFlags;
  }

  // ------------------------------------------------------------ runs

  function Apply(p: Pool, op: Op): (q: Pool)
    requires Inv(p) && Legal(p, op)
    ensures Inv(q)
  {
    match op
    case OpenOp(found, flags, reply) => OpenSpec(p, found, flags, reply); Open(p, found, flags, reply).0
    case CloseOp(fd) => ReleaseKeepsInv(p, fd); Release(p, fd)
    case IoctlOp(fd, request) => if fd < 0 then p else (IoctlKeepsInv(p, fd, request); Ioctl(p, fd, request))
    case FcntlOp(fd, arg) => if fd < 0 then p else (FcntlKeepsLocks(p, fd, arg); SetFlags(p, fd, arg))
    case RedirectOp(target, found, flags, reply) =>
      RedirectSpec(p, target, found, flags, reply); Redirect(p, target, found, flags, reply)
  }

  predicate AllLegal(p: Pool, ops: seq<Op>)
    requires Inv(p)
    decreases ops
  {
    ops == [] || (Legal(p, ops[0]) && AllLegal(Apply(p, ops[0]), ops[1..]))
  }

  function Run(p: Pool, ops: seq<Op>): (q: Pool)
    requires Inv(p) && AllLegal(p, ops)
    ensures Inv(q)
    decreases ops
  {
    if ops == [] then p else Run(Apply(p, ops[0]), ops[1..])
  }

  /** Nothing above the standard descriptors changes, but for flags left on a free one. */
  ghost predicate SameAbove(p: Pool, q: Pool) {
    && |p.table| == |q.table|
    && forall i :: 3 <= i < |p.table| ==>
         && q.table[i].dev == p.table[i].dev
         && (p.table[i].dev.Some? || Tidy(p) ==> q.table[i].flags == p.table[i].flags)
  }

  lemma RedirectKeepsAbove(p: Pool, op: Op)
    requires Inv(p) && op.RedirectOp? && op.target < 3
    ensures SameAbove(p, Apply(p, op)) && (Tidy(p) ==> Tidy(Apply(p, op)))
  {
    RedirectSpec(p, op.target, op.found, op.flags, op.reply);
    if Tidy(p) {
      StepKeepsTidy(p, op);
    }
    assert LowestFree(p.table, 0) >= 3;
    hide Redirect, OpenSucceeds, LowestFree;
  }

  /** Three redirections in a row. */
  lemma RedirectsKeepAbove(p: Pool, a: Op, b: Op, c: Op)
    requires Inv(p) && a.RedirectOp? && b.RedirectOp? && c.RedirectOp?
    requires a.target < 3 && b.target < 3 && c.target < 3
    ensures AllLegal(p, [a, b, c])
    ensures Run(p, [a, b, c]) == Apply(Apply(Apply(p, a), b), c) && SameAbove(p, Run(p, [a, b, c]))
  {
    var q := Apply(p, a);
    var r := Apply(q, b);
    RedirectKeepsAbove(p, a);
    RedirectKeepsAbove(q, b);
    RedirectKeepsAbove(r, c);
    ThreeSteps(p, a, b, c);
    hide Apply, Inv, Tidy, Run, AllLegal;
    SameAboveAgain(p, q, r);
    SameAboveAgain(p, r, Apply(r, c));
    hide SameAbove;
  }

  lemma SameAboveAgain(p: Pool, q: Pool, r: Pool)
    requires SameAbove(p, q) && SameAbove(q, r) && (Tidy(p) ==> Tidy(q))
    ensures SameAbove(p, r)
  {
    hide Tidy;
  }

  lemma ThreeSteps(p: Pool, a: Op, b: Op, c: Op)
    requires Inv(p) && Legal(p, a) && Legal(Apply(p, a), b) && Legal(Apply(Apply(p, a), b), c)
    ensures AllLegal(p, [a, b, c]) && Run(p, [a, b, c]) == Apply(Apply(Apply(p, a), b), c)
  {
    hide Apply, Inv, Legal, AllLegal, Run;
    TwoSteps(Apply(p, a), b, c);
    FirstStep(p, a, [b, c]);
    assert [a] + [b, c] == [a, b, c];
  }

  lemma TwoSteps(p: Pool, a: Op, b: Op)
    requires Inv(p) && Legal(p, a) && Legal(Apply(p, a), b)
    ensures AllLegal(p, [a, b]) && Run(p, [a, b]) == Apply(Apply(p, a), b)
  {
    hide Apply, Inv, Legal, AllLegal, Run;
    OneStep(Apply(p, a), b);
    FirstStep(p, a, [b]);
    assert [a] + [b] == [a, b];
  }

  lemma OneStep(p: Pool, op: Op)
    requires Inv(p) && Legal(p, op)
    ensures AllLegal(p, [op]) && Run(p, [op]) == Apply(p, op)
  {
    var q := Apply(p, op);
    hide Apply, Inv, Legal;
    assert AllLegal(q, []) && Run(q, []) == q;
    FirstStep(p, op, []);
    hide AllLegal, Run;
    assert [op] + [] == [op];
  }

  lemma FirstStep(p: Pool, op: Op, rest: seq<Op>)
    requires Inv(p) && Legal(p, op) && AllLegal(Apply(p, op), rest)
    ensures AllLegal(p, [op] + rest) && Run(p, [op] + rest) == Run(Apply(p, op), rest)
  {
    hide Apply, Inv, Legal;
    assert ([op] + rest)[1..] == rest;
  }

  /** No free descriptor has flags. */
  ghost predicate Tidy(p: Pool) {
    forall i :: 0 <= i < |p.table| && p.table[i].dev.None? ==> p.table[i].flags == 0
  }

  /** F_SETFL on a descriptor that is not open; nothing in the call prevents it. */
  predicate LeavesFlags(p: Pool, op: Op)
    requires Legal(p, op)
  {
    op.FcntlOp? && op.fd >= 0 && p.table[op.fd].dev.None?
  }

  ghost predicate NoneLeavesFlags(p: Pool, ops: seq<Op>)
    requires Inv(p) && AllLegal(p, ops)
    decreases ops
  {
    ops == [] || (!LeavesFlags(p, ops[0]) && NoneLeavesFlags(Apply(p, ops[0]), ops[1..]))
  }

  lemma StepKeepsTidy(p: Pool, op: Op)
    requires Inv(p) && Legal(p, op) && Tidy(p) && !LeavesFlags(p, op)
    ensures Tidy(Apply(p, op))
  {
    hide Has, OpenFlags, WithLock, WithoutLock, WithUserFlags, LowestFree;
    match op
    case OpenOp(found, flags, reply) =>
      OpenSpec(p, found, flags, reply);
      hide Open;
    case CloseOp(fd) =>
    case IoctlOp(fd, request) =>
    case FcntlOp(fd, arg) =>
    case RedirectOp(target, found, flags, reply) =>
      RedirectSpec(p, target, found, flags, reply);
      hide Open, Redirect;
  }

  /** As long as flags are only set on open descriptors, every failed open and
      every pair of open and close restores the table exactly. */
  lemma {:induction false} RunKeepsTidy(p: Pool, ops: seq<Op>)
    requires Inv(p) && AllLegal(p, ops) && Tidy(p) && NoneLeavesFlags(p, ops)
    ensures Tidy(Run(p, ops)) && Clean(Run(p, ops).table)
    decreases ops
  {
    if ops != [] {
      StepKeepsTidy(p, ops[0]);
      RunKeepsTidy(Apply(p, ops[0]), ops[1..]);
    }
    hide Apply, LowestFree;
  }

  /** Otherwise not: flags set on the free descriptor 3 are gone after an open
      that failed. */
  lemma LeftFlagsAreLost(dev: Dev)
    ensures Inv(Initial()) && Tidy(Initial())
    ensures var left, refused := FcntlOp(3, ALT_FCNTL_FLAGS_MASK), OpenOp(Some(dev), 0, Some(Reply(-1, 0)));
            && AllLegal(Initial(), [left]) && AllLegal(Initial(), [left, refused])
            && var p := Run(Initial(), [left]);
               var q := Run(Initial(), [left, refused]);
               p.table[3].flags == ALT_FCNTL_FLAGS_MASK && q.table[3].flags == 0
  {
    InitialInv();
    var left, refused := FcntlOp(3, ALT_FCNTL_FLAGS_MASK), OpenOp(Some(dev), 0, Some(Reply(-1, 0)));
    var p0 := Initial();
    assert WithUserFlags(0, ALT_FCNTL_FLAGS_MASK) == ALT_FCNTL_FLAGS_MASK;
    hide Has, OpenFlags, WithLock, WithoutLock, WithUserFlags;
    var p1 := Apply(p0, left);
    OpenSpec(p1, Some(dev), 0, Some(Reply(-1, 0)));
    assert LowestFree(p1.table, 0) == 3;
    hide Open, LowestFree;
    var p2 := Apply(p1, refused);
    OneStep(p0, left);
    TwoSteps(p0, left, refused);
    hide AllLegal, Run, Inv;
  }

  lemma InitialInv()
    ensures Inv(Initial())
  {
    NoBits();
    hide Has, OpenFlags, WithLock, WithoutLock, WithUserFlags;
  }

  ghost predicate Holds(p: Pool, h: nat, dev: Dev) {
    h < |p.table| && p.table[h].dev == Some(dev) && Has(p.table[h].flags, ALT_FD_EXCL)
  }

  /** The calls that end the lock held through `h`; closing 0, 1 or 2 does not. */
  predicate EndsLock(op: Op, h: nat) {
    match op
    case OpenOp(_, _, _) => false
    case CloseOp(fd) => fd == h && h > 2
    case IoctlOp(fd, request) => fd == h && request == TIOCNXCL
    case FcntlOp(_, _) => false
    case RedirectOp(target, _, _, _) => target == h
  }

  predicate OpensDev(p: Pool, op: Op, dev: Dev)
    requires Inv(p) && Legal(p, op)
  {
    match op
    case OpenOp(found, flags, reply) => found == Some(dev) && Open(p, found, flags, reply).1 >= 0
    case RedirectOp(_, found, flags, reply) => found == Some(dev) && Open(p, found, flags, reply).1 >= 0
    case _ => false
  }

  ghost predicate NoneOpens(p: Pool, ops: seq<Op>, dev: Dev)
    requires Inv(p) && AllLegal(p, ops)
    decreases ops
  {
    ops == [] || (!OpensDev(p, ops[0], dev) && NoneOpens(Apply(p, ops[0]), ops[1..], dev))
  }

  /** No descriptor of `dev` appears that was not there. */
  ghost predicate NoNewSharer(p: Pool, q: Pool, dev: Dev) {
    && |p.table| == |q.table|
    && forall i :: 0 <= i < |p.table| && q.table[i].dev == Some(dev) ==> p.table[i].dev == Some(dev)
  }

  /** What each call leaves of a lock on `dev` held through `h`. */
  ghost predicate KeepsLock(p: Pool, q: Pool, h: nat, dev: Dev) {
    Holds(q, h, dev) && NoNewSharer(p, q, dev)
  }

  lemma OpenKeepsLock(p: Pool, found: Option<Dev>, flags: bv32, reply: Option<Reply>, h: nat, dev: Dev)
    requires Inv(p) && Holds(p, h, dev)
    ensures var (q, rc) := Open(p, found, flags, reply);
            KeepsLock(p, q, h, dev) && !(found == Some(dev) && rc >= 0)
  {
    LockedIsRefused(p, found, reply, h, dev);
    OpenSpec(p, found, flags, reply);
    hide Open, OpenSucceeds, Inv, Has, OpenFlags, Locked, LowestFree, Clean;
  }

  lemma LockedIsRefused(p: Pool, found: Option<Dev>, reply: Option<Reply>, h: nat, dev: Dev)
    requires Inv(p) && Holds(p, h, dev)
    ensures OpenSucceeds(p, found, reply) ==> found != Some(dev)
    ensures var i := LowestFree(p.table, 0); i < |p.table| ==> i != h && p.table[i].dev.None?
  {
    assert Locked(p.table, dev) && dev.kind.Device?;
    hide Has;
  }

  lemma RedirectKeepsLock(p: Pool, op: Op, h: nat, dev: Dev)
    requires Inv(p) && op.RedirectOp? && op.target < 3 && op.target != h && Holds(p, h, dev)
    ensures KeepsLock(p, Redirect(p, op.target, op.found, op.flags, op.reply), h, dev)
  {
    LockedIsRefused(p, op.found, op.reply, h, dev);
    RedirectSpec(p, op.target, op.found, op.flags, op.reply);
    hide Redirect, OpenSucceeds, Inv, Has, OpenFlags, Locked, LowestFree;
  }

  lemma LockSurvivesStep(p: Pool, op: Op, h: nat, dev: Dev)
    requires Inv(p) && Legal(p, op) && Holds(p, h, dev) && !EndsLock(op, h)
    ensures Holds(Apply(p, op), h, dev) && !OpensDev(p, op, dev) && NoNewSharer(p, Apply(p, op), dev)
  {
    NoBits();
    hide Has, OpenFlags, WithLock, WithoutLock, WithUserFlags, Open, Redirect;
    match op
    case OpenOp(found, flags, reply) =>
      OpenKeepsLock(p, found, flags, reply, h, dev);
      hide Inv;
    case CloseOp(fd) =>
    case IoctlOp(fd, request) =>
    case FcntlOp(fd, arg) =>
      if fd >= 0 {
        FcntlKeepsLocks(p, fd, arg);
      }
    case RedirectOp(target, found, flags, reply) =>
      OpenKeepsLock(p, found, flags, reply, h, dev);
      RedirectKeepsLock(p, op, h, dev);
      hide Inv;
  }

  /** Over any run of calls none of which ends it, a lock stays in force: every
      open of the device is refused and no new descriptor ever refers to it. */
  lemma {:induction false} LockExcludesOpens(p: Pool, ops: seq<Op>, h: nat, dev: Dev)
    requires Inv(p) && AllLegal(p, ops) && Holds(p, h, dev)
    requires forall k :: 0 <= k < |ops| ==> !EndsLock(ops[k], h)
    ensures Holds(Run(p, ops), h, dev) && NoneOpens(p, ops, dev) && NoNewSharer(p, Run(p, ops), dev)
    decreases ops
  {
    if ops != [] {
      LockSurvivesStep(p, ops[0], h, dev);
      LockExcludesOpens(Apply(p, ops[0]), ops[1..], h, dev);
    }
  }

  /** The scan bound matters: two opens of one device and a lock on the first
      give an "exclusive" descriptor 3 beside an open descriptor 4. */
  lemma LockMissesTopDescriptor(dev: Dev)
    requires dev.kind.Device? && dev != NULL_DEVICE
    ensures Inv(Initial())
    ensures var ops := [OpenOp(Some(dev), 0, None), OpenOp(Some(dev), 0, None), IoctlOp(3, TIOCEXCL)];
            && AllLegal(Initial(), ops)
            && var q := Run(Initial(), ops);
               Holds(q, 3, dev) && q.table[4].dev == Some(dev)
  {
    InitialInv();
    var op := OpenOp(Some(dev), 0, None);
    var p0 := Initial();
    OpenSpec(p0, Some(dev), 0, None);
    hide Has, OpenFlags, WithLock, WithoutLock, WithUserFlags, Open, LowestFree;
    NoBits();
    assert LowestFree(p0.table, 0) == 3;
    var p1 := Apply(p0, op);
    assert p1.maxFd == 3 && p1.table[3].dev == Some(dev);
    OpenSpec(p1, Some(dev), 0, None);
    assert p1.table[4].dev.None? && forall j :: 0 <= j < 4 ==> p1.table[j].dev.Some?;
    assert LowestFree(p1.table, 0) == 4;
    var p2 := Apply(p1, op);
    assert p2.table[3].dev == p2.table[4].dev == Some(dev) && p2.maxFd == 4;
    var lock := IoctlOp(3, TIOCEXCL);
    ThreeSteps(p0, op, op, lock);
    hide AllLegal, Run, Inv;
  }
}

module FdPool {
  import opened Words
  import opened FdModel

  class FileTable {
    const fdList: array<Fd>
    var maxFd: int
    var errno: int

    ghost function State(): Pool
      reads this, fdList
    {
      Pool(fdList[..], maxFd)
    }

    constructor ()
      ensures State() == Initial() && Inv(State()) && fresh(fdList)
    {
      fdList := new Fd[ALT_MAX_FD](i => if i < 3 then STD_SLOT else FREE_SLOT);
      maxFd := -1;
      errno := 0;
      new;
      InitialInv();
      assert fdList[..] == Initial().table;
    }

    /** alt_get_fd. */
    method GetFd(dev: Dev) returns (rc: int)
      requires Inv(State())
      modifies `maxFd, fdList
      ensures (State(), rc) == Allocate(old(State()), dev)
      ensures rc == -EMFILE || 0 <= rc <= maxFd
    {
      var i := 0;
      while i < ALT_MAX_FD
        invariant 0 <= i <= ALT_MAX_FD && State() == old(State())
        invariant LowestFree(fdList[..], i) == LowestFree(fdList[..], 0)
      {
        if fdList[i].dev.None? {
          fdList[i] := fdList[i].(dev := Some(dev));
          if i > maxFd {
            maxFd := i;
          }
          return i;
        }
        i := i + 1;
      }
      return -EMFILE;
    }

    /** alt_release_fd. */
    method ReleaseFd(fd: int)
      requires fd < fdList.Length
      modifies fdList
      ensures State() == Release(old(State()), fd)
    {
      if fd > 2 {
        fdList[fd] := fdList[fd].(flags := 0);
        fdList[fd] := fdList[fd].(dev := None);
      }
    }

    /** alt_file_locked, without its first statement, which marks the descriptor. */
    method FileLocked(fd: nat) returns (status: int)
      requires fd < fdList.Length && 0 <= maxFd < fdList.Length
      ensures status == if LockedBelow(fdList[..], fdList[fd].dev, fd, maxFd + 1) then -EACCES else 0
    {
      var i := 0;
      while i <= maxFd
        invariant 0 <= i <= maxFd + 1
        invariant !LockedBelow(fdList[..], fdList[fd].dev, fd, i)
      {
        if fdList[i].dev == fdList[fd].dev && Has(fdList[i].flags, ALT_FD_EXCL) && i != fd {
          return -EACCES;
        }
        i := i + 1;
      }
      return 0;
    }

    /** ALT_OPEN: the index, or -1 with errno set. */
    method OpenFile(found: Option<Dev>, flags: bv32, reply: Option<Reply>) returns (rc: int)
      requires Inv(State())
      modifies `maxFd, `errno, fdList
      ensures var (q, status) := Open(old(State()), found, flags, reply);
              && State() == q
              && rc == (if status < 0 then -1 else status)
              && errno == if status < 0 then -status else old(errno)
    {
      var index, status := -1, -ENODEV;
      if found.Some? {
        var dev := found.value;
        index := GetFd(dev);
        if index < 0 {
          status := index;
        } else {
          ghost var q := State();
          var slot := fdList[index].(flags := OpenFlags(dev, flags));
          hide Allocate, LockedBelow, OpenFlags, Has;
          fdList[index] := slot;
          ghost var marked := q.(table := q.table[index := slot]);
          assert State() == marked;
          status := 0;
          if dev.kind.Device? {
            status := FileLocked(index);
          }
          if status >= 0 && reply.Some? {
            fdList[index] := slot.(priv := reply.value.priv);
            status := reply.value.status;
          }
        }
      }
      if status < 0 {
        ReleaseFd(index);
        errno := -status;
        return -1;
      }
      return index;
    }

    /** alt_fd_lock. */
    method FdLock(fd: nat) returns (rc: int)
      requires fd < fdList.Length && maxFd < fdList.Length
      modifies fdList
      ensures (State(), rc) == Lock(old(State()), fd)
    {
      var i := 0;
      while i < maxFd
        invariant 0 <= i && (i <= maxFd || i == 0) && State() == old(State())
        invariant !SharedBelow(fdList[..], fdList[fd].dev, fd, i)
      {
        if i != fd && fdList[i].dev == fdList[fd].dev {
          return -EACCES;
        }
        i := i + 1;
      }
      fdList[fd] := fdList[fd].(flags := fdList[fd].flags | ALT_FD_EXCL);
      return 0;
    }

    /** alt_fd_unlock. */
    method FdUnlock(fd: nat) returns (rc: int)
      requires fd < fdList.Length
      modifies fdList
      ensures State() == Unlock(old(State()), fd) && rc == 0
    {
      fdList[fd] := fdList[fd].(flags := fdList[fd].flags & !ALT_FD_EXCL);
      return 0;
    }

    /** ALT_IOCTL; `driver` is the status of the driver's ioctl callback, if it has one. */
    method IoctlFile(file: int, request: Request, driver: Option<int>) returns (rc: int)
      requires Inv(State()) && OpenOrNegative(State(), file)
      modifies `errno, fdList
      ensures State() == Apply(old(State()), IoctlOp(file, request))
      ensures file >= 0 ==> IoctlEffect(old(State()), State(), file, request)
      ensures file < 0 ==> rc == -EBADFD
      ensures file >= 0 && request == TIOCEXCL && Has(old(fdList[file].flags), ALT_FD_DEV) ==>
                rc == if SharedBelow(old(fdList[..]), old(fdList[file].dev), file, maxFd) then -EACCES else 0
      ensures file >= 0 && request == TIOCNXCL && Has(old(fdList[file].flags), ALT_FD_DEV) ==> rc == 0
      ensures file >= 0 && (request !in {TIOCEXCL, TIOCNXCL} || !Has(old(fdList[file].flags), ALT_FD_DEV)) ==>
                rc == if driver.Some? then driver.value else -ENOTTY
      ensures errno == if rc < 0 then -rc else old(errno)
    {
      if file >= 0 {
        IoctlSpec(State(), file, request);
        hide IoctlEffect, SharedBelow, Has, Apply, Inv;
        if Has(fdList[file].flags, ALT_FD_DEV) && request == TIOCEXCL {
          rc := FdLock(file);
        } else if Has(fdList[file].flags, ALT_FD_DEV) && request == TIOCNXCL {
          rc := FdUnlock(file);
        } else {
          rc := if driver.Some? then driver.value else -ENOTTY;
        }
        hide Unlock;
      } else {
        rc := -EBADFD;
      }
      if rc < 0 {
        errno := -rc;
      }
    }

    /** ALT_CLOSE; the descriptor is freed whatever the driver's callback answers. */
    method CloseFile(fd: int, driver: Option<int>) returns (rc: int)
      requires Inv(State()) && OpenOrNegative(State(), fd)
      modifies `errno, fdList
      ensures State() == Apply(old(State()), CloseOp(fd))
      ensures rc == if fd < 0 || (driver.Some? && driver.value < 0) then -1 else 0
      ensures errno == if rc == 0 then old(errno) else if fd < 0 then EBADFD else -driver.value
    {
      if fd >= 0 {
        var rval := if driver.Some? then driver.value else 0;
        ReleaseFd(fd);
        if rval < 0 {
          errno := -rval;
          return -1;
        }
        return 0;
      } else {
        errno := EBADFD;
        return -1;
      }
    }

    /** ALT_FCNTL. The result of F_GETFL is returned beside the status. */
    method FcntlFile(file: int, cmd: Command) returns (rc: int, flags: bv32)
      requires Inv(State()) && file < fdList.Length
      modifies `errno, fdList
      ensures State() == if cmd.F_SETFL? then Apply(old(State()), FcntlOp(file, cmd.arg)) else old(State())
      ensures rc == if file < 0 || cmd.OtherCommand? then -1 else 0
      ensures errno == if file < 0 then EBADFD else if cmd.OtherCommand? then EINVAL else old(errno)
      ensures rc == 0 && cmd.F_GETFL? ==> flags == UserFlags(fdList[file].flags)
    {
      hide Has, UserFlags, WithUserFlags;
      flags := 0;
      if file >= 0 {
        match cmd
        case F_GETFL =>
          return 0, UserFlags(fdList[file].flags);
        case F_SETFL(arg) =>
          fdList[file] := fdList[file].(flags := WithUserFlags(fdList[file].flags, arg));
          return 0, flags;
        case OtherCommand =>
          errno := EINVAL;
          return -1, flags;
      }
      errno := EBADFD;
      rc := -1;
    }

    /** alt_open_fd. */
    method OpenFd(target: nat, found: Option<Dev>, flags: bv32, reply: Option<Reply>)
      requires Inv(State()) && target < 3
      modifies `maxFd, `errno, fdList
      ensures State() == Redirect(old(State()), target, found, flags, reply)
    {
      OpenSpec(State(), found, flags, reply);
      var fd := OpenFile(found, flags, reply);
      hide Open;
      if fd >= 0 {
        fdList[target] := fdList[target].(dev := fdList[fd].dev);
        fdList[target] := fdList[target].(priv := fdList[fd].priv);
        fdList[target] := fdList[target].(flags := fdList[fd].flags);
        ReleaseFd(fd);
      }
    }

    /** alt_io_redirect: each standard channel follows its device if that opens
        and stays put if not, and no descriptor above them changes. */
    method IoRedirect(stdout: Option<Dev>, stdin: Option<Dev>, stderr: Option<Dev>, replies: seq<Option<Reply>>)
      requires Inv(State()) && |replies| == 3
      modifies `maxFd, `errno, fdList
      ensures var ops := [RedirectOp(1, stdout, 1, replies[0]), RedirectOp(0, stdin, 0, replies[1]),
                          RedirectOp(2, stderr, 1, replies[2])];
              AllLegal(old(State()), ops) && State() == Run(old(State()), ops)
      ensures SameAbove(old(State()), State())
    {
      hide Redirect, Inv, Open, OpenSucceeds, SameAbove, AllLegal, Run;
      ghost var p := State();
      ghost var out, inp, err := RedirectOp(1, stdout, 1, replies[0]),
                                 RedirectOp(0, stdin, 0, replies[1]), RedirectOp(2, stderr, 1, replies[2]);
      RedirectsKeepAbove(p, out, inp, err);
      OpenFd(1, stdout, 1, replies[0]);
      assert State() == Apply(p, out);
      OpenFd(0, stdin, 0, replies[1]);
      assert State() == Apply(Apply(p, out), inp);
      OpenFd(2, stderr, 1, replies[2]);
    }
  }
}
