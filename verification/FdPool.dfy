/** The pool of file descriptors: what each call does to it, as a value. */
module FdPool {
  import opened Options

  /** Device and filesystem structures are registered on two separate lists. */
  datatype Dev = Device(name: string) | FileSystem(name: string)

  datatype Errno = ENODEV | EMFILE | EACCES | EBADFD | ENOTTY | EINVAL | Driver(code: int)

  datatype Result = Ok(value: int) | Fail(errno: Errno)

  const EXCL: bv32 := 0x8000_0000
  const DEV: bv32 := 0x4000_0000
  const FLAGS_MASK: bv32 := EXCL | DEV
  const FCNTL_MASK: bv32 := 0x4008       // O_APPEND | O_NONBLOCK

  predicate Exclusive(flags: bv32) { flags & EXCL != 0 }

  predicate OfDevice(flags: bv32) { flags & DEV != 0 }

  function UserFlags(flags: bv32): bv32 { flags & !FLAGS_MASK }

  function DeviceFlags(flags: bv32): bv32 { flags | DEV }

  function LockedFlags(flags: bv32): bv32 { flags | EXCL }

  function UnlockedFlags(flags: bv32): bv32 { flags & !EXCL }

  function StatusFlags(flags: bv32, arg: bv32): bv32 { (flags & !FCNTL_MASK) | (arg & FCNTL_MASK) }

  datatype Fd = Fd(dev: Option<Dev>, priv: int, flags: bv32)

  const FREE := Fd(None, 0, 0)

  /** `max` is the highest descriptor ever allocated, -1 before the first. */
  datatype Pool = Pool(fds: seq<Fd>, max: int)

  /** What a driver's callback returns; opening may also set the private pointer. A driver
      without the callback counts as returning 0. */
  datatype Reply = Reply(status: int, priv: int)

  predicate Allocated(p: Pool, fd: int) { 0 <= fd < |p.fds| && p.fds[fd].dev.Some? }

  /** Standard input, output and error are always allocated, and no descriptor above them
      lies beyond the high-water mark. Locks are held on devices only. */
  predicate Inv(p: Pool) {
    && |p.fds| >= 3
    && (p.max == -1 || 3 <= p.max < |p.fds|)
    && (forall i :: 0 <= i < 3 ==> p.fds[i].dev.Some?)
    && (forall i :: 3 <= i < |p.fds| && p.fds[i].dev.Some? ==> i <= p.max)
    && (forall i :: 0 <= i < |p.fds| && p.fds[i].dev.None? ==> p.fds[i].flags == 0)
    && (forall i :: 0 <= i < |p.fds| && Exclusive(p.fds[i].flags) ==> OfDevice(p.fds[i].flags))
    && (forall i :: 0 <= i < |p.fds| && OfDevice(p.fds[i].flags) ==>
          i <= p.max && p.fds[i].dev.Some? && p.fds[i].dev.value.Device?)
  }

  // ----- the calls -----

  /** The first free descriptor from `i` on, or the size of the pool. */
  function FirstFree(fds: seq<Fd>, i: nat): (r: nat)
    requires i <= |fds|
    ensures i <= r <= |fds|
    ensures forall k :: i <= k < r ==> fds[k].dev.Some?
    ensures r < |fds| ==> fds[r].dev.None?
    decreases |fds| - i
  {
    if i == |fds| || fds[i].dev.None? then i else FirstFree(fds, i + 1)
  }

  function Taken(p: Pool, dev: Dev): Pool
    requires FirstFree(p.fds, 0) < |p.fds|
  {
    var i := FirstFree(p.fds, 0);
    Pool(p.fds[i := p.fds[i].(dev := Some(dev))], if i > p.max then i else p.max)
  }

  function Released(p: Pool, fd: int): Pool
    requires fd < |p.fds|
  {
    if fd > 2 then p.(fds := p.fds[fd := p.fds[fd].(flags := 0, dev := None)]) else p
  }

  /** Another descriptor holds the device of `fd` locked. */
  predicate LockedElsewhere(p: Pool, fd: nat)
    requires fd < |p.fds|
  {
    exists i :: 0 <= i < |p.fds| && i <= p.max && i != fd && p.fds[i].dev == p.fds[fd].dev && Exclusive(p.fds[i].flags)
  }

  function WithFlags(p: Pool, fd: nat, flags: bv32): Pool
    requires fd < |p.fds|
  {
    p.(fds := p.fds[fd := p.fds[fd].(flags := flags)])
  }

  function WithPriv(p: Pool, fd: nat, priv: int): Pool
    requires fd < |p.fds|
  {
    p.(fds := p.fds[fd := p.fds[fd].(priv := priv)])
  }

  /** The flags a new descriptor starts with. */
  function OpenFlags(dev: Dev, flags: bv32): bv32 {
    if dev.Device? then DeviceFlags(UserFlags(flags)) else UserFlags(flags)
  }

  /** The first free descriptor taken for `dev`. */
  function Prepared(p: Pool, dev: Dev, flags: bv32): Pool
    requires FirstFree(p.fds, 0) < |p.fds|
  {
    WithFlags(Taken(p, dev), FirstFree(p.fds, 0), OpenFlags(dev, flags))
  }

  /** open, after the name has been looked up */
  function Open(p: Pool, found: Option<Dev>, flags: bv32, reply: Reply): (r: (Pool, Result))
    ensures |r.0.fds| == |p.fds| && (r.1.Ok? ==> 0 <= r.1.value < |p.fds|)
  {
    var fd := FirstFree(p.fds, 0);
    if found.None? then (p, Fail(ENODEV))
    else if fd == |p.fds| then (p, Fail(EMFILE))
    else
      var taken := Prepared(p, found.value, flags);
      if found.value.Device? && LockedElsewhere(taken, fd) then (Released(taken, fd), Fail(EACCES))
      else if reply.status < 0 then (Released(WithPriv(taken, fd, reply.priv), fd), Fail(Driver(-reply.status)))
      else (WithPriv(taken, fd, reply.priv), Ok(fd))
  }

  function Close(p: Pool, fd: int, reply: Reply): (Pool, Result)
    requires fd >= 0 ==> Allocated(p, fd)
  {
    if fd < 0 then (p, Fail(EBADFD))
    else (Released(p, fd), if reply.status < 0 then Fail(Driver(-reply.status)) else Ok(0))
  }

  /** A rival the lock looks at: it stops short of the high-water mark. */
  predicate SeesRival(p: Pool, fd: nat)
    requires fd < |p.fds|
  {
    exists i :: 0 <= i < |p.fds| && i < p.max && i != fd && p.fds[i].dev == p.fds[fd].dev
  }

  function Lock(p: Pool, fd: nat): (Pool, Result)
    requires fd < |p.fds|
  {
    if SeesRival(p, fd) then (p, Fail(EACCES)) else (WithFlags(p, fd, LockedFlags(p.fds[fd].flags)), Ok(0))
  }

  function Unlock(p: Pool, fd: nat): (Pool, Result)
    requires fd < |p.fds|
  {
    (WithFlags(p, fd, UnlockedFlags(p.fds[fd].flags)), Ok(0))
  }

  datatype Request = LockRequest | UnlockRequest | OtherRequest

  /** ioctl; `reply` is the driver's answer if it has the callback. */
  function Ioctl(p: Pool, fd: int, request: Request, reply: Option<Reply>): (Pool, Result)
    requires fd >= 0 ==> Allocated(p, fd)
  {
    if fd < 0 then (p, Fail(EBADFD))
    else if OfDevice(p.fds[fd].flags) && request.LockRequest? then Lock(p, fd)
    else if OfDevice(p.fds[fd].flags) && request.UnlockRequest? then Unlock(p, fd)
    else if reply.None? then (p, Fail(ENOTTY))
    else (p, if reply.value.status < 0 then Fail(Driver(-reply.value.status)) else Ok(reply.value.status))
  }

  /** Redirecting one standard stream. */
  function Redirected(p: Pool, fd: nat, found: Option<Dev>, flags: bv32, reply: Reply): Pool
    requires fd < |p.fds|
  {
    var o := Open(p, found, flags, reply);
    if o.1.Fail? then o.0
    else Released(o.0.(fds := o.0.fds[fd := o.0.fds[o.1.value]]), o.1.value)
  }

  /** fcntl with F_SETFL */
  function SetFlags(p: Pool, fd: int, flags: bv32): (Pool, Result)
    requires fd >= 0 ==> Allocated(p, fd)
  {
    if fd < 0 then (p, Fail(EBADFD))
    else (WithFlags(p, fd, StatusFlags(p.fds[fd].flags, flags)), Ok(0))
  }

  // ----- the flag bits -----

  lemma Cleared(flags: bv32)
    ensures !Exclusive(UserFlags(flags)) && !OfDevice(UserFlags(flags))
  {
  }

  lemma Marked(flags: bv32)
    ensures !Exclusive(DeviceFlags(UserFlags(flags))) && OfDevice(DeviceFlags(UserFlags(flags)))
  {
  }

  lemma LockBit(flags: bv32)
    ensures Exclusive(LockedFlags(flags)) && (OfDevice(LockedFlags(flags)) <==> OfDevice(flags))
  {
  }

  lemma UnlockBit(flags: bv32)
    ensures !Exclusive(UnlockedFlags(flags)) && (OfDevice(UnlockedFlags(flags)) <==> OfDevice(flags))
  {
  }

  lemma StatusBits(flags: bv32, arg: bv32)
    ensures var after := StatusFlags(flags, arg);
      (Exclusive(after) <==> Exclusive(flags)) && (OfDevice(after) <==> OfDevice(flags))
  {
  }

  // ----- open -----

  /** Some descriptor holds `dev` locked. */
  ghost predicate Locked(p: Pool, dev: Dev) {
    exists i :: 0 <= i < |p.fds| && p.fds[i].dev == Some(dev) && Exclusive(p.fds[i].flags)
  }

  predicate Full(p: Pool) { forall i :: 0 <= i < |p.fds| ==> p.fds[i].dev.Some? }

  /** Taking a descriptor keeps the invariant, and the search of open misses no lock. */
  lemma PreparedFacts(p: Pool, dev: Dev, flags: bv32)
    requires Inv(p) && FirstFree(p.fds, 0) < |p.fds|
    ensures var fd, t := FirstFree(p.fds, 0), Prepared(p, dev, flags);
      && Inv(t) && fd > 2
      && t.fds == p.fds[fd := Fd(Some(dev), p.fds[fd].priv, OpenFlags(dev, flags))] && t.max >= p.max
      && !Exclusive(t.fds[fd].flags) && (OfDevice(t.fds[fd].flags) <==> dev.Device?)
      && (LockedElsewhere(t, fd) <==> Locked(p, dev))
      && (Locked(p, dev) ==> dev.Device?)
  {
    Cleared(flags);
    Marked(flags);
    var fd, t := FirstFree(p.fds, 0), Prepared(p, dev, flags);
    assert t.fds[fd] == Fd(Some(dev), p.fds[fd].priv, OpenFlags(dev, flags));
    if i :| 0 <= i < |p.fds| && p.fds[i].dev == Some(dev) && Exclusive(p.fds[i].flags) {
      assert t.fds[i] == p.fds[i] && i <= t.max;
    }
    assert !Exclusive(OpenFlags(dev, flags)) && (OfDevice(OpenFlags(dev, flags)) <==> dev.Device?);
  }

  /** open succeeds exactly when the name is known, a descriptor is free, no descriptor at
      all holds the device locked, and the driver agrees; it then returns a descriptor that
      was free, and changes no other. */
  lemma OpenSucceedsIff(p: Pool, found: Option<Dev>, flags: bv32, reply: Reply)
    requires Inv(p)
    ensures var o := Open(p, found, flags, reply);
      && (o.1.Ok? <==> found.Some? && !Full(p) && !Locked(p, found.value) && reply.status >= 0)
      && (o.1.Ok? ==>
            var fd := o.1.value;
            && p.fds[fd].dev.None? && fd > 2
            && o.0.fds == p.fds[fd := Fd(found, reply.priv, OpenFlags(found.value, flags))]
            && !Exclusive(o.0.fds[fd].flags))
  {
    if found.Some? && FirstFree(p.fds, 0) < |p.fds| {
      PreparedFacts(p, found.value, flags);
    }
  }

  /** A failed open leaves every descriptor as it was but for the private pointer of a free one. */
  lemma FailedOpenKeeps(p: Pool, found: Option<Dev>, flags: bv32, reply: Reply)
    requires Inv(p)
    ensures var o := Open(p, found, flags, reply);
      o.1.Fail? ==>
        && |o.0.fds| == |p.fds|
        && (forall i :: 0 <= i < |p.fds| ==>
              o.0.fds[i].(priv := 0) == p.fds[i].(priv := 0) && (p.fds[i].dev.Some? ==> o.0.fds[i] == p.fds[i]))
  {
    if found.Some? && FirstFree(p.fds, 0) < |p.fds| {
      PreparedFacts(p, found.value, flags);
    }
  }

  lemma OpenKeepsInv(p: Pool, found: Option<Dev>, flags: bv32, reply: Reply)
    requires Inv(p)
    ensures Inv(Open(p, found, flags, reply).0)
  {
    hide Inv, Prepared, Released, WithPriv, LockedElsewhere;
    if found.Some? && FirstFree(p.fds, 0) < |p.fds| {
      PreparedFacts(p, found.value, flags);
      var fd, t := FirstFree(p.fds, 0), Prepared(p, found.value, flags);
      PrivKeepsInv(t, fd, reply.priv);
      ReleaseKeepsInv(t, fd);
      ReleaseKeepsInv(WithPriv(t, fd, reply.priv), fd);
    }
  }

  /** The private pointer is the driver's own. */
  lemma PrivKeepsInv(p: Pool, fd: nat, priv: int)
    requires Inv(p) && fd < |p.fds|
    ensures var q := WithPriv(p, fd, priv); Inv(q) && |q.fds| == |p.fds|
  {
    hide Exclusive, OfDevice;
  }

  // ----- locks -----

  /** `fd` holds its device locked and no other descriptor is open on it. */
  ghost predicate SoleOwner(p: Pool, fd: nat) {
    && fd < |p.fds| && Exclusive(p.fds[fd].flags)
    && forall j :: 0 <= j < |p.fds| && j != fd ==> p.fds[j].dev != p.fds[fd].dev
  }

  /** A lock is granted exactly when no rival lies below the high-water mark; it is then
      exclusive exactly when the descriptor at the high-water mark is no rival either. */
  lemma LockGrantedIff(p: Pool, fd: nat)
    requires Inv(p) && Allocated(p, fd) && OfDevice(p.fds[fd].flags)
    ensures var o := Lock(p, fd);
      && (o.1.Ok? <==> forall j :: 0 <= j < |p.fds| && j < p.max && j != fd ==> p.fds[j].dev != p.fds[fd].dev)
      && (o.1.Ok? ==> (SoleOwner(o.0, fd) <==> p.max == fd || p.fds[p.max].dev != p.fds[fd].dev))
      && (o.1.Fail? ==> o.0 == p)
  {
    LockBit(p.fds[fd].flags);
    hide Exclusive, OfDevice, LockedFlags;
    var q := WithFlags(p, fd, LockedFlags(p.fds[fd].flags));
    assert forall j :: 0 <= j < |p.fds| ==> q.fds[j].dev == p.fds[j].dev;
  }

  /** In a pool of four: standard input locks its device although descriptor 3, at the
      high-water mark, is open on it too. */
  lemma LockMissesRival(a: Dev, b: Dev)
    requires a.Device? && b.Device? && a != b
    ensures var p := Pool([Fd(Some(a), 0, DEV), Fd(Some(b), 0, DEV), Fd(Some(b), 0, DEV), Fd(Some(a), 0, DEV)], 3);
      Inv(p) && Lock(p, 0).1.Ok? && !SoleOwner(Lock(p, 0).0, 0)
  {
    var p := Pool([Fd(Some(a), 0, DEV), Fd(Some(b), 0, DEV), Fd(Some(b), 0, DEV), Fd(Some(a), 0, DEV)], 3);
    var q := Lock(p, 0).0;
    assert q.fds[3].dev == q.fds[0].dev;
  }

  /** Nothing changes but the flags of one descriptor. */
  ghost predicate SameButFlags(p: Pool, q: Pool, fd: nat) {
    && |q.fds| == |p.fds| && q.max == p.max && fd < |p.fds|
    && q.fds[fd].dev == p.fds[fd].dev && q.fds[fd].priv == p.fds[fd].priv
    && forall i :: 0 <= i < |p.fds| && i != fd ==> q.fds[i] == p.fds[i]
  }

  lemma WithFlagsKeeps(p: Pool, fd: nat, flags: bv32)
    requires fd < |p.fds|
    ensures var q := WithFlags(p, fd, flags); SameButFlags(p, q, fd) && q.fds[fd].flags == flags
  {
  }

  function Unmasked(flags: bv32, mask: bv32): bv32 { flags & !mask }

  /** A granted lock sets the exclusive bit of its descriptor; unlocking clears it. */
  lemma LockChangesOne(p: Pool, fd: nat)
    requires fd < |p.fds|
    ensures var o := Lock(p, fd);
      if o.1.Ok? then
        && o.1 == Ok(0) && SameButFlags(p, o.0, fd) && Exclusive(o.0.fds[fd].flags)
        && Unmasked(o.0.fds[fd].flags, EXCL) == Unmasked(p.fds[fd].flags, EXCL)
      else o == (p, Fail(EACCES))
    ensures var o := Unlock(p, fd);
      && o.1 == Ok(0) && SameButFlags(p, o.0, fd) && !Exclusive(o.0.fds[fd].flags)
      && Unmasked(o.0.fds[fd].flags, EXCL) == Unmasked(p.fds[fd].flags, EXCL)
  {
    var flags := p.fds[fd].flags;
    OtherBits(flags);
    LockBit(flags);
    UnlockBit(flags);
    WithFlagsKeeps(p, fd, LockedFlags(flags));
    WithFlagsKeeps(p, fd, UnlockedFlags(flags));
    hide Exclusive, OfDevice, LockedFlags, UnlockedFlags, SeesRival, Unmasked, SameButFlags, WithFlags;
  }

  lemma OtherBits(flags: bv32)
    ensures Unmasked(LockedFlags(flags), EXCL) == Unmasked(flags, EXCL) == Unmasked(UnlockedFlags(flags), EXCL)
  {
  }

  // ----- close -----

  /** Closing frees a descriptor above 2, whatever its driver answers, and changes no other;
      the standard streams stay open. */
  lemma CloseReleases(p: Pool, fd: int, reply: Reply)
    requires fd >= 0 ==> Allocated(p, fd)
    ensures var o := Close(p, fd, reply);
      && |o.0.fds| == |p.fds| && o.0.max == p.max
      && (forall i :: 0 <= i < |p.fds| ==>
            if i == fd && fd > 2 then o.0.fds[i].dev.None? && o.0.fds[i].flags == 0 && o.0.fds[i].priv == p.fds[i].priv
            else o.0.fds[i] == p.fds[i])
      && o.1 == if fd < 0 then Fail(EBADFD) else if reply.status >= 0 then Ok(0) else Fail(Driver(-reply.status))
  {
  }

  /** A sole owner that closes gives its lock up. */
  lemma CloseUnlocks(p: Pool, fd: nat, reply: Reply)
    requires SoleOwner(p, fd) && fd > 2 && p.fds[fd].dev.Some?
    ensures !Locked(Close(p, fd, reply).0, p.fds[fd].dev.value)
  {
    hide Exclusive;
    CloseReleases(p, fd, reply);
    hide Close;
    var q := Close(p, fd, reply).0;
    forall i | 0 <= i < |q.fds| ensures q.fds[i].dev != p.fds[fd].dev {
      assert i == fd || q.fds[i] == p.fds[i];
    }
  }

  /** After a close there is a descriptor for the next open. */
  lemma CloseThenOpen(p: Pool, fd: nat, reply: Reply, dev: Dev, flags: bv32, openReply: Reply)
    requires Inv(p) && Allocated(p, fd) && fd > 2 && openReply.status >= 0
    requires !Locked(Close(p, fd, reply).0, dev)
    ensures Open(Close(p, fd, reply).0, Some(dev), flags, openReply).1.Ok?
  {
    var q := Close(p, fd, reply).0;
    ReleaseKeepsInv(p, fd);
    CloseReleases(p, fd, reply);
    assert q.fds[fd].dev.None? && !Full(q);
    hide Inv, Locked, Open, Close;
    OpenSucceedsIff(q, Some(dev), flags, openReply);
  }

  // ----- redirection and flags -----

  /** A redirected stream is what the open made: device, private pointer and flags; the
      descriptor it came from is free again, and no other changes.  If the open fails,
      every allocated descriptor stays as it is. */
  lemma RedirectMoves(p: Pool, stream: nat, found: Option<Dev>, flags: bv32, reply: Reply)
    requires Inv(p) && stream < 3
    ensures var r, o := Redirected(p, stream, found, flags, reply), Open(p, found, flags, reply).1;
      && |r.fds| == |p.fds|
      && (forall i :: 0 <= i < |p.fds| && p.fds[i].dev.Some? && (o.Fail? || i != stream) ==> r.fds[i] == p.fds[i])
      && (forall i :: 0 <= i < |p.fds| && p.fds[i].dev.None? ==> r.fds[i].dev.None? && r.fds[i].flags == 0)
      && (o.Ok? ==> r.fds[stream] == Fd(found, reply.priv, OpenFlags(found.value, flags)))
  {
    OpenSucceedsIff(p, found, flags, reply);
    FailedOpenKeeps(p, found, flags, reply);
    hide Open, Exclusive, OfDevice, OpenFlags, Locked, Full;
  }

  /** The flags of an opened descriptor are the caller's, but for the two bits of the pool. */
  lemma OpenFlagBits(dev: Dev, flags: bv32)
    ensures Unmasked(OpenFlags(dev, flags), FLAGS_MASK) == Unmasked(flags, FLAGS_MASK)
  {
  }

  /** F_SETFL takes the status bits from its argument and all others from the descriptor. */
  lemma SetFlagsBits(p: Pool, fd: nat, arg: bv32)
    requires Allocated(p, fd)
    ensures var o := SetFlags(p, fd, arg);
      && o.1 == Ok(0) && SameButFlags(p, o.0, fd)
      && o.0.fds[fd].flags & FCNTL_MASK == arg & FCNTL_MASK
      && Unmasked(o.0.fds[fd].flags, FCNTL_MASK) == Unmasked(p.fds[fd].flags, FCNTL_MASK)
  {
    StatusMasks(p.fds[fd].flags, arg);
    WithFlagsKeeps(p, fd, StatusFlags(p.fds[fd].flags, arg));
    hide StatusFlags, Unmasked, SameButFlags, WithFlags;
  }

  lemma StatusMasks(flags: bv32, arg: bv32)
    ensures StatusFlags(flags, arg) & FCNTL_MASK == arg & FCNTL_MASK
    ensures Unmasked(StatusFlags(flags, arg), FCNTL_MASK) == Unmasked(flags, FCNTL_MASK)
  {
  }

  // ----- runs -----

  datatype Call =
    | OpenCall(found: Option<Dev>, openFlags: bv32, openReply: Reply)
    | CloseCall(fd: int, closeReply: Reply)
    | IoctlCall(fd: int, request: Request, ioctlReply: Option<Reply>)
    | SetFlagsCall(fd: int, status: bv32)
    | RedirectCall(stream: nat, found: Option<Dev>, openFlags: bv32, openReply: Reply)

  /** Calls name descriptors that are open; only standard streams are redirected. */
  predicate Legal(p: Pool, c: Call) {
    match c
    case OpenCall(_, _, _) => true
    case CloseCall(fd, _) => fd >= 0 ==> Allocated(p, fd)
    case IoctlCall(fd, _, _) => fd >= 0 ==> Allocated(p, fd)
    case SetFlagsCall(fd, _) => fd >= 0 ==> Allocated(p, fd)
    case RedirectCall(stream, _, _, _) => stream < 3 <= |p.fds|
  }

  function After(p: Pool, c: Call): Pool
    requires Legal(p, c)
  {
    match c
    case OpenCall(found, flags, reply) => Open(p, found, flags, reply).0
    case CloseCall(fd, reply) => Close(p, fd, reply).0
    case IoctlCall(fd, request, reply) => Ioctl(p, fd, request, reply).0
    case SetFlagsCall(fd, flags) => SetFlags(p, fd, flags).0
    case RedirectCall(stream, found, flags, reply) => Redirected(p, stream, found, flags, reply)
  }

  /** The call that may end a lock held through `fd`. */
  predicate GivesUp(c: Call, fd: nat) {
    match c
    case OpenCall(_, _, _) => false
    case CloseCall(f, _) => f == fd
    case IoctlCall(f, request, _) => f == fd && request.UnlockRequest?
    case SetFlagsCall(_, _) => false
    case RedirectCall(stream, _, _, _) => stream == fd
  }

  lemma LockKeepsInv(p: Pool, fd: nat)
    requires Inv(p) && Allocated(p, fd) && OfDevice(p.fds[fd].flags)
    ensures Inv(Lock(p, fd).0) && Inv(Unlock(p, fd).0)
  {
    LockBit(p.fds[fd].flags);
    UnlockBit(p.fds[fd].flags);
    hide Exclusive, OfDevice, LockedFlags, UnlockedFlags;
  }

  lemma ReleaseKeepsInv(p: Pool, fd: nat)
    requires Inv(p) && fd < |p.fds|
    ensures Inv(Released(p, fd))
  {
    NoFlags();
    hide Exclusive, OfDevice;
  }

  lemma NoFlags()
    ensures !Exclusive(0) && !OfDevice(0)
  {
  }

  lemma RedirectKeepsInv(p: Pool, stream: nat, found: Option<Dev>, flags: bv32, reply: Reply)
    requires Inv(p) && stream < 3
    ensures Inv(Redirected(p, stream, found, flags, reply))
  {
    OpenKeepsInv(p, found, flags, reply);
    OpenSucceedsIff(p, found, flags, reply);
    hide Open, Exclusive, OfDevice;
    var o := Open(p, found, flags, reply);
    if o.1.Ok? {
      var q := o.0.(fds := o.0.fds[stream := o.0.fds[o.1.value]]);
      assert Inv(q);
      ReleaseKeepsInv(q, o.1.value);
    }
  }

  lemma CallKeepsInv(p: Pool, c: Call)
    requires Inv(p) && Legal(p, c)
    ensures Inv(After(p, c))
  {
    hide Open, Redirected, Exclusive, OfDevice, LockedFlags, UnlockedFlags, StatusFlags;
    match c
    case OpenCall(found, flags, reply) => OpenKeepsInv(p, found, flags, reply);
    case CloseCall(fd, reply) => if fd >= 0 { ReleaseKeepsInv(p, fd); }
    case IoctlCall(fd, request, reply) =>
      if fd >= 0 && OfDevice(p.fds[fd].flags) { LockKeepsInv(p, fd); }
    case SetFlagsCall(fd, flags) => if fd >= 0 { StatusBits(p.fds[fd].flags, flags); }
    case RedirectCall(stream, found, flags, reply) => RedirectKeepsInv(p, stream, found, flags, reply);
  }

  /** A sole owner stays sole through every call that does not give its lock up. */
  lemma SoleOwnerStays(p: Pool, c: Call, fd: nat)
    requires Inv(p) && Legal(p, c) && SoleOwner(p, fd) && !GivesUp(c, fd)
    ensures SoleOwner(After(p, c), fd)
  {
    hide Open, Exclusive, OfDevice, LockedFlags, UnlockedFlags, StatusFlags;
    match c
    case OpenCall(found, flags, reply) =>
      OpenSucceedsIff(p, found, flags, reply);
      FailedOpenKeeps(p, found, flags, reply);
    case CloseCall(_, _) =>
    case IoctlCall(f, _, _) => if f >= 0 { LockBit(p.fds[f].flags); }
    case SetFlagsCall(f, flags) => if f >= 0 { StatusBits(p.fds[f].flags, flags); }
    case RedirectCall(stream, found, flags, reply) =>
      OpenSucceedsIff(p, found, flags, reply);
      FailedOpenKeeps(p, found, flags, reply);
  }

  /** Every call is legal when it is made. */
  ghost predicate LegalRun(p: Pool, calls: seq<Call>)
    decreases |calls|
  {
    calls != [] ==> Legal(p, calls[0]) && LegalRun(After(p, calls[0]), calls[1..])
  }

  ghost function Run(p: Pool, calls: seq<Call>): Pool
    requires LegalRun(p, calls)
    decreases |calls|
  {
    if calls == [] then p else Run(After(p, calls[0]), calls[1..])
  }

  /** Over any run the invariant holds. */
  lemma {:induction false} RunKeepsInv(p: Pool, calls: seq<Call>)
    requires Inv(p) && LegalRun(p, calls)
    ensures Inv(Run(p, calls))
    decreases |calls|
  {
    hide Inv, Legal, After;
    if calls != [] {
      CallKeepsInv(p, calls[0]);
      RunKeepsInv(After(p, calls[0]), calls[1..]);
    }
  }

  /** The pool at start-up: the standard streams on the null device. */
  function Initial(nullDevice: Dev, size: nat): Pool {
    Pool(seq(size, i => if i < 3 then Fd(Some(nullDevice), 0, 0) else FREE), -1)
  }

  lemma InitialInv(nullDevice: Dev, size: nat)
    requires size >= 3
    ensures Inv(Initial(nullDevice, size))
  {
    NoFlags();
    hide Exclusive, OfDevice;
  }

  /** Opening an unlocked device takes the last descriptor of four. */
  lemma OpensLast(p: Pool, dev: Dev, reply: Reply)
    requires |p.fds| == 4 && p.max <= 3 && dev.Device? && reply == Reply(0, 0)
    requires p.fds[3] == FREE && forall i :: 0 <= i < 3 ==> p.fds[i].dev.Some? && !Exclusive(p.fds[i].flags)
    ensures Open(p, Some(dev), 0, reply) == (Pool(p.fds[3 := Fd(Some(dev), 0, DEV)], 3), Ok(3))
  {
    assert FirstFree(p.fds, 3) == 3 && FirstFree(p.fds, 2) == 3 && FirstFree(p.fds, 1) == 3;
    assert OpenFlags(dev, 0) == DEV;
    hide Exclusive, OpenFlags, FirstFree;
    var t := Prepared(p, dev, 0);
    assert t.fds == p.fds[3 := Fd(Some(dev), 0, DEV)];
    assert t.max == 3;
    assert forall i :: 0 <= i < 3 ==> t.fds[i] == p.fds[i];
    assert !LockedElsewhere(t, 3);
    assert WithPriv(t, 3, 0).fds == t.fds;
  }

  /** So redirecting a stream leaves it free again. */
  lemma RedirectsOnly(p: Pool, stream: nat, dev: Dev, reply: Reply)
    requires |p.fds| == 4 && p.max <= 3 && dev.Device? && reply == Reply(0, 0) && stream < 3
    requires p.fds[3] == FREE && forall i :: 0 <= i < 3 ==> p.fds[i].dev.Some? && !Exclusive(p.fds[i].flags)
    ensures Redirected(p, stream, Some(dev), 0, reply) == Pool(p.fds[stream := Fd(Some(dev), 0, DEV)], 3)
  {
    OpensLast(p, dev, reply);
    hide Open, Exclusive;
    var t := Redirected(p, stream, Some(dev), 0, reply);
    assert t.fds == p.fds[stream := Fd(Some(dev), 0, DEV)];
  }

  /** The pool in which a lock misses its rival is one that programs reach. */
  lemma MissedRivalIsReachable(nullDevice: Dev, a: Dev, b: Dev, reply: Reply)
    requires a.Device? && b.Device? && reply == Reply(0, 0)
    ensures var p := Initial(nullDevice, 4);
      var calls := [RedirectCall(0, Some(a), 0, reply), RedirectCall(1, Some(b), 0, reply),
                    RedirectCall(2, Some(b), 0, reply), OpenCall(Some(a), 0, reply)];
      && LegalRun(p, calls)
      && Run(p, calls)
         == Pool([Fd(Some(a), 0, DEV), Fd(Some(b), 0, DEV), Fd(Some(b), 0, DEV), Fd(Some(a), 0, DEV)], 3)
  {
    NoFlags();
    PlainDevice();
    hide Open, Redirected, Exclusive, OfDevice;
    var p, x, y, n := Initial(nullDevice, 4), Fd(Some(a), 0, DEV), Fd(Some(b), 0, DEV), Fd(Some(nullDevice), 0, 0);
    RedirectsOnly(p, 0, a, reply);
    RedirectsOnly(Pool([x, n, n, FREE], 3), 1, b, reply);
    RedirectsOnly(Pool([x, y, n, FREE], 3), 2, b, reply);
    OpensLast(Pool([x, y, y, FREE], 3), a, reply);
    var calls := [RedirectCall(0, Some(a), 0, reply), RedirectCall(1, Some(b), 0, reply),
                  RedirectCall(2, Some(b), 0, reply), OpenCall(Some(a), 0, reply)];
    assert p.fds == [n, n, n, FREE];
    RunUnfolds(p, Pool([x, n, n, FREE], 3), calls);
    RunUnfolds(Pool([x, n, n, FREE], 3), Pool([x, y, n, FREE], 3), calls[1..]);
    RunUnfolds(Pool([x, y, n, FREE], 3), Pool([x, y, y, FREE], 3), calls[2..]);
    RunUnfolds(Pool([x, y, y, FREE], 3), Pool([x, y, y, x], 3), calls[3..]);
    assert calls[1..][1..] == calls[2..] && calls[2..][1..] == calls[3..] && calls[3..][1..] == [];
  }

  lemma PlainDevice()
    ensures !Exclusive(DEV)
  {
  }

  lemma RunUnfolds(p: Pool, q: Pool, calls: seq<Call>)
    requires calls != [] && Legal(p, calls[0]) && After(p, calls[0]) == q
    ensures LegalRun(q, calls[1..]) ==> LegalRun(p, calls) && Run(p, calls) == Run(q, calls[1..])
    ensures LegalRun(q, []) && Run(q, []) == q
  {
  }

  /** Over any run, the invariant holds and a sole owner that never gives up its lock is
      still the only descriptor open on its device, which no call has opened in between. */
  lemma {:induction false} RunKeepsOwner(p: Pool, calls: seq<Call>, fd: nat)
    requires Inv(p) && LegalRun(p, calls) && SoleOwner(p, fd)
    requires forall c <- calls :: !GivesUp(c, fd)
    ensures Inv(Run(p, calls)) && SoleOwner(Run(p, calls), fd)
    decreases |calls|
  {
    if calls != [] {
      CallKeepsInv(p, calls[0]);
      SoleOwnerStays(p, calls[0], fd);
      RunKeepsOwner(After(p, calls[0]), calls[1..], fd);
    }
  }
}
