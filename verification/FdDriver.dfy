/** The same calls on the array of descriptor structures, proved against the pool. */
module FdDriver {
  import opened Options
  import opened FdPool

  class Descriptors {
    const list: array<Fd>
    var maxFd: int
    var errno: Option<Errno>

    function Contents(): Pool
      reads this`maxFd, list
    {
      Pool(list[..], maxFd)
    }

    ghost predicate Valid()
      reads this`maxFd, list
    {
      Inv(Contents())
    }

    /** At reset the standard streams are on the null device and nothing was allocated. */
    constructor (size: nat, nullDevice: Dev)
      requires size >= 3
      ensures Valid() && fresh(list) && list.Length == size && maxFd == -1
      ensures forall i :: 0 <= i < size ==> list[i] == if i < 3 then Fd(Some(nullDevice), 0, 0) else FREE
    {
      list := new Fd[size](i => if i < 3 then Fd(Some(nullDevice), 0, 0) else FREE);
      maxFd := -1;
      errno := None;
    }

    /** alt_get_fd; -1 if the pool is full */
    method GetFd(dev: Dev) returns (fd: int)
      modifies this`maxFd, list
      ensures var free := FirstFree(old(Contents()).fds, 0);
        if free == list.Length then fd == -1 && Contents() == old(Contents())
        else fd == free && Contents() == Taken(old(Contents()), dev)
    {
      var i := 0;
      while i < list.Length
        invariant 0 <= i <= list.Length
        invariant FirstFree(list[..], 0) == FirstFree(list[..], i)
        invariant Contents() == old(Contents())
      {
        if list[i].dev.None? {
          list[i] := list[i].(dev := Some(dev));
          if i > maxFd {
            maxFd := i;
          }
          return i;
        }
        i := i + 1;
      }
      fd := -1;
    }

    /** alt_release_fd */
    method ReleaseFd(fd: int)
      requires fd < list.Length
      modifies list
      ensures Contents() == Released(old(Contents()), fd)
    {
      if fd > 2 {
        list[fd] := list[fd].(flags := 0);
        list[fd] := list[fd].(dev := None);
      }
    }

    /** alt_file_locked */
    method FileLocked(fd: nat) returns (locked: bool)
      requires fd < list.Length && -1 <= maxFd < list.Length
      modifies list
      ensures Contents() == WithFlags(old(Contents()), fd, DeviceFlags(old(list[fd].flags)))
      ensures locked <==> LockedElsewhere(Contents(), fd)
    {
      list[fd] := list[fd].(flags := list[fd].flags | DEV);
      var i := 0;
      while i <= maxFd
        invariant 0 <= i <= maxFd + 1
        invariant Contents() == WithFlags(old(Contents()), fd, DeviceFlags(old(list[fd].flags)))
        invariant forall k :: 0 <= k < i && k != fd ==> list[k].dev != list[fd].dev || !Exclusive(list[k].flags)
      {
        if list[i].dev == list[fd].dev && Exclusive(list[i].flags) && i != fd {
          return true;
        }
        i := i + 1;
      }
      locked := false;
    }

    /** The ways open ends. */
    method Finish(index: int, status: Result) returns (r: Result)
      requires index < list.Length
      modifies list, this`errno
      ensures r == status
      ensures Contents() == if status.Fail? then Released(old(Contents()), index) else old(Contents())
      ensures errno == if status.Fail? then Some(status.errno) else old(errno)
    {
      if status.Fail? {
        ReleaseFd(index);
        errno := Some(status.errno);
      }
      r := status;
    }

    /** The descriptor claimed for `dev` with its first flags, and whether its device is
        locked by another. */
    method Claim(index: nat, dev: Dev, flags: bv32) returns (locked: bool)
      requires index < list.Length && -1 <= maxFd < list.Length
      modifies list
      ensures Contents() == WithFlags(old(Contents()), index, OpenFlags(dev, flags))
      ensures locked <==> dev.Device? && LockedElsewhere(Contents(), index)
    {
      hide Exclusive, UserFlags, DeviceFlags;
      list[index] := list[index].(flags := UserFlags(flags));
      locked := false;
      if dev.Device? {
        locked := FileLocked(index);
      }
      assert Contents().fds == WithFlags(old(Contents()), index, OpenFlags(dev, flags)).fds;
    }

    /** open, after the name has been looked up */
    method Open(found: Option<Dev>, flags: bv32, reply: Reply) returns (r: Result)
      requires Valid()
      modifies this`maxFd, this`errno, list
      ensures (Contents(), r) == FdPool.Open(old(Contents()), found, flags, reply) && Valid()
      ensures errno == if r.Fail? then Some(r.errno) else old(errno)
    {
      OpenKeepsInv(Contents(), found, flags, reply);
      hide Exclusive, OfDevice, OpenFlags, LockedElsewhere;
      var index, status := -1, Fail(ENODEV);
      if found.Some? {
        index := GetFd(found.value);
        if index < 0 {
          status := Fail(EMFILE);
        } else {
          var locked := Claim(index, found.value, flags);
          if locked {
            status := Fail(EACCES);
          } else {
            list[index] := list[index].(priv := reply.priv);
            status := if reply.status < 0 then Fail(Driver(-reply.status)) else Ok(index);
          }
        }
      }
      r := Finish(index, status);
    }

    /** close */
    method Close(fd: int, reply: Reply) returns (r: Result)
      requires Valid() && (fd >= 0 ==> Allocated(Contents(), fd))
      modifies list, this`errno
      ensures (Contents(), r) == FdPool.Close(old(Contents()), fd, reply) && Valid()
      ensures errno == if r.Fail? then Some(r.errno) else old(errno)
    {
      CallKeepsInv(Contents(), CloseCall(fd, reply));
      if fd >= 0 {
        ReleaseFd(fd);
        if reply.status < 0 {
          errno := Some(Driver(-reply.status));
          return Fail(Driver(-reply.status));
        }
        r := Ok(0);
      } else {
        errno := Some(EBADFD);
        r := Fail(EBADFD);
      }
    }

    /** alt_fd_lock */
    method Lock(fd: nat) returns (r: Result)
      requires fd < list.Length && -1 <= maxFd < list.Length
      modifies list
      ensures (Contents(), r) == FdPool.Lock(old(Contents()), fd)
    {
      var i := 0;
      while i < maxFd
        invariant 0 <= i && (i <= maxFd || i == 0) && Contents() == old(Contents())
        invariant forall k :: 0 <= k < i && k != fd ==> list[k].dev != list[fd].dev
      {
        if i != fd && list[i].dev == list[fd].dev {
          return Fail(EACCES);
        }
        i := i + 1;
      }
      list[fd] := list[fd].(flags := list[fd].flags | EXCL);
      r := Ok(0);
    }

    /** alt_fd_unlock */
    method Unlock(fd: nat) returns (r: Result)
      requires fd < list.Length
      modifies list
      ensures (Contents(), r) == FdPool.Unlock(old(Contents()), fd)
    {
      list[fd] := list[fd].(flags := list[fd].flags & !EXCL);
      r := Ok(0);
    }

    /** ioctl */
    method Ioctl(fd: int, request: Request, reply: Option<Reply>) returns (r: Result)
      requires Valid() && (fd >= 0 ==> Allocated(Contents(), fd))
      modifies list, this`errno
      ensures (Contents(), r) == FdPool.Ioctl(old(Contents()), fd, request, reply) && Valid()
      ensures errno == if r.Fail? then Some(r.errno) else old(errno)
    {
      CallKeepsInv(Contents(), IoctlCall(fd, request, reply));
      if fd >= 0 {
        if OfDevice(list[fd].flags) && request.LockRequest? {
          r := Lock(fd);
        } else if OfDevice(list[fd].flags) && request.UnlockRequest? {
          r := Unlock(fd);
        } else if reply.Some? {
          r := if reply.value.status < 0 then Fail(Driver(-reply.value.status)) else Ok(reply.value.status);
        } else {
          r := Fail(ENOTTY);
        }
      } else {
        r := Fail(EBADFD);
      }
      if r.Fail? {
        errno := Some(r.errno);
      }
    }

    /** alt_open_fd on a standard stream */
    method OpenFd(stream: nat, found: Option<Dev>, flags: bv32, reply: Reply)
      requires Valid() && stream < 3
      modifies this`maxFd, this`errno, list
      ensures Contents() == Redirected(old(Contents()), stream, found, flags, reply) && Valid()
    {
      RedirectKeepsInv(Contents(), stream, found, flags, reply);
      hide Exclusive, OfDevice, Inv, FdPool.Open, Released;
      var result := Open(found, flags, reply);
      if result.Ok? {
        var index := result.value;
        ghost var after := Contents();
        list[stream] := list[stream].(dev := list[index].dev);
        list[stream] := list[stream].(priv := list[index].priv);
        list[stream] := list[stream].(flags := list[index].flags);
        assert list[..] == after.fds[stream := after.fds[index]];
        ReleaseFd(index);
      }
    }

    /** alt_io_redirect: output, then input, then error */
    method IoRedirect(found: seq<Option<Dev>>, flags: seq<bv32>, replies: seq<Reply>)
      requires Valid() && |found| == |flags| == |replies| == 3
      modifies this`maxFd, this`errno, list
      ensures Valid()
      ensures var p1 := Redirected(old(Contents()), 1, found[1], flags[1], replies[1]);
        var p0 := Redirected(p1, 0, found[0], flags[0], replies[0]);
        Contents() == Redirected(p0, 2, found[2], flags[2], replies[2])
    {
      OpenFd(1, found[1], flags[1], replies[1]);
      OpenFd(0, found[0], flags[0], replies[0]);
      OpenFd(2, found[2], flags[2], replies[2]);
    }
  }
}
