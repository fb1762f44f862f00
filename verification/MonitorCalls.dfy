/**
 The monitor calls as the library makes them: on one static array of file entries, updated in
 place (tce/newlib-1.17.0/libgloss/arm/syscalls.c:92-582 and 629-677).
 */
module MonitorCalls {
  import opened Wrappers
  import opened FileTable

  class Monitor {
    const host: Host
    const openfiles: array<Fdent>
    var trace: seq<Event>
    var errno: Option<Errno>

    ghost predicate Valid() {
      openfiles.Length == MAX_OPEN_FILES
    }

    ghost function State(): Sys
      reads this, openfiles
    {
      Sys(openfiles[..], trace, errno)
    }

    /** initialise_monitor_handles */
    constructor (host: Host)
      ensures Valid() && fresh(openfiles) && this.host == host
      ensures State() == Initialise(host)
    {
      this.host := host;
      var table := new Fdent[MAX_OPEN_FILES](_ => Fdent(0, 0));
      openfiles := table;
      trace, errno := [], None;
      new;
      var monitorStdin := AskHost(OpenFile(":tt", 0));
      var monitorStdout := AskHost(OpenFile(":tt", 4));
      var monitorStderr := AskHost(OpenFile(":tt", APPEND));
      if monitorStderr == -1 {
        monitorStderr := monitorStdout;
      }
      FillTable(monitorStdin, monitorStdout, monitorStderr);
    }

    method FillTable(input: int, output: int, stderr: int)
      requires Valid()
      modifies openfiles
      ensures openfiles[..] == InitialFiles(input, output, stderr)
    {
      var i := 0;
      while i < MAX_OPEN_FILES
        invariant i <= MAX_OPEN_FILES
        invariant forall j :: 0 <= j < i ==> openfiles[j] == Fdent(-1, 0)
      {
        openfiles[i] := Fdent(-1, 0);
        i := i + 1;
      }
      openfiles[0] := Fdent(input, 0);
      openfiles[1] := Fdent(output, 0);
      openfiles[2] := Fdent(stderr, 0);
    }

    method AskHost(req: Request) returns (reply: int)
      modifies this`trace
      ensures trace == old(trace) + [Event(req, reply)] && reply == host(old(trace), req)
    {
      reply := host(trace, req);
      trace := trace + [Event(req, reply)];
    }

    method Error(result: int) returns (r: int)
      modifies this`trace, this`errno
      ensures (State(), r) == FileTable.Error(host, old(State()), result)
    {
      var code := AskHost(GetErrno);
      errno := Some(FromHost(code));
      r := result;
    }

    method AskChecked(req: Request) returns (r: int)
      modifies this`trace, this`errno
      ensures (State(), r) == FileTable.AskChecked(host, old(State()), req)
    {
      r := AskHost(req);
      if r == -1 {
        r := Error(-1);
      }
    }

    /** findslot: a descriptor that is in range and open. */
    method FindSlot(fd: int) returns (ok: bool)
      requires Valid()
      ensures ok == IsOpen(openfiles[..], fd)
    {
      if fd < 0 || fd >= MAX_OPEN_FILES {
        return false;
      }
      ok := openfiles[fd].handle != -1;
    }

    /** newslot: the next lowest numbered free entry, or -1. */
    method FindNewSlot() returns (fd: int)
      requires Valid()
      ensures fd == NewSlot(openfiles[..])
    {
      var i := 0;
      while i < MAX_OPEN_FILES
        invariant i <= MAX_OPEN_FILES
        invariant NewSlot(openfiles[..]) == FirstFree(openfiles[..], i)
      {
        if openfiles[i].handle == -1 {
          return i;
        }
        i := i + 1;
      }
      fd := -1;
    }

    method SwiOpen(path: string, flags: Flags) returns (r: int)
      requires Valid()
      modifies this`trace, this`errno, openfiles
      ensures (State(), r) == FileTable.Open(host, old(State()), path, flags)
      decreases flags.creat && flags.excl, 1
    {
      var fd := FindNewSlot();
      if fd == -1 {
        errno := Some(EMFILE);
        return -1;
      }
      if flags.creat && flags.excl {
        var res := Stat(path);
        if res != -1 {
          errno := Some(EEXIST);
          return -1;
        }
      }
      var aflags := 0;
      if flags.binary {
        aflags := aflags + 1;
      }
      if flags.rdwr {
        aflags := aflags + 2;
      }
      var write := flags.creat || flags.trunc || flags.wronly;
      if flags.append {
        // cannot ask for both write and append: append wins
        write := false;
        aflags := aflags + APPEND;
      }
      if write {
        aflags := aflags + 4;
      }
      var fh := AskHost(OpenFile(path, aflags));
      if fh >= 0 {
        openfiles[fd] := Fdent(fh, 0);
        r := fd;
      } else {
        r := Error(fh);
      }
    }

    method Stat(path: string) returns (res: int)
      requires Valid()
      modifies this`trace, this`errno, openfiles
      ensures (State(), res) == FileTable.Stat(host, old(State()), path)
      decreases false, 2
    {
      var fd := SwiOpen(path, READ_ONLY);
      if fd == -1 {
        return -1;
      }
      res := SwiStat(fd);
      var ignored := Close(fd);
    }

    method SwiStat(fd: int) returns (res: int)
      requires Valid()
      modifies this`trace, this`errno
      ensures (State(), res) == FileTable.SwiStat(host, old(State()), fd)
    {
      var found := FindSlot(fd);
      if !found {
        errno := Some(EBADF);
        return -1;
      }
      res := AskChecked(Length(openfiles[fd].handle));
      if res != -1 {
        res := 0;
      }
    }

    method Close(fd: int) returns (res: int)
      requires Valid()
      modifies this`trace, this`errno, openfiles
      ensures (State(), res) == FileTable.Close(host, old(State()), fd)
    {
      var found := FindSlot(fd);
      if !found {
        errno := Some(EBADF);
        return -1;
      }
      if (fd == 1 || fd == 2) && openfiles[1].handle == openfiles[2].handle {
        openfiles[fd] := openfiles[fd].(handle := -1);
        return 0;
      }
      res := AskChecked(CloseFile(openfiles[fd].handle));
      if res == 0 {
        openfiles[fd] := openfiles[fd].(handle := -1);
      }
    }

    method Read(fd: int, count: int) returns (r: int)
      requires Valid()
      modifies this`trace, this`errno, openfiles
      ensures (State(), r) == FileTable.Read(host, old(State()), fd, count)
    {
      var found := FindSlot(fd);
      if !found {
        errno := Some(EBADF);
        return -1;
      }
      var res := AskChecked(ReadBytes(openfiles[fd].handle, count));
      if res == -1 {
        return res;
      }
      openfiles[fd] := openfiles[fd].(pos := Wrap(openfiles[fd].pos + (count - res)));
      r := count - res;
    }

    method Write(fd: int, count: int) returns (r: int)
      requires Valid()
      modifies this`trace, this`errno, openfiles
      ensures (State(), r) == FileTable.Write(host, old(State()), fd, count)
    {
      var found := FindSlot(fd);
      if !found {
        errno := Some(EBADF);
        return -1;
      }
      var res := AskChecked(WriteBytes(openfiles[fd].handle, count));
      if res < 0 {
        return -1;
      }
      openfiles[fd] := openfiles[fd].(pos := Wrap(openfiles[fd].pos + (count - res)));
      r := count - res;
      if r == 0 {
        r := Error(0);
      }
    }

    method SwiLseek(fd: int, offset: int, whence: int) returns (r: int)
      requires Valid()
      modifies this`trace, this`errno, openfiles
      ensures (State(), r) == FileTable.Seek(host, old(State()), fd, offset, whence)
    {
      var ptr, dir := offset, whence;
      var found := FindSlot(fd);
      if !found {
        errno := Some(EBADF);
        return -1;
      }
      if dir != SEEK_CUR && dir != SEEK_SET && dir != SEEK_END {
        errno := Some(EINVAL);
        return -1;
      }
      if dir == SEEK_CUR {
        ptr := Wrap(openfiles[fd].pos + ptr);
        if ptr < 0 {
          errno := Some(EINVAL);
          if openfiles[fd].pos > 0 && ptr > 0 {
            errno := Some(EOVERFLOW);
          }
          return -1;
        }
        dir := SEEK_SET;
      }
      if dir == SEEK_END {
        var size := AskChecked(Length(openfiles[fd].handle));
        if size == -1 {
          return -1;
        }
        ptr := Wrap(ptr + size);
      }
      var res := AskChecked(SeekTo(openfiles[fd].handle, ptr));
      if res >= 0 {
        openfiles[fd] := openfiles[fd].(pos := ptr);
        r := ptr;
      } else {
        r := -1;
      }
    }
  }
}
