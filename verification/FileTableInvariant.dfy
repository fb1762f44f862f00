/**
 What every run of the monitor calls keeps: which slot holds which host handle
 (tce/newlib-1.17.0/libgloss/arm/syscalls.c:100-204, 452-582 and 663-677).
 */
module FileTableInvariant {
  import opened Wrappers
  import opened FileTable

  ghost predicate Holds(files: seq<Fdent>, h: int) {
    exists i :: 0 <= i < |files| && files[i].handle == h
  }

  /**
   Each used slot holds a handle that is open on the host, each handle open on the host is held
   by some slot, and only slots 1 and 2 may share one.
   */
  ghost predicate TableOk(s: Sys) {
    && |s.files| == MAX_OPEN_FILES
    && (forall i :: 0 <= i < |s.files| && s.files[i].handle != -1 ==> s.files[i].handle in OpenHandles(s.trace))
    && (forall h :: h in OpenHandles(s.trace) ==> Holds(s.files, h))
    && (forall i, j :: 0 <= i < j < |s.files| && s.files[i].handle == s.files[j].handle && s.files[i].handle != -1 ==>
          i == 1 && j == 2)
  }

  /** The monitor handles have been initialised: three requests were made. */
  predicate Started(s: Sys) {
    |s.trace| >= 3
  }

  lemma HandlesAreNatural(trace: seq<Event>)
    ensures forall h :: h in OpenHandles(trace) ==> h >= 0
  {
  }

  function SameHandles(a: seq<Fdent>, b: seq<Fdent>): bool {
    |a| == |b| && forall i :: 0 <= i < |a| ==> a[i].handle == b[i].handle
  }

  /** The table part of the state only: handles, and what the host holds open. */
  ghost predicate SameTable(a: Sys, b: Sys) {
    SameHandles(a.files, b.files) && OpenHandles(a.trace) == OpenHandles(b.trace)
  }

  lemma SameTableOk(a: Sys, b: Sys)
    requires SameTable(a, b) && TableOk(a)
    ensures TableOk(b)
  {
    forall h | h in OpenHandles(b.trace)
      ensures Holds(b.files, h)
    {
      assert Holds(a.files, h);
      var i :| 0 <= i < |a.files| && a.files[i].handle == h;
      assert b.files[i].handle == h;
    }
  }

  lemma AskHandles(host: Host, s: Sys, req: Request)
    ensures var (s', reply) := Ask(host, s, req);
            && s'.files == s.files && s'.errno == s.errno && |s'.trace| == |s.trace| + 1 && reply == host(s.trace, req)
            && OpenHandles(s'.trace)
               == if req.OpenFile? && reply >= 0 then OpenHandles(s.trace) + {reply}
                  else if req.CloseFile? && reply == 0 then OpenHandles(s.trace) - {req.handle}
                  else OpenHandles(s.trace)
  {
    var (s', reply) := Ask(host, s, req);
    assert s'.trace[..|s'.trace| - 1] == s.trace;
  }

  lemma ErrorHandles(host: Host, s: Sys, result: int)
    ensures var (s', r) := Error(host, s, result); s'.files == s.files && SameTable(s, s') && |s'.trace| > |s.trace|
  {
    AskHandles(host, s, GetErrno);
  }

  lemma AskCheckedHandles(host: Host, s: Sys, req: Request)
    ensures var (s', reply) := AskChecked(host, s, req);
            && s'.files == s.files && |s'.trace| > |s.trace| && reply == host(s.trace, req)
            && OpenHandles(s'.trace)
               == if req.OpenFile? && reply >= 0 then OpenHandles(s.trace) + {reply}
                  else if req.CloseFile? && reply == 0 then OpenHandles(s.trace) - {req.handle}
                  else OpenHandles(s.trace)
  {
    AskHandles(host, s, req);
    var (s', reply) := Ask(host, s, req);
    ErrorHandles(host, s', -1);
  }

  // ---------------------------------------------------------------------------------------
  // Opening and closing
  // ---------------------------------------------------------------------------------------

  lemma FillSlot(s: Sys, t: Sys, fd: nat, h: int)
    requires TableOk(s) && fd < |s.files| && s.files[fd].handle == -1
    requires h >= 0 && h !in OpenHandles(s.trace) && OpenHandles(t.trace) == OpenHandles(s.trace) + {h}
    requires t.files == s.files[fd := Fdent(h, 0)]
    ensures TableOk(t)
  {
    HandlesAreNatural(s.trace);
    forall k | k in OpenHandles(t.trace)
      ensures Holds(t.files, k)
    {
      if k == h {
        assert t.files[fd].handle == h;
      } else {
        assert Holds(s.files, k);
        var i :| 0 <= i < |s.files| && s.files[i].handle == k;
        assert t.files[i].handle == k;
      }
    }
  }

  lemma OpenInSlotKeeps(host: Host, s: Sys, fd: nat, path: string, flags: Flags)
    requires GivesFreshHandles(host) && TableOk(s) && Started(s) && fd < |s.files| && s.files[fd].handle == -1
    ensures var (t, r) := OpenInSlot(host, s, fd, path, flags);
            && TableOk(t) && Started(t)
            && var h := host(s.trace, OpenFile(path, OpenMode(flags)));
            && (r == -1 <==> h == -1) && (r != -1 ==> r == fd)
            && (h == -1 ==> SameTable(s, t) && t.files == s.files)
            && (h != -1 ==>
                  && h >= 0 && h !in OpenHandles(s.trace)
                  && t.files == s.files[fd := Fdent(h, 0)] && OpenHandles(t.trace) == OpenHandles(s.trace) + {h})
  {
    var req := OpenFile(path, OpenMode(flags));
    AskHandles(host, s, req);
    var (t, h) := Ask(host, s, req);
    if h >= 0 {
      FillSlot(s, SetSlot(t, fd, Fdent(h, 0)), fd, h);
    } else {
      ErrorHandles(host, t, h);
      SameTableOk(s, Error(host, t, h).0);
    }
  }

  lemma FreeSlot(s: Sys, t: Sys, fd: nat, h: int)
    requires TableOk(s) && fd < |s.files| && s.files[fd].handle == h != -1
    requires t.files == s.files[fd := s.files[fd].(handle := -1)]
    requires var shared := (fd == 1 || fd == 2) && s.files[1].handle == s.files[2].handle;
             OpenHandles(t.trace) == if shared then OpenHandles(s.trace) else OpenHandles(s.trace) - {h}
    ensures TableOk(t)
  {
    forall i | 0 <= i < |t.files| && t.files[i].handle != -1
      ensures t.files[i].handle in OpenHandles(t.trace)
    {
      assert s.files[i].handle == t.files[i].handle;
      if i < fd {
        assert s.files[i].handle == h ==> i == 1 && fd == 2;
      } else {
        assert s.files[i].handle == h ==> fd == 1 && i == 2;
      }
    }
    forall k | k in OpenHandles(t.trace)
      ensures Holds(t.files, k)
    {
      assert Holds(s.files, k);
      var i :| 0 <= i < |s.files| && s.files[i].handle == k;
      if i == fd {
        assert t.files[3 - fd].handle == k;
      } else {
        assert t.files[i].handle == k;
      }
    }
  }

  /** Closing keeps the table right, whatever the host answers. */
  lemma CloseKeeps(host: Host, s: Sys, fd: int)
    requires TableOk(s) && Started(s)
    ensures TableOk(Close(host, s, fd).0) && Started(Close(host, s, fd).0)
  {
    HandlesAreNatural(s.trace);
    if IsOpen(s.files, fd) {
      var h := s.files[fd].handle;
      if (fd == 1 || fd == 2) && s.files[1].handle == s.files[2].handle {
        FreeSlot(s, Close(host, s, fd).0, fd, h);
      } else {
        AskCheckedHandles(host, s, CloseFile(h));
        var (t, res) := AskChecked(host, s, CloseFile(h));
        if res == 0 {
          FreeSlot(s, Close(host, s, fd).0, fd, h);
        } else {
          SameTableOk(s, t);
        }
      }
    } else {
      SameTableOk(s, Close(host, s, fd).0);
    }
  }

  lemma SwiStatKeeps(host: Host, s: Sys, fd: int)
    ensures var (t, res) := SwiStat(host, s, fd);
            && t.files == s.files && SameTable(s, t) && |t.trace| >= |s.trace|
            && (IsOpen(s.files, fd) ==> (res == -1 <==> host(s.trace, Length(s.files[fd].handle)) == -1))
  {
    if IsOpen(s.files, fd) {
      AskCheckedHandles(host, s, Length(s.files[fd].handle));
    }
  }

  /** The state in which a stat's close finds the host, if its open succeeds. */
  function BeforeClose(host: Host, s: Sys, path: string): Sys
    requires NewSlot(s.files) != -1
  {
    var (held, slot) := OpenInSlot(host, s, NewSlot(s.files), path, READ_ONLY);
    SwiStat(host, held, slot).0
  }

  /** The host opens the file for a stat but refuses to close it again. */
  ghost predicate StatKeepsHandle(host: Host, s: Sys, path: string) {
    && NewSlot(s.files) != -1
    && host(s.trace, OpenFile(path, 0)) >= 0
    && host(BeforeClose(host, s, path).trace, CloseFile(host(s.trace, OpenFile(path, 0)))) != 0
  }

  lemma ClosedSlot(host: Host, s: Sys, fd: nat, h: int)
    requires TableOk(s) && fd < |s.files| && s.files[fd].handle == h >= 0
    requires forall i :: 0 <= i < |s.files| && i != fd ==> s.files[i].handle != h
    ensures var t := Close(host, s, fd).0;
            && (forall i :: 0 <= i < |s.files| && i != fd ==> t.files[i] == s.files[i])
            && (t.files[fd].handle == if host(s.trace, CloseFile(h)) == 0 then -1 else h)
  {
    AskCheckedHandles(host, s, CloseFile(h));
  }

  /**
   The slot a stat borrows is free again afterwards unless the host opened the file and refused
   to close it; the table stays right in either case.
   */
  lemma StatKeeps(host: Host, s: Sys, path: string)
    requires GivesFreshHandles(host) && TableOk(s) && Started(s)
    ensures var t := Stat(host, s, path).0;
            && TableOk(t) && Started(t)
            && (NewSlot(s.files) != -1 ==>
                  (t.files[NewSlot(s.files)].handle == -1 <==> !StatKeepsHandle(host, s, path)))
  {
    var fd := NewSlot(s.files);
    if fd == -1 {
      SameTableOk(s, Stat(host, s, path).0);
    } else {
      OpenInSlotKeeps(host, s, fd, path, READ_ONLY);
      var (held, slot) := OpenInSlot(host, s, fd, path, READ_ONLY);
      if slot != -1 {
        SwiStatKeeps(host, held, slot);
        var (sized, res) := SwiStat(host, held, slot);
        SameTableOk(held, sized);
        CloseKeeps(host, sized, slot);
        ClosedSlot(host, sized, slot, held.files[slot].handle);
      }
    }
  }

  // ---------------------------------------------------------------------------------------
  // Exclusive create
  // ---------------------------------------------------------------------------------------

  /**
   An exclusive create loses a handle: its stat opened the file, could not tell its length,
   could not close it, and then the create itself succeeded in the same slot.
   */
  ghost predicate LosesHandle(host: Host, s: Sys, path: string, flags: Flags) {
    && flags.creat && flags.excl
    && StatKeepsHandle(host, s, path)
    && Stat(host, s, path).1 == -1
    && host(Stat(host, s, path).0.trace, OpenFile(path, OpenMode(flags))) >= 0
  }

  lemma Overfill(host: Host, s: Sys, fd: nat, path: string, flags: Flags)
    requires GivesFreshHandles(host) && TableOk(s) && Started(s) && fd < |s.files|
    requires s.files[fd].handle >= 0
    requires forall i :: 0 <= i < |s.files| && i != fd ==> s.files[i].handle != s.files[fd].handle
    ensures var t := OpenInSlot(host, s, fd, path, flags).0;
            TableOk(t) <==> host(s.trace, OpenFile(path, OpenMode(flags))) < 0
  {
    var req, old' := OpenFile(path, OpenMode(flags)), s.files[fd].handle;
    AskHandles(host, s, req);
    var (t, h) := Ask(host, s, req);
    if h >= 0 {
      var u := OpenInSlot(host, s, fd, path, flags).0;
      assert old' in OpenHandles(u.trace);
      assert !Holds(u.files, old');
    } else {
      ErrorHandles(host, t, h);
      SameTableOk(s, Error(host, t, h).0);
    }
  }

  lemma StatHandleIsAlone(host: Host, s: Sys, path: string)
    requires GivesFreshHandles(host) && TableOk(s) && Started(s) && StatKeepsHandle(host, s, path)
    ensures var t, fd := Stat(host, s, path).0, NewSlot(s.files);
            && t.files[fd].handle >= 0
            && forall i :: 0 <= i < |t.files| && i != fd ==> t.files[i].handle != t.files[fd].handle
  {
    var fd := NewSlot(s.files);
    OpenInSlotKeeps(host, s, fd, path, READ_ONLY);
    var (held, slot) := OpenInSlot(host, s, fd, path, READ_ONLY);
    SwiStatKeeps(host, held, slot);
    var (sized, res) := SwiStat(host, held, slot);
    SameTableOk(held, sized);
    ClosedSlot(host, sized, slot, held.files[slot].handle);
  }

  /** An open keeps the table right exactly when it does not lose a handle that way. */
  lemma OpenKeepsIff(host: Host, s: Sys, path: string, flags: Flags)
    requires GivesFreshHandles(host) && TableOk(s) && Started(s)
    ensures TableOk(Open(host, s, path, flags).0) <==> !LosesHandle(host, s, path, flags)
    ensures Started(Open(host, s, path, flags).0)
  {
    var fd := NewSlot(s.files);
    if fd == -1 {
      SameTableOk(s, Open(host, s, path, flags).0);
    } else if flags.creat && flags.excl {
      StatKeeps(host, s, path);
      var (looked, res) := Stat(host, s, path);
      if res != -1 {
        SameTableOk(looked, Open(host, s, path, flags).0);
      } else if StatKeepsHandle(host, s, path) {
        StatHandleIsAlone(host, s, path);
        Overfill(host, looked, fd, path, flags);
        OpenInSlotStarted(host, looked, fd, path, flags);
      } else {
        OpenInSlotKeeps(host, looked, fd, path, flags);
      }
    } else {
      OpenInSlotKeeps(host, s, fd, path, flags);
    }
  }

  lemma OpenInSlotStarted(host: Host, s: Sys, fd: nat, path: string, flags: Flags)
    requires Started(s) && fd < |s.files|
    ensures Started(OpenInSlot(host, s, fd, path, flags).0)
  {
    var req := OpenFile(path, OpenMode(flags));
    AskHandles(host, s, req);
    ErrorHandles(host, Ask(host, s, req).0, Ask(host, s, req).1);
  }

  // ---------------------------------------------------------------------------------------
  // Runs
  // ---------------------------------------------------------------------------------------

  datatype Command =
    | DoOpen(path: string, flags: Flags)
    | DoClose(fd: int)
    | DoStat(path: string)
    | DoFstat(fd: int)
    | DoRead(fd: int, count: int)
    | DoWrite(fd: int, count: int)
    | DoSeek(fd: int, ptr: int, dir: int)

  function Perform(host: Host, s: Sys, c: Command): (Sys, int) {
    match c
    case DoOpen(path, flags) => Open(host, s, path, flags)
    case DoClose(fd) => Close(host, s, fd)
    case DoStat(path) => Stat(host, s, path)
    case DoFstat(fd) => SwiStat(host, s, fd)
    case DoRead(fd, count) => Read(host, s, fd, count)
    case DoWrite(fd, count) => Write(host, s, fd, count)
    case DoSeek(fd, ptr, dir) => Seek(host, s, fd, ptr, dir)
  }

  function RunFrom(host: Host, s: Sys, commands: seq<Command>): Sys {
    if commands == [] then s
    else Perform(host, RunFrom(host, s, commands[..|commands| - 1]), commands[|commands| - 1]).0
  }

  function Run(host: Host, commands: seq<Command>): Sys {
    RunFrom(host, Initialise(host), commands)
  }

  lemma ReadKeeps(host: Host, s: Sys, fd: int, count: int)
    ensures SameTable(s, Read(host, s, fd, count).0)
  {
    if IsOpen(s.files, fd) {
      AskCheckedHandles(host, s, ReadBytes(s.files[fd].handle, count));
    }
  }

  lemma WriteKeeps(host: Host, s: Sys, fd: int, count: int)
    ensures SameTable(s, Write(host, s, fd, count).0)
  {
    if IsOpen(s.files, fd) {
      var entry := s.files[fd];
      AskCheckedHandles(host, s, WriteBytes(entry.handle, count));
      var (t, res) := AskChecked(host, s, WriteBytes(entry.handle, count));
      ErrorHandles(host, SetSlot(t, fd, entry.(pos := Wrap(entry.pos + (count - res)))), 0);
    }
  }

  lemma SeekAbsoluteKeeps(host: Host, s: Sys, fd: nat, ptr: int)
    requires fd < |s.files|
    ensures SameTable(s, SeekAbsolute(host, s, fd, ptr).0)
  {
    AskCheckedHandles(host, s, SeekTo(s.files[fd].handle, ptr));
  }

  lemma SeekEndKeeps(host: Host, s: Sys, fd: int, ptr: int)
    requires IsOpen(s.files, fd)
    ensures SameTable(s, Seek(host, s, fd, ptr, SEEK_END).0)
  {
    var (t, size) := AskChecked(host, s, Length(s.files[fd].handle));
    var u := SeekAbsolute(host, t, fd, Wrap(ptr + size)).0;
    AskCheckedHandles(host, s, Length(s.files[fd].handle));
    SeekAbsoluteKeeps(host, t, fd, Wrap(ptr + size));
    assert Seek(host, s, fd, ptr, SEEK_END).0 == if size == -1 then t else u;
  }

  lemma SeekKeeps(host: Host, s: Sys, fd: int, ptr: int, dir: int)
    ensures SameTable(s, Seek(host, s, fd, ptr, dir).0)
  {
    if IsOpen(s.files, fd) {
      if dir == SEEK_CUR {
        SeekAbsoluteKeeps(host, s, fd, Wrap(s.files[fd].pos + ptr));
      } else if dir == SEEK_END {
        SeekEndKeeps(host, s, fd, ptr);
      } else {
        SeekAbsoluteKeeps(host, s, fd, ptr);
      }
    }
  }

  lemma PerformKeepsIff(host: Host, s: Sys, c: Command)
    requires GivesFreshHandles(host) && TableOk(s) && Started(s)
    ensures Started(Perform(host, s, c).0)
    ensures TableOk(Perform(host, s, c).0) <==> !(c.DoOpen? && LosesHandle(host, s, c.path, c.flags))
  {
    match c {
      case DoOpen(path, flags) => OpenKeepsIff(host, s, path, flags);
      case DoClose(fd) => CloseKeeps(host, s, fd);
      case DoStat(path) => StatKeeps(host, s, path);
      case DoFstat(fd) =>
        SwiStatKeeps(host, s, fd);
        SameTableOk(s, SwiStat(host, s, fd).0);
      case DoRead(fd, count) =>
        ReadKeeps(host, s, fd, count);
        SameTableOk(s, Read(host, s, fd, count).0);
      case DoWrite(fd, count) =>
        WriteKeeps(host, s, fd, count);
        SameTableOk(s, Write(host, s, fd, count).0);
      case DoSeek(fd, ptr, dir) =>
        SeekKeeps(host, s, fd, ptr, dir);
        SameTableOk(s, Seek(host, s, fd, ptr, dir).0);
    }
  }

  lemma InitialisedOk(host: Host)
    requires GivesFreshHandles(host)
    ensures TableOk(Initialise(host)) && Started(Initialise(host))
  {
    var none := Sys([], [], None);
    var (s1, input) := Ask(host, none, OpenFile(":tt", 0));
    var (s2, output) := Ask(host, s1, OpenFile(":tt", 4));
    var (s3, error) := Ask(host, s2, OpenFile(":tt", APPEND));
    AskHandles(host, none, OpenFile(":tt", 0));
    AskHandles(host, s1, OpenFile(":tt", 4));
    AskHandles(host, s2, OpenFile(":tt", APPEND));
    assert s2.trace[1].reply == output;
    var s := Initialise(host);
    assert s.files[0].handle == input && s.files[1].handle == output;
    assert s.files[2].handle == if error == -1 then output else error;
    forall h | h in OpenHandles(s.trace)
      ensures Holds(s.files, h)
    {
      assert h == input || h == output || h == error;
    }
  }

  /** No exclusive create of the run loses a handle. */
  ghost predicate NothingLost(host: Host, commands: seq<Command>) {
    forall n :: 0 <= n < |commands| && commands[n].DoOpen? ==>
      !LosesHandle(host, Run(host, commands[..n]), commands[n].path, commands[n].flags)
  }

  lemma RunStep(host: Host, s: Sys, commands: seq<Command>, n: nat)
    requires n < |commands|
    ensures RunFrom(host, s, commands[..n + 1]) == Perform(host, RunFrom(host, s, commands[..n]), commands[n]).0
  {
    assert commands[..n + 1][..n] == commands[..n];
  }

  lemma {:induction false} RunStarted(host: Host, commands: seq<Command>)
    ensures Started(Run(host, commands))
    decreases |commands|
  {
    if commands != [] {
      RunStarted(host, commands[..|commands| - 1]);
    }
  }

  lemma NothingLostPrefix(host: Host, commands: seq<Command>, m: nat)
    requires m <= |commands| && NothingLost(host, commands)
    ensures NothingLost(host, commands[..m])
    ensures m < |commands| && commands[m].DoOpen? ==>
              !LosesHandle(host, Run(host, commands[..m]), commands[m].path, commands[m].flags)
  {
    forall n | 0 <= n < m
      ensures commands[..m][..n] == commands[..n]
    {
    }
  }

  lemma {:induction false} RunKeeps(host: Host, commands: seq<Command>)
    requires GivesFreshHandles(host) && NothingLost(host, commands)
    ensures TableOk(Run(host, commands))
    decreases |commands|
  {
    InitialisedOk(host);
    if commands != [] {
      var m := |commands| - 1;
      NothingLostPrefix(host, commands, m);
      RunKeeps(host, commands[..m]);
      RunStarted(host, commands[..m]);
      PerformKeepsIff(host, Run(host, commands[..m]), commands[m]);
    }
  }

  /**
   In every run of opens, closes, stats, reads, writes and seeks over a host that gives out fresh
   handles, the table is right after every command exactly when no exclusive create loses a
   handle.
   */
  lemma RunKeepsIff(host: Host, commands: seq<Command>)
    requires GivesFreshHandles(host)
    ensures (forall n :: 0 <= n <= |commands| ==> TableOk(Run(host, commands[..n]))) <==> NothingLost(host, commands)
  {
    if NothingLost(host, commands) {
      forall n | 0 <= n <= |commands|
        ensures TableOk(Run(host, commands[..n]))
      {
        NothingLostPrefix(host, commands, n);
        RunKeeps(host, commands[..n]);
      }
    }
    if forall n :: 0 <= n <= |commands| ==> TableOk(Run(host, commands[..n])) {
      forall n | 0 <= n < |commands| && commands[n].DoOpen?
        ensures !LosesHandle(host, Run(host, commands[..n]), commands[n].path, commands[n].flags)
      {
        RunStarted(host, commands[..n]);
        RunStep(host, Initialise(host), commands, n);
        assert TableOk(Run(host, commands[..n + 1]));
        PerformKeepsIff(host, Run(host, commands[..n]), commands[n]);
      }
    }
  }

  /** A host whose closes succeed never makes a create lose a handle. */
  lemma RunKeepsWhenClosesSucceed(host: Host, commands: seq<Command>)
    requires GivesFreshHandles(host) && ClosesSucceed(host)
    ensures TableOk(Run(host, commands))
  {
    RunKeeps(host, commands);
  }

  // ---------------------------------------------------------------------------------------
  // A handle that is lost
  // ---------------------------------------------------------------------------------------

  /** A number above every handle given out. */
  function Above(trace: seq<Event>): (n: nat)
    ensures forall h :: h in OpenHandles(trace) ==> h < n
  {
    if trace == [] then 0
    else
      var n, reply := Above(trace[..|trace| - 1]), trace[|trace| - 1].reply;
      if reply >= n then reply + 1 else n
  }

  /** Opens everything, and refuses to tell a length and to close. */
  function StubbornReply(trace: seq<Event>, req: Request): (reply: int)
    ensures reply >= -1
    ensures req.OpenFile? ==> reply !in OpenHandles(trace)
  {
    if req.OpenFile? then Above(trace) else -1
  }

  lemma StubbornIsFresh()
    ensures GivesFreshHandles(StubbornReply)
  {
    var host: Host := StubbornReply;
    assert forall trace: seq<Event>, path: string, mode: nat ::
        host(trace, OpenFile(path, mode)) == StubbornReply(trace, OpenFile(path, mode));
    assert GivesFreshHandles(host);
  }

  lemma FourthSlotIsFree()
    ensures NewSlot(Initialise(StubbornReply).files) == 3
  {
    var files := Initialise(StubbornReply).files;
    assert files[0].handle >= 0 && files[1].handle >= 0 && files[2].handle >= 0 && files[3].handle == -1;
    assert FirstFree(files, 3) == 3;
    assert FirstFree(files, 2) == 3;
    assert FirstFree(files, 1) == 3;
  }

  lemma StubbornStat(s: Sys, path: string)
    requires TableOk(s) && Started(s) && NewSlot(s.files) != -1 && GivesFreshHandles(StubbornReply)
    ensures StatKeepsHandle(StubbornReply, s, path) && Stat(StubbornReply, s, path).1 == -1
  {
    var fd := NewSlot(s.files);
    OpenInSlotKeeps(StubbornReply, s, fd, path, READ_ONLY);
    var (held, slot) := OpenInSlot(StubbornReply, s, fd, path, READ_ONLY);
    SwiStatKeeps(StubbornReply, held, slot);
  }

  /** On such a host an exclusive create loses the handle its stat opened. */
  lemma HandleCanBeLost(path: string, flags: Flags)
    requires flags.creat && flags.excl
    ensures GivesFreshHandles(StubbornReply)
    ensures var s := Initialise(StubbornReply);
            LosesHandle(StubbornReply, s, path, flags) && !TableOk(Open(StubbornReply, s, path, flags).0)
  {
    StubbornIsFresh();
    InitialisedOk(StubbornReply);
    FourthSlotIsFree();
    StubbornStat(Initialise(StubbornReply), path);
    OpenKeepsIff(StubbornReply, Initialise(StubbornReply), path, flags);
  }
}
