/**
 Tracked file positions (tce/newlib-1.17.0/libgloss/arm/syscalls.c:270-450): the position a slot
 records is the offset of its file on the host, so that seeking relative to the record is
 seeking relative to the file.
 */
module FilePositions {
  import opened Wrappers
  import opened FileTable
  import opened FileTableInvariant

  /** The offset of a file on the host: zero when opened, moved by what each call reports. */
  function Offset(trace: seq<Event>, h: int): int {
    if trace == [] then 0
    else
      var before, e := Offset(trace[..|trace| - 1], h), trace[|trace| - 1];
      match e.request
      case OpenFile(_, _) => if e.reply == h then 0 else before
      case SeekTo(k, position) => if k == h && e.reply >= 0 then position else before
      case ReadBytes(k, count) => if k == h && e.reply != -1 then before + (count - e.reply) else before
      case WriteBytes(k, count) => if k == h && e.reply >= 0 then before + (count - e.reply) else before
      case _ => before
  }

  /** The file was opened for appending: its writes do not start at its offset. */
  predicate Appends(trace: seq<Event>, h: int) {
    trace != [] &&
    var e := trace[|trace| - 1];
    if e.request.OpenFile? && e.reply == h then e.request.mode >= APPEND else Appends(trace[..|trace| - 1], h)
  }

  /** The terminal handle that standard output and error output were given in common, until it
      is closed. */
  function Shared(trace: seq<Event>): Option<int> {
    if |trace| < 3 then None
    else if |trace| == 3 then
      if trace[1].reply >= 0 && (trace[2].reply == trace[1].reply || trace[2].reply == -1) then Some(trace[1].reply) else None
    else
      var before, e := Shared(trace[..|trace| - 1]), trace[|trace| - 1];
      if e.request.CloseFile? && e.reply == 0 && before == Some(e.request.handle) then None else before
  }

  ghost predicate PrivateFile(s: Sys, i: nat)
    requires i < |s.files|
  {
    var h := s.files[i].handle;
    h != -1 && Shared(s.trace) != Some(h) && !Appends(s.trace, h)
  }

  /** Recorded positions are host offsets, as far as a C int can hold them. */
  ghost predicate PositionsOk(s: Sys) {
    forall i: nat :: i < |s.files| && PrivateFile(s, i) ==> s.files[i].pos == Wrap(Offset(s.trace, s.files[i].handle))
  }

  ghost predicate SharingKnown(s: Sys) {
    && (|s.files| > 2 && s.files[1].handle == s.files[2].handle && s.files[1].handle != -1 ==>
          Shared(s.trace) == Some(s.files[1].handle))
    && (Shared(s.trace).Some? ==> Shared(s.trace).value in OpenHandles(s.trace))
  }

  ghost predicate Tracked(s: Sys) {
    TableOk(s) && Started(s) && SharingKnown(s) && PositionsOk(s)
  }

  // ---------------------------------------------------------------------------------------
  // One request
  // ---------------------------------------------------------------------------------------

  lemma AskEffect(host: Host, s: Sys, req: Request, h: int)
    requires Started(s)
    ensures var (t, reply) := Ask(host, s, req);
            && Appends(t.trace, h) == (if req.OpenFile? && reply == h then req.mode >= APPEND else Appends(s.trace, h))
            && Shared(t.trace) == (if req.CloseFile? && reply == 0 && Shared(s.trace) == Some(req.handle) then None
                                   else Shared(s.trace))
            && Offset(t.trace, h)
               == match req {
                    case OpenFile(_, _) => if reply == h then 0 else Offset(s.trace, h)
                    case SeekTo(k, position) => if k == h && reply >= 0 then position else Offset(s.trace, h)
                    case ReadBytes(k, count) => Offset(s.trace, h) + if k == h && reply != -1 then count - reply else 0
                    case WriteBytes(k, count) => Offset(s.trace, h) + if k == h && reply >= 0 then count - reply else 0
                    case _ => Offset(s.trace, h)
                  }
  {
    var (t, reply) := Ask(host, s, req);
    assert t.trace[..|t.trace| - 1] == s.trace;
  }

  /** Requests that neither open, close nor move a file. */
  predicate IsQuiet(req: Request) {
    req.Length? || req.GetErrno?
  }

  lemma QuietKeeps(host: Host, s: Sys, req: Request)
    requires Tracked(s) && IsQuiet(req)
    ensures Tracked(Ask(host, s, req).0)
  {
    var t := Ask(host, s, req).0;
    AskHandles(host, s, req);
    SameTableOk(s, t);
    forall i: nat | i < |t.files| && PrivateFile(t, i)
      ensures t.files[i].pos == Wrap(Offset(t.trace, t.files[i].handle))
    {
      AskEffect(host, s, req, t.files[i].handle);
      assert PrivateFile(s, i);
    }
    AskEffect(host, s, req, 0);
  }

  lemma ErrnoKeeps(s: Sys, t: Sys)
    requires Tracked(s) && t.files == s.files && t.trace == s.trace
    ensures Tracked(t)
  {
    SameTableOk(s, t);
    forall i: nat | i < |t.files| && PrivateFile(t, i)
      ensures t.files[i].pos == Wrap(Offset(t.trace, t.files[i].handle))
    {
      assert PrivateFile(s, i);
    }
  }

  lemma ErrorKeeps(host: Host, s: Sys, result: int)
    requires Tracked(s)
    ensures Tracked(Error(host, s, result).0)
  {
    QuietKeeps(host, s, GetErrno);
    ErrnoKeeps(Ask(host, s, GetErrno).0, Error(host, s, result).0);
  }

  lemma CheckErrorKeeps(host: Host, s: Sys, result: int)
    requires Tracked(s)
    ensures Tracked(CheckError(host, s, result).0)
  {
    ErrorKeeps(host, s, -1);
  }

  // ---------------------------------------------------------------------------------------
  // Reads, writes and seeks
  // ---------------------------------------------------------------------------------------

  lemma WrapAdd(a: int, b: int)
    ensures Wrap(Wrap(a) + b) == Wrap(a + b)
  {
  }

  /** A value of a C int. */
  predicate IsInt(x: int) {
    -0x8000_0000 <= x < 0x8000_0000
  }

  predicate Moves(req: Request, h: int) {
    (req.SeekTo? || req.ReadBytes? || req.WriteBytes?) && req.handle == h
  }

  /** Moving one file and recording its offset. */
  lemma MoveKeepsTracked(host: Host, s: Sys, req: Request, fd: nat, p: int)
    requires Tracked(s) && IsOpen(s.files, fd) && Moves(req, s.files[fd].handle)
    requires var t := Ask(host, s, req).0;
             s.files[fd].pos == Wrap(Offset(s.trace, s.files[fd].handle)) ==> p == Wrap(Offset(t.trace, s.files[fd].handle))
    ensures Tracked(SetSlot(Ask(host, s, req).0, fd, s.files[fd].(pos := p)))
  {
    var t, h := Ask(host, s, req).0, s.files[fd].handle;
    var u := SetSlot(t, fd, s.files[fd].(pos := p));
    AskHandles(host, s, req);
    SameTableOk(s, u);
    AskEffect(host, s, req, h);
    forall i: nat | i < |u.files| && PrivateFile(u, i)
      ensures u.files[i].pos == Wrap(Offset(u.trace, u.files[i].handle))
    {
      AskEffect(host, s, req, u.files[i].handle);
      assert PrivateFile(s, i);
      if i != fd {
        OthersDiffer(s, i, fd);
      }
    }
  }

  lemma OthersDiffer(s: Sys, i: nat, fd: nat)
    requires TableOk(s) && SharingKnown(s) && i < |s.files| && fd < |s.files| && i != fd && PrivateFile(s, i)
    ensures s.files[i].handle != s.files[fd].handle
  {
  }

  lemma UnmovedKeepsTracked(host: Host, s: Sys, req: Request, fd: nat)
    requires Tracked(s) && IsOpen(s.files, fd) && Moves(req, s.files[fd].handle)
    requires Offset(Ask(host, s, req).0.trace, s.files[fd].handle) == Offset(s.trace, s.files[fd].handle)
    ensures Tracked(Ask(host, s, req).0)
  {
    MoveKeepsTracked(host, s, req, fd, s.files[fd].pos);
    var t := Ask(host, s, req).0;
    assert SetSlot(t, fd, s.files[fd].(pos := s.files[fd].pos)).files == t.files;
  }

  lemma ReadKeepsTracked(host: Host, s: Sys, fd: int, count: int)
    requires Tracked(s)
    ensures Tracked(Read(host, s, fd, count).0)
  {
    if IsOpen(s.files, fd) {
      var entry := s.files[fd];
      var req := ReadBytes(entry.handle, count);
      var (t, res) := Ask(host, s, req);
      AskEffect(host, s, req, entry.handle);
      if res == -1 {
        UnmovedKeepsTracked(host, s, req, fd);
        CheckErrorKeeps(host, t, res);
      } else {
        WrapAdd(Offset(s.trace, entry.handle), count - res);
        MoveKeepsTracked(host, s, req, fd, Wrap(entry.pos + (count - res)));
      }
    } else {
      ErrnoKeeps(s, Read(host, s, fd, count).0);
    }
  }

  lemma WriteKeepsTracked(host: Host, s: Sys, fd: int, count: int)
    requires Tracked(s)
    ensures Tracked(Write(host, s, fd, count).0)
  {
    if IsOpen(s.files, fd) {
      var entry := s.files[fd];
      var req := WriteBytes(entry.handle, count);
      var (t, res) := Ask(host, s, req);
      AskEffect(host, s, req, entry.handle);
      if res < 0 {
        UnmovedKeepsTracked(host, s, req, fd);
        CheckErrorKeeps(host, t, res);
      } else {
        WrapAdd(Offset(s.trace, entry.handle), count - res);
        MoveKeepsTracked(host, s, req, fd, Wrap(entry.pos + (count - res)));
        ErrorKeeps(host, SetSlot(t, fd, entry.(pos := Wrap(entry.pos + (count - res)))), 0);
      }
    } else {
      ErrnoKeeps(s, Write(host, s, fd, count).0);
    }
  }

  lemma SeekAbsoluteKeepsTracked(host: Host, s: Sys, fd: nat, ptr: int)
    requires Tracked(s) && IsOpen(s.files, fd) && IsInt(ptr)
    ensures Tracked(SeekAbsolute(host, s, fd, ptr).0)
  {
    var req := SeekTo(s.files[fd].handle, ptr);
    var (t, res) := Ask(host, s, req);
    AskEffect(host, s, req, s.files[fd].handle);
    if res >= 0 {
      MoveKeepsTracked(host, s, req, fd, ptr);
    } else {
      UnmovedKeepsTracked(host, s, req, fd);
      CheckErrorKeeps(host, t, res);
    }
  }

  lemma WrapIsInt(x: int)
    ensures IsInt(Wrap(x))
    ensures IsInt(x) ==> Wrap(x) == x
  {
  }

  lemma SeekEndKeepsTracked(host: Host, s: Sys, fd: int, ptr: int)
    requires Tracked(s) && IsOpen(s.files, fd)
    ensures Tracked(Seek(host, s, fd, ptr, SEEK_END).0)
  {
    var req := Length(s.files[fd].handle);
    QuietKeeps(host, s, req);
    CheckErrorKeeps(host, Ask(host, s, req).0, Ask(host, s, req).1);
    AskCheckedHandles(host, s, req);
    var (t, size) := AskChecked(host, s, req);
    WrapIsInt(ptr + size);
    var u := SeekAbsolute(host, t, fd, Wrap(ptr + size)).0;
    SeekAbsoluteKeepsTracked(host, t, fd, Wrap(ptr + size));
    assert Seek(host, s, fd, ptr, SEEK_END).0 == if size == -1 then t else u;
  }

  lemma SeekCurKeepsTracked(host: Host, s: Sys, fd: int, ptr: int)
    requires Tracked(s) && IsOpen(s.files, fd)
    ensures Tracked(Seek(host, s, fd, ptr, SEEK_CUR).0)
  {
    var target := Wrap(s.files[fd].pos + ptr);
    WrapIsInt(s.files[fd].pos + ptr);
    if target < 0 {
      ErrnoKeeps(s, Seek(host, s, fd, ptr, SEEK_CUR).0);
    } else {
      SeekAbsoluteKeepsTracked(host, s, fd, target);
    }
  }

  lemma SeekKeepsTracked(host: Host, s: Sys, fd: int, ptr: int, dir: int)
    requires Tracked(s) && IsInt(ptr)
    ensures Tracked(Seek(host, s, fd, ptr, dir).0)
  {
    if !IsOpen(s.files, fd) || (dir != SEEK_CUR && dir != SEEK_SET && dir != SEEK_END) {
      ErrnoKeeps(s, Seek(host, s, fd, ptr, dir).0);
    } else if dir == SEEK_CUR {
      SeekCurKeepsTracked(host, s, fd, ptr);
    } else if dir == SEEK_END {
      SeekEndKeepsTracked(host, s, fd, ptr);
    } else {
      SeekAbsoluteKeepsTracked(host, s, fd, ptr);
    }
  }

  // ---------------------------------------------------------------------------------------
  // Opens, closes and stats
  // ---------------------------------------------------------------------------------------

  lemma OpenInSlotKeepsTracked(host: Host, s: Sys, fd: nat, path: string, flags: Flags)
    requires GivesFreshHandles(host) && Tracked(s) && fd < |s.files| && s.files[fd].handle == -1
    ensures Tracked(OpenInSlot(host, s, fd, path, flags).0)
  {
    var req := OpenFile(path, OpenMode(flags));
    var (t, h) := Ask(host, s, req);
    OpenInSlotKeeps(host, s, fd, path, flags);
    AskHandles(host, s, req);
    if h >= 0 {
      var u := OpenInSlot(host, s, fd, path, flags).0;
      forall i: nat | i < |u.files| && PrivateFile(u, i)
        ensures u.files[i].pos == Wrap(Offset(u.trace, u.files[i].handle))
      {
        AskEffect(host, s, req, u.files[i].handle);
        if i != fd {
          assert u.files[i].handle != h;
          assert PrivateFile(s, i);
        }
      }
      AskEffect(host, s, req, h);
    } else {
      NothingOpenedKeeps(host, s, req);
      ErrorKeeps(host, t, h);
    }
  }

  lemma NothingOpenedKeeps(host: Host, s: Sys, req: Request)
    requires Tracked(s) && req.OpenFile? && Ask(host, s, req).1 < 0
    requires Ask(host, s, req).1 == -1
    ensures Tracked(Ask(host, s, req).0)
  {
    var t := Ask(host, s, req).0;
    AskHandles(host, s, req);
    SameTableOk(s, t);
    forall i: nat | i < |t.files| && PrivateFile(t, i)
      ensures t.files[i].pos == Wrap(Offset(t.trace, t.files[i].handle))
    {
      AskEffect(host, s, req, t.files[i].handle);
      assert PrivateFile(s, i);
    }
    AskEffect(host, s, req, 0);
  }

  lemma CloseRequestKeeps(host: Host, s: Sys, fd: nat)
    requires Tracked(s) && IsOpen(s.files, fd)
    requires !((fd == 1 || fd == 2) && s.files[1].handle == s.files[2].handle)
    ensures var (t, res) := Ask(host, s, CloseFile(s.files[fd].handle));
            if res == 0 then Tracked(SetSlot(t, fd, s.files[fd].(handle := -1))) else Tracked(t)
  {
    var h := s.files[fd].handle;
    var req := CloseFile(h);
    var (t, res) := Ask(host, s, req);
    AskHandles(host, s, req);
    var u := if res == 0 then SetSlot(t, fd, s.files[fd].(handle := -1)) else t;
    if res == 0 {
      FreeSlot(s, u, fd, h);
    } else {
      SameTableOk(s, u);
    }
    AskEffect(host, s, req, h);
    forall i: nat | i < |u.files| && PrivateFile(u, i)
      ensures u.files[i].pos == Wrap(Offset(u.trace, u.files[i].handle))
    {
      AskEffect(host, s, req, u.files[i].handle);
      assert u.files[i].handle == h && res == 0 ==> i == fd;
      assert PrivateFile(s, i);
    }
  }

  lemma CloseKeepsTracked(host: Host, s: Sys, fd: int)
    requires Tracked(s)
    ensures Tracked(Close(host, s, fd).0)
  {
    if !IsOpen(s.files, fd) {
      ErrnoKeeps(s, Close(host, s, fd).0);
    } else if (fd == 1 || fd == 2) && s.files[1].handle == s.files[2].handle {
      var u := Close(host, s, fd).0;
      CloseKeeps(host, s, fd);
      forall i: nat | i < |u.files| && PrivateFile(u, i)
        ensures u.files[i].pos == Wrap(Offset(u.trace, u.files[i].handle))
      {
        assert PrivateFile(s, i);
      }
    } else {
      var (t, res) := Ask(host, s, CloseFile(s.files[fd].handle));
      CloseRequestKeeps(host, s, fd);
      if res != 0 {
        CheckErrorKeeps(host, t, res);
      }
    }
  }

  lemma SwiStatKeepsTracked(host: Host, s: Sys, fd: int)
    requires Tracked(s)
    ensures Tracked(SwiStat(host, s, fd).0)
  {
    if IsOpen(s.files, fd) {
      var req := Length(s.files[fd].handle);
      QuietKeeps(host, s, req);
      CheckErrorKeeps(host, Ask(host, s, req).0, Ask(host, s, req).1);
    } else {
      ErrnoKeeps(s, SwiStat(host, s, fd).0);
    }
  }

  lemma StatKeepsTracked(host: Host, s: Sys, path: string)
    requires GivesFreshHandles(host) && Tracked(s)
    ensures Tracked(Stat(host, s, path).0)
  {
    var fd := NewSlot(s.files);
    if fd == -1 {
      ErrnoKeeps(s, Stat(host, s, path).0);
    } else {
      OpenInSlotKeepsTracked(host, s, fd, path, READ_ONLY);
      var (held, slot) := OpenInSlot(host, s, fd, path, READ_ONLY);
      if slot != -1 {
        SwiStatKeepsTracked(host, held, slot);
        CloseKeepsTracked(host, SwiStat(host, held, slot).0, slot);
      }
    }
  }

  lemma FailedOpenKeepsTracked(host: Host, s: Sys, fd: nat, path: string, flags: Flags)
    requires GivesFreshHandles(host) && Tracked(s) && fd < |s.files|
    requires host(s.trace, OpenFile(path, OpenMode(flags))) < 0
    ensures Tracked(OpenInSlot(host, s, fd, path, flags).0)
  {
    var req := OpenFile(path, OpenMode(flags));
    NothingOpenedKeeps(host, s, req);
    ErrorKeeps(host, Ask(host, s, req).0, Ask(host, s, req).1);
  }

  lemma OpenKeepsTracked(host: Host, s: Sys, path: string, flags: Flags)
    requires GivesFreshHandles(host) && Tracked(s) && !LosesHandle(host, s, path, flags)
    ensures Tracked(Open(host, s, path, flags).0)
  {
    var fd := NewSlot(s.files);
    if fd == -1 {
      ErrnoKeeps(s, Open(host, s, path, flags).0);
    } else if flags.creat && flags.excl {
      StatKeeps(host, s, path);
      StatKeepsTracked(host, s, path);
      var (looked, res) := Stat(host, s, path);
      if res != -1 {
        ErrnoKeeps(looked, Open(host, s, path, flags).0);
      } else if StatKeepsHandle(host, s, path) {
        FailedOpenKeepsTracked(host, looked, fd, path, flags);
      } else {
        OpenInSlotKeepsTracked(host, looked, fd, path, flags);
      }
    } else {
      OpenInSlotKeepsTracked(host, s, fd, path, flags);
    }
  }

  // ---------------------------------------------------------------------------------------
  // Runs
  // ---------------------------------------------------------------------------------------

  lemma InitialisedTracked(host: Host)
    requires GivesFreshHandles(host)
    ensures Tracked(Initialise(host))
  {
    InitialisedOk(host);
    var none := Sys([], [], None);
    var (s1, input) := Ask(host, none, OpenFile(":tt", 0));
    var (s2, output) := Ask(host, s1, OpenFile(":tt", 4));
    var (s3, error) := Ask(host, s2, OpenFile(":tt", APPEND));
    AskHandles(host, none, OpenFile(":tt", 0));
    AskHandles(host, s1, OpenFile(":tt", 4));
    AskHandles(host, s2, OpenFile(":tt", APPEND));
    var s := Initialise(host);
    assert s.trace == s3.trace && s3.trace[..2] == s2.trace && s3.trace[..2][..1] == s1.trace;
    assert s.trace[1].reply == output && s.trace[2].reply == error;
    forall i: nat | i < |s.files| && PrivateFile(s, i)
      ensures s.files[i].pos == Wrap(Offset(s.trace, s.files[i].handle))
    {
      OffsetOfOpens(s.trace, s.files[i].handle);
    }
  }

  lemma {:induction false} OffsetOfOpens(trace: seq<Event>, h: int)
    requires forall i :: 0 <= i < |trace| ==> trace[i].request.OpenFile?
    ensures Offset(trace, h) == 0
    decreases |trace|
  {
    if trace != [] {
      OffsetOfOpens(trace[..|trace| - 1], h);
    }
  }

  predicate IntArguments(c: Command) {
    c.DoSeek? ==> IsInt(c.ptr)
  }

  lemma PerformKeepsTracked(host: Host, s: Sys, c: Command)
    requires GivesFreshHandles(host) && Tracked(s) && IntArguments(c)
    requires c.DoOpen? ==> !LosesHandle(host, s, c.path, c.flags)
    ensures Tracked(Perform(host, s, c).0)
  {
    match c {
      case DoOpen(path, flags) => OpenKeepsTracked(host, s, path, flags);
      case DoClose(fd) => CloseKeepsTracked(host, s, fd);
      case DoStat(path) => StatKeepsTracked(host, s, path);
      case DoFstat(fd) => SwiStatKeepsTracked(host, s, fd);
      case DoRead(fd, count) => ReadKeepsTracked(host, s, fd, count);
      case DoWrite(fd, count) => WriteKeepsTracked(host, s, fd, count);
      case DoSeek(fd, ptr, dir) => SeekKeepsTracked(host, s, fd, ptr, dir);
    }
  }

  lemma LastKeepsTracked(host: Host, commands: seq<Command>, s: Sys, c: Command)
    requires commands != [] && s == Run(host, commands[..|commands| - 1]) && c == commands[|commands| - 1]
    requires GivesFreshHandles(host) && Tracked(s) && IntArguments(c)
    requires c.DoOpen? ==> !LosesHandle(host, s, c.path, c.flags)
    ensures Tracked(Run(host, commands))
  {
    PerformKeepsTracked(host, s, c);
  }

  /**
   In every run in which no exclusive create loses a handle, every slot that holds a private file
   records the offset of that file on the host.
   */
  lemma {:induction false} RunKeepsPositions(host: Host, commands: seq<Command>)
    requires GivesFreshHandles(host) && NothingLost(host, commands)
    requires forall i :: 0 <= i < |commands| ==> IntArguments(commands[i])
    ensures Tracked(Run(host, commands))
    decreases |commands|
  {
    if commands == [] {
      InitialisedTracked(host);
    } else {
      var m := |commands| - 1;
      NothingLostPrefix(host, commands, m);
      RunKeepsPositions(host, commands[..m]);
      LastKeepsTracked(host, commands, Run(host, commands[..m]), commands[m]);
    }
  }

  /**
   Rewriting a relative seek as an absolute one is right: on a private file whose offset a C int
   holds, the host is asked to seek to exactly offset + ptr, just when that target is a C int
   that is not negative; otherwise the call fails with EINVAL without asking the host.
   */
  lemma RelativeSeekRefined(host: Host, s: Sys, fd: nat, ptr: int)
    requires Tracked(s) && IsOpen(s.files, fd) && PrivateFile(s, fd)
    requires 0 <= Offset(s.trace, s.files[fd].handle) < 0x8000_0000 && IsInt(ptr)
    ensures var h, (t, res) := s.files[fd].handle, Seek(host, s, fd, ptr, SEEK_CUR);
            var target := Offset(s.trace, h) + ptr;
            if 0 <= target < 0x8000_0000 then
              && |t.trace| > |s.trace| && t.trace[|s.trace|].request == SeekTo(h, target)
              && (if host(s.trace, SeekTo(h, target)) >= 0 then res == target == Offset(t.trace, h)
                  else res == -1 && Offset(t.trace, h) == Offset(s.trace, h))
            else
              res == -1 && t.trace == s.trace && t.files == s.files && t.errno == Some(EINVAL)
  {
    var h := s.files[fd].handle;
    var target := Offset(s.trace, h) + ptr;
    WrapIsInt(Offset(s.trace, h));
    assert s.files[fd].pos == Offset(s.trace, h);
    if 0 <= target < 0x8000_0000 {
      WrapIsInt(target);
      SeekOutcome(host, s, fd, target);
    }
  }

  lemma SeekOutcome(host: Host, s: Sys, fd: nat, ptr: int)
    requires Tracked(s) && IsOpen(s.files, fd)
    ensures var h, (t, res) := s.files[fd].handle, SeekAbsolute(host, s, fd, ptr);
            && |t.trace| > |s.trace| && t.trace[|s.trace|].request == SeekTo(h, ptr)
            && (if host(s.trace, SeekTo(h, ptr)) >= 0 then res == ptr == Offset(t.trace, h)
                else res == -1 && Offset(t.trace, h) == Offset(s.trace, h))
  {
    var h := s.files[fd].handle;
    var (t, res) := Ask(host, s, SeekTo(h, ptr));
    AskEffect(host, s, SeekTo(h, ptr), h);
    AskEffect(host, t, GetErrno, h);
  }

  /** The overflow error is never reported: its test looks at the sum instead of the operand. */
  lemma OverflowNeverReported(host: Host, s: Sys, fd: int, ptr: int, dir: int)
    ensures Seek(host, s, fd, ptr, dir).0.errno == Some(EOVERFLOW) ==> s.errno == Some(EOVERFLOW)
  {
  }
}
