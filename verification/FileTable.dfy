/**
 The file descriptor table of the ARM monitor calls
 (tce/newlib-1.17.0/libgloss/arm/syscalls.c).  The host is an oracle that answers a request from
 the whole history of requests; what the host holds open, and where its files stand, are
 functions of that history.
 */
module FileTable {
  import opened Wrappers

  // ---------------------------------------------------------------------------------------
  // Host
  // ---------------------------------------------------------------------------------------

  datatype Request =
    | OpenFile(path: string, mode: nat)
    | CloseFile(handle: int)
    | Length(handle: int)
    | SeekTo(handle: int, position: int)
    | ReadBytes(handle: int, count: int)
    | WriteBytes(handle: int, count: int)
    | GetErrno

  datatype Event = Event(request: Request, reply: int)

  type Host = (seq<Event>, Request) -> int

  /** The handles the host holds open. */
  function OpenHandles(trace: seq<Event>): set<int> {
    if trace == [] then {}
    else
      var rest, e := OpenHandles(trace[..|trace| - 1]), trace[|trace| - 1];
      match e.request
      case OpenFile(_, _) => if e.reply >= 0 then rest + {e.reply} else rest
      case CloseFile(h) => if e.reply == 0 then rest - {h} else rest
      case _ => rest
  }

  const APPEND := 8

  /**
   A host that gives out fresh handles.  The exception is the terminal: asked for the standard
   error output right after the standard output, it may return the same handle.
   */
  ghost predicate GivesFreshHandles(host: Host) {
    forall trace: seq<Event>, path: string, mode: nat ::
      var reply := host(trace, OpenFile(path, mode));
      && reply >= -1
      && (reply in OpenHandles(trace) ==> path == ":tt" && mode == APPEND && |trace| == 2 && trace[1].reply == reply)
  }

  ghost predicate ClosesSucceed(host: Host) {
    forall trace: seq<Event>, h: int :: host(trace, CloseFile(h)) == 0
  }

  // ---------------------------------------------------------------------------------------
  // Table
  // ---------------------------------------------------------------------------------------

  const MAX_OPEN_FILES := 20

  datatype Fdent = Fdent(handle: int, pos: int)

  datatype Errno = EBADF | EMFILE | EEXIST | EINVAL | EOVERFLOW | FromHost(code: int)

  datatype Sys = Sys(files: seq<Fdent>, trace: seq<Event>, errno: Option<Errno>)

  /** open's flags, bit by bit. */
  datatype Flags = Flags(wronly: bool, rdwr: bool, creat: bool, excl: bool, trunc: bool, append: bool, binary: bool)

  const READ_ONLY := Flags(false, false, false, false, false, false, false)

  const SEEK_SET := 0
  const SEEK_CUR := 1
  const SEEK_END := 2

  /** A C int. */
  function Wrap(x: int): int {
    (x + 0x8000_0000) % 0x1_0000_0000 - 0x8000_0000
  }

  function Ask(host: Host, s: Sys, req: Request): (r: (Sys, int))
    ensures |r.0.files| == |s.files| && |r.0.trace| >= |s.trace|
  {
    var reply := host(s.trace, req);
    (s.(trace := s.trace + [Event(req, reply)]), reply)
  }

  function Fail(s: Sys, e: Errno): (r: (Sys, int))
    ensures |r.0.files| == |s.files| && |r.0.trace| >= |s.trace|
  {
    (s.(errno := Some(e)), -1)
  }

  function Error(host: Host, s: Sys, result: int): (r: (Sys, int))
    ensures |r.0.files| == |s.files| && |r.0.trace| >= |s.trace|
  {
    var (s', code) := Ask(host, s, GetErrno);
    (s'.(errno := Some(FromHost(code))), result)
  }

  function CheckError(host: Host, s: Sys, result: int): (r: (Sys, int))
    ensures |r.0.files| == |s.files| && |r.0.trace| >= |s.trace|
  {
    if result == -1 then Error(host, s, -1) else (s, result)
  }

  function AskChecked(host: Host, s: Sys, req: Request): (r: (Sys, int))
    ensures |r.0.files| == |s.files| && |r.0.trace| >= |s.trace|
  {
    var (s', reply) := Ask(host, s, req);
    CheckError(host, s', reply)
  }

  /** A used slot: in range and holding a handle. */
  predicate IsOpen(files: seq<Fdent>, fd: int) {
    0 <= fd < |files| && files[fd].handle != -1
  }

  function FirstFree(files: seq<Fdent>, i: nat): (fd: int)
    requires i <= |files|
    ensures fd == -1 || (i <= fd < |files| && files[fd].handle == -1)
    ensures forall j :: i <= j < (if fd == -1 then |files| else fd) ==> files[j].handle != -1
    decreases |files| - i
  {
    if i == |files| then -1 else if files[i].handle == -1 then i else FirstFree(files, i + 1)
  }

  /** The lowest free slot, or -1. */
  function NewSlot(files: seq<Fdent>): int {
    FirstFree(files, 0)
  }

  function OpenMode(flags: Flags): nat {
    var aflags := (if flags.binary then 1 else 0) + if flags.rdwr then 2 else 0;
    if flags.append then aflags + APPEND
    else if flags.creat || flags.trunc || flags.wronly then aflags + 4
    else aflags
  }

  function SetSlot(s: Sys, fd: nat, entry: Fdent): Sys
    requires fd < |s.files|
  {
    s.(files := s.files[fd := entry])
  }

  /** The part of _swiopen after the existence test. */
  function OpenInSlot(host: Host, s: Sys, fd: nat, path: string, flags: Flags): (r: (Sys, int))
    requires fd < |s.files|
    ensures |r.0.files| == |s.files| && |r.0.trace| >= |s.trace|
  {
    var (s', fh) := Ask(host, s, OpenFile(path, OpenMode(flags)));
    if fh >= 0 then (SetSlot(s', fd, Fdent(fh, 0)), fd) else Error(host, s', fh)
  }

  function SwiStat(host: Host, s: Sys, fd: int): (r: (Sys, int))
    ensures |r.0.files| == |s.files| && |r.0.trace| >= |s.trace|
  {
    if !IsOpen(s.files, fd) then Fail(s, EBADF)
    else
      var (s', size) := AskChecked(host, s, Length(s.files[fd].handle));
      (s', if size == -1 then -1 else 0)
  }

  function Close(host: Host, s: Sys, fd: int): (r: (Sys, int))
    ensures |r.0.files| == |s.files| && |r.0.trace| >= |s.trace|
  {
    if !IsOpen(s.files, fd) then Fail(s, EBADF)
    else
      var entry := s.files[fd];
      if (fd == 1 || fd == 2) && |s.files| > 2 && s.files[1].handle == s.files[2].handle then
        (SetSlot(s, fd, entry.(handle := -1)), 0)
      else
        var (s', res) := AskChecked(host, s, CloseFile(entry.handle));
        (if res == 0 then SetSlot(s', fd, entry.(handle := -1)) else s', res)
  }

  /** _stat: open read only, look at the size, close. */
  function Stat(host: Host, s: Sys, path: string): (r: (Sys, int))
    ensures |r.0.files| == |s.files| && |r.0.trace| >= |s.trace|
  {
    var fd := NewSlot(s.files);
    if fd == -1 then Fail(s, EMFILE)
    else
      var (held, slot) := OpenInSlot(host, s, fd, path, READ_ONLY);
      if slot == -1 then (held, -1)
      else
        var (sized, res) := SwiStat(host, held, slot);
        (Close(host, sized, slot).0, res)
  }

  /** _open: an exclusive create first looks whether the file is there. */
  function Open(host: Host, s: Sys, path: string, flags: Flags): (r: (Sys, int))
    ensures |r.0.files| == |s.files| && |r.0.trace| >= |s.trace|
  {
    var fd := NewSlot(s.files);
    if fd == -1 then Fail(s, EMFILE)
    else if flags.creat && flags.excl then
      var (looked, res) := Stat(host, s, path);
      if res != -1 then Fail(looked, EEXIST) else OpenInSlot(host, looked, fd, path, flags)
    else OpenInSlot(host, s, fd, path, flags)
  }

  function Read(host: Host, s: Sys, fd: int, count: int): (r: (Sys, int))
    ensures |r.0.files| == |s.files| && |r.0.trace| >= |s.trace|
  {
    if !IsOpen(s.files, fd) then Fail(s, EBADF)
    else
      var entry := s.files[fd];
      var (s', res) := AskChecked(host, s, ReadBytes(entry.handle, count));
      if res == -1 then (s', -1)
      else (SetSlot(s', fd, entry.(pos := Wrap(entry.pos + (count - res)))), count - res)
  }

  function Write(host: Host, s: Sys, fd: int, count: int): (r: (Sys, int))
    ensures |r.0.files| == |s.files| && |r.0.trace| >= |s.trace|
  {
    if !IsOpen(s.files, fd) then Fail(s, EBADF)
    else
      var entry := s.files[fd];
      var (s', res) := AskChecked(host, s, WriteBytes(entry.handle, count));
      if res < 0 then (s', -1)
      else
        var moved := SetSlot(s', fd, entry.(pos := Wrap(entry.pos + (count - res))));
        if count - res == 0 then Error(host, moved, 0) else (moved, count - res)
  }

  /** The absolute seek at the end of _swilseek. */
  function SeekAbsolute(host: Host, s: Sys, fd: nat, ptr: int): (r: (Sys, int))
    requires fd < |s.files|
    ensures |r.0.files| == |s.files| && |r.0.trace| >= |s.trace|
  {
    var entry := s.files[fd];
    var (s', res) := AskChecked(host, s, SeekTo(entry.handle, ptr));
    if res >= 0 then (SetSlot(s', fd, entry.(pos := ptr)), ptr) else (s', -1)
  }

  function Seek(host: Host, s: Sys, fd: int, ptr: int, dir: int): (r: (Sys, int))
    ensures |r.0.files| == |s.files| && |r.0.trace| >= |s.trace|
  {
    if !IsOpen(s.files, fd) then Fail(s, EBADF)
    else if dir != SEEK_CUR && dir != SEEK_SET && dir != SEEK_END then Fail(s, EINVAL)
    else if dir == SEEK_CUR then
      var target := Wrap(s.files[fd].pos + ptr);
      if target < 0 then Fail(s, if s.files[fd].pos > 0 && target > 0 then EOVERFLOW else EINVAL)
      else SeekAbsolute(host, s, fd, target)
    else if dir == SEEK_END then
      var (s', size) := AskChecked(host, s, Length(s.files[fd].handle));
      if size == -1 then (s', -1) else SeekAbsolute(host, s', fd, Wrap(ptr + size))
    else SeekAbsolute(host, s, fd, ptr)
  }

  function InitialFiles(input: int, output: int, stderr: int): seq<Fdent> {
    seq(MAX_OPEN_FILES, i =>
      Fdent(if i == 0 then input else if i == 1 then output else if i == 2 then stderr else -1, 0))
  }

  /** initialise_monitor_handles: the terminal as input, output and error output. */
  function Initialise(host: Host): Sys {
    var none := Sys([], [], None);
    var (s1, input) := Ask(host, none, OpenFile(":tt", 0));
    var (s2, output) := Ask(host, s1, OpenFile(":tt", 4));
    var (s3, error) := Ask(host, s2, OpenFile(":tt", APPEND));
    var stderr := if error == -1 then output else error;
    Sys(InitialFiles(input, output, stderr), s3.trace, None)
  }
}
