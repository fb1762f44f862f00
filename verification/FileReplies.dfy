/**
 What the monitor calls answer (tce/newlib-1.17.0/libgloss/arm/syscalls.c:134-582 and 629-677): the
 requests each call makes, in order, its result, the error number and the table afterwards, for
 every host and every state.
 */
module FileReplies {
  import opened Wrappers
  import opened FileTable
  import opened FilePositions

  /** The descriptor is in range and its slot holds a handle. */
  ghost predicate InUse(s: Sys, fd: int) {
    0 <= fd < |s.files| && s.files[fd].handle != -1
  }

  /** The call fails without asking the host and changes nothing but the error number. */
  ghost predicate Refused(s: Sys, r: (Sys, int), e: Errno) {
    r.1 == -1 && r.0 == Sys(s.files, s.trace, Some(e))
  }

  /** One request after this history, and its reply. */
  function Asked(host: Host, trace: seq<Event>, req: Request): seq<Event> {
    trace + [Event(req, host(trace, req))]
  }

  /** After these events the host is asked for the error number, which is kept; the table is as before. */
  ghost predicate Reported(host: Host, s: Sys, events: seq<Event>, r: (Sys, int), result: int) {
    && r.1 == result && r.0.files == s.files && r.0.trace == Asked(host, events, GetErrno)
    && r.0.errno == Some(FromHost(host(events, GetErrno)))
  }

  /** Slot fd keeps its handle and gets this position. */
  ghost predicate Moved(s: Sys, t: Sys, fd: nat, pos: int)
    requires fd < |s.files|
  {
    t.files == s.files[fd := Fdent(s.files[fd].handle, pos)]
  }

  lemma MovedBy(trace: seq<Event>, e: Event, h: int)
    ensures e.request.ReadBytes? && e.request.handle == h && e.reply != -1 ==>
              Offset(trace + [e], h) - Offset(trace, h) == e.request.count - e.reply
    ensures e.request.WriteBytes? && e.request.handle == h && e.reply >= 0 ==>
              Offset(trace + [e], h) - Offset(trace, h) == e.request.count - e.reply
    ensures e.request.SeekTo? && e.request.handle == h && e.reply >= 0 ==> Offset(trace + [e], h) == e.request.position
  {
    assert (trace + [e])[..|trace|] == trace;
  }

  /**
   _read: the result is how far the file moved on the host; a failed read reports the host's error,
   and a descriptor that is not open is refused.
   */
  lemma ReadReturns(host: Host, s: Sys, fd: int, count: int)
    ensures var r := Read(host, s, fd, count);
            if !InUse(s, fd) then Refused(s, r, EBADF)
            else
              var h := s.files[fd].handle;
              var events := Asked(host, s.trace, ReadBytes(h, count));
              if events[|s.trace|].reply == -1 then Reported(host, s, events, r, -1)
              else
                && r.0.trace == events && r.0.errno == s.errno
                && r.1 == Offset(events, h) - Offset(s.trace, h) == count - events[|s.trace|].reply
                && Moved(s, r.0, fd, Wrap(s.files[fd].pos + r.1))
  {
    if InUse(s, fd) {
      var req := ReadBytes(s.files[fd].handle, count);
      MovedBy(s.trace, Event(req, host(s.trace, req)), s.files[fd].handle);
    }
  }

  /**
   _write: the result is how far the file moved on the host; nothing written reports the host's
   error with the result 0, and a failed write is answered by -1.
   */
  lemma WriteReturns(host: Host, s: Sys, fd: int, count: int)
    ensures var r := Write(host, s, fd, count);
            if !InUse(s, fd) then Refused(s, r, EBADF)
            else
              var h := s.files[fd].handle;
              var events := Asked(host, s.trace, WriteBytes(h, count));
              var reply := events[|s.trace|].reply;
              if reply == -1 then Reported(host, s, events, r, -1)
              else if reply < 0 then r.1 == -1 && r.0 == Sys(s.files, events, s.errno)
              else
                && r.1 == Offset(events, h) - Offset(s.trace, h) == count - reply
                && Moved(s, r.0, fd, Wrap(s.files[fd].pos + r.1))
                && if r.1 == 0 then
                     r.0.trace == Asked(host, events, GetErrno) && r.0.errno == Some(FromHost(host(events, GetErrno)))
                   else r.0.trace == events && r.0.errno == s.errno
  {
    if InUse(s, fd) {
      var req := WriteBytes(s.files[fd].handle, count);
      MovedBy(s.trace, Event(req, host(s.trace, req)), s.files[fd].handle);
    }
  }

  /** An absolute seek after these events: the position that was asked for, or the host's error. */
  ghost predicate Sought(host: Host, s: Sys, before: seq<Event>, r: (Sys, int), fd: nat, position: int)
    requires fd < |s.files|
  {
    var h := s.files[fd].handle;
    var events := Asked(host, before, SeekTo(h, position));
    var reply := events[|before|].reply;
    if reply == -1 then Reported(host, s, events, r, -1)
    else if reply < 0 then r.1 == -1 && r.0 == Sys(s.files, events, s.errno)
    else
      && r.1 == position == Offset(events, h) && r.0.trace == events && r.0.errno == s.errno
      && Moved(s, r.0, fd, position)
  }

  lemma SeekAbsoluteReturns(host: Host, s: Sys, fd: nat, position: int)
    requires InUse(s, fd)
    ensures Sought(host, s, s.trace, SeekAbsolute(host, s, fd, position), fd, position)
  {
    var req := SeekTo(s.files[fd].handle, position);
    MovedBy(s.trace, Event(req, host(s.trace, req)), s.files[fd].handle);
  }

  /**
   _lseek: from the start it asks for the given position, from the end for the length the host
   reports plus the distance, from the current position for the recorded one plus the distance; it
   refuses other origins and negative targets relative to the current position.
   */
  lemma SeekReturns(host: Host, s: Sys, fd: int, ptr: int, dir: int)
    ensures var r := Seek(host, s, fd, ptr, dir);
            if !InUse(s, fd) then Refused(s, r, EBADF)
            else if dir != 0 && dir != 1 && dir != 2 then Refused(s, r, EINVAL)
            else
              var h := s.files[fd].handle;
              && (dir == 0 ==> Sought(host, s, s.trace, r, fd, ptr))
              && (dir == 1 ==>
                    var target := Wrap(s.files[fd].pos + ptr);
                    if target < 0 then Refused(s, r, EINVAL) else Sought(host, s, s.trace, r, fd, target))
              && (dir == 2 ==>
                    var events := Asked(host, s.trace, Length(h));
                    var size := events[|s.trace|].reply;
                    if size == -1 then Reported(host, s, events, r, -1)
                    else Sought(host, s, events, r, fd, Wrap(size + ptr)))
  {
    if InUse(s, fd) {
      if dir == 0 {
        SeekAbsoluteReturns(host, s, fd, ptr);
      } else if dir == 1 {
        if Wrap(s.files[fd].pos + ptr) >= 0 {
          SeekAbsoluteReturns(host, s, fd, Wrap(s.files[fd].pos + ptr));
        }
      } else if dir == 2 {
        SeekEndReturns(host, s, fd, ptr);
      }
    }
  }

  lemma SeekEndReturns(host: Host, s: Sys, fd: nat, ptr: int)
    requires InUse(s, fd)
    ensures var r, events := Seek(host, s, fd, ptr, 2), Asked(host, s.trace, Length(s.files[fd].handle));
            var size := events[|s.trace|].reply;
            if size == -1 then Reported(host, s, events, r, -1) else Sought(host, s, events, r, fd, Wrap(size + ptr))
  {
    var req := Length(s.files[fd].handle);
    var (t, size) := Ask(host, s, req);
    if size != -1 {
      assert ptr + size == size + ptr;
      SeekAbsoluteReturns(host, t, fd, Wrap(size + ptr));
    }
  }

  /** _fstat: 0, or -1 where the host cannot tell the length. */
  lemma FstatReturns(host: Host, s: Sys, fd: int)
    ensures var r := SwiStat(host, s, fd);
            if !InUse(s, fd) then Refused(s, r, EBADF)
            else
              var events := Asked(host, s.trace, Length(s.files[fd].handle));
              if events[|s.trace|].reply == -1 then Reported(host, s, events, r, -1)
              else r == (Sys(s.files, events, s.errno), 0)
  {
  }

  /** _close: the slot is freed and the host asked, unless output and error output share the handle. */
  lemma CloseReturns(host: Host, s: Sys, fd: int)
    ensures var r := Close(host, s, fd);
            if !InUse(s, fd) then Refused(s, r, EBADF)
            else
              var h, freed := s.files[fd].handle, s.files[fd := Fdent(-1, s.files[fd].pos)];
              var events := Asked(host, s.trace, CloseFile(h));
              var reply := events[|s.trace|].reply;
              if (fd == 1 || fd == 2) && |s.files| > 2 && s.files[1].handle == s.files[2].handle then
                r == (Sys(freed, s.trace, s.errno), 0)
              else if reply == -1 then Reported(host, s, events, r, -1)
              else r == (Sys(if reply == 0 then freed else s.files, events, s.errno), reply)
  {
  }

  // ---------------------------------------------------------------------------------------
  // Opening
  // ---------------------------------------------------------------------------------------

  /** Bits of the host's open mode: 1 binary, 2 read and write, 4 write, 8 append, which excludes 4. */
  ghost predicate ModeBits(flags: Flags, mode: nat) {
    && mode < 16
    && (mode % 2 == 1 <==> flags.binary)
    && (mode / 2 % 2 == 1 <==> flags.rdwr)
    && (mode / 4 % 2 == 1 <==> !flags.append && (flags.creat || flags.trunc || flags.wronly))
    && (mode / 8 == 1 <==> flags.append)
  }

  lemma ModeHasBits(flags: Flags)
    ensures ModeBits(flags, OpenMode(flags))
  {
  }

  /** The lowest slot that is free. */
  ghost predicate IsLowestFree(s: Sys, fd: nat) {
    fd < |s.files| && s.files[fd].handle == -1 && forall j :: 0 <= j < fd ==> s.files[j].handle != -1
  }

  ghost predicate AllUsed(s: Sys) {
    forall j :: 0 <= j < |s.files| ==> s.files[j].handle != -1
  }

  lemma NewSlotIs(s: Sys)
    ensures if AllUsed(s) then NewSlot(s.files) == -1 else NewSlot(s.files) >= 0 && IsLowestFree(s, NewSlot(s.files))
  {
  }

  /** Slot fd is filled with the handle the host gives for this mode, or the host's refusal is reported. */
  ghost predicate Opened(host: Host, s: Sys, r: (Sys, int), fd: nat, path: string, mode: nat)
    requires fd < |s.files|
  {
    var events := Asked(host, s.trace, OpenFile(path, mode));
    var h := events[|s.trace|].reply;
    if h >= 0 then r == (Sys(s.files[fd := Fdent(h, 0)], events, s.errno), fd) else Reported(host, s, events, r, h)
  }

  /** _open without the existence test: the lowest free slot, and a mode with the bits of the flags. */
  lemma OpenReturns(host: Host, s: Sys, path: string, flags: Flags) returns (mode: nat)
    requires !(flags.creat && flags.excl)
    ensures ModeBits(flags, mode)
    ensures var r := Open(host, s, path, flags);
            && (AllUsed(s) ==> Refused(s, r, EMFILE))
            && (forall fd: nat :: IsLowestFree(s, fd) ==> Opened(host, s, r, fd, path, mode))
  {
    mode := OpenMode(flags);
    ModeHasBits(flags);
    NewSlotIs(s);
  }

  /** An exclusive create: refused if the file can be looked at, otherwise an open after that look. */
  lemma ExclusiveOpenReturns(host: Host, s: Sys, path: string, flags: Flags) returns (mode: nat)
    requires flags.creat && flags.excl
    ensures ModeBits(flags, mode)
    ensures var r, look := Open(host, s, path, flags), Stat(host, s, path);
            && (AllUsed(s) ==> Refused(s, r, EMFILE))
            && (!AllUsed(s) && look.1 != -1 ==> r.1 == -1 && r.0 == Sys(look.0.files, look.0.trace, Some(EEXIST)))
            && (forall fd: nat :: IsLowestFree(s, fd) && look.1 == -1 ==> fd < |look.0.files| && Opened(host, look.0, r, fd, path, mode))
  {
    mode := OpenMode(flags);
    ModeHasBits(flags);
    NewSlotIs(s);
  }

  /**
   _stat: opens for reading, asks for the length, and is 0 exactly if both succeed. A negative handle
   other than -1 is taken for a descriptor, and the error is then that of the descriptor.
   */
  lemma StatReturns(host: Host, s: Sys, path: string)
    ensures var r := Stat(host, s, path);
            && (AllUsed(s) ==> Refused(s, r, EMFILE))
            && (!AllUsed(s) ==>
                  var first := Asked(host, s.trace, OpenFile(path, 0));
                  var h := first[|s.trace|].reply;
                  && first <= r.0.trace
                  && (h == -1 ==> Reported(host, s, first, r, -1))
                  && (h < -1 ==> r == (Sys(s.files, Asked(host, first, GetErrno), Some(EBADF)), -1))
                  && (h >= 0 ==>
                        var sized := Asked(host, first, Length(h));
                        && sized <= r.0.trace
                        && r.1 == if sized[|first|].reply == -1 then -1 else 0))
  {
    NewSlotIs(s);
    ModeHasBits(READ_ONLY);
    if !AllUsed(s) {
      var fd := NewSlot(s.files);
      assert OpenMode(READ_ONLY) == 0;
      var (held, slot) := OpenInSlot(host, s, fd, path, READ_ONLY);
      StatLook(host, held, slot);
    }
  }

  lemma StatLook(host: Host, s: Sys, fd: int)
    ensures var looked := SwiStat(host, s, fd);
            s.trace <= looked.0.trace <= Close(host, looked.0, fd).0.trace
    ensures !InUse(s, fd) ==>
              SwiStat(host, s, fd).1 == -1 && Close(host, SwiStat(host, s, fd).0, fd).0 == Sys(s.files, s.trace, Some(EBADF))
  {
  }

  /**
   The table after initialisation: the terminal opened for reading, writing and appending, in this
   order, on descriptors 0, 1 and 2; the output handle also serves for errors if the last one fails.
   */
  lemma InitialisedIs(host: Host)
    ensures var s := Initialise(host);
            && |s.files| == 20 && |s.trace| == 3 && s.errno == None
            && (forall k :: 0 <= k < 3 ==> s.trace[k].reply == host(s.trace[..k], s.trace[k].request))
            && s.trace[0].request == OpenFile(":tt", 0) && s.trace[1].request == OpenFile(":tt", 4)
            && s.trace[2].request == OpenFile(":tt", 8)
            && s.files[0].handle == s.trace[0].reply && s.files[1].handle == s.trace[1].reply
            && s.files[2].handle == (if s.trace[2].reply == -1 then s.trace[1].reply else s.trace[2].reply)
            && (forall i :: 3 <= i < 20 ==> s.files[i].handle == -1)
            && (forall i :: 0 <= i < 20 ==> s.files[i].pos == 0)
  {
    var s := Initialise(host);
    var none := Sys([], [], None);
    var (s1, input) := Ask(host, none, OpenFile(":tt", 0));
    var (s2, output) := Ask(host, s1, OpenFile(":tt", 4));
    var (s3, error) := Ask(host, s2, OpenFile(":tt", APPEND));
    assert s.trace == s3.trace && s3.trace[..2] == s2.trace && s3.trace[..1] == s1.trace && s3.trace[..0] == [];
  }
}
