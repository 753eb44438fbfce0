/** The kernel as XCM sees it: a table of open descriptors and a monotonic clock.
    Everything the kernel decides for itself (which descriptor number it hands out,
    whether a call succeeds, how far the clock has moved) is left undetermined. */
module KernelModel {

  /** A file descriptor. `NoFd` is the source's -1. The descriptors returned by eventfd(2)
      are told apart from all others: two open descriptors never share a number. */
  datatype Fd = NoFd | Desc(n: nat) | Eventfd(n: nat)

  datatype EpollEvent = IN | OUT

  /** The address families. */
  datatype Family = V4 | V6

  type Byte = x: int | 0 <= x < 256

  datatype Option<+T> = None | Some(value: T)

  const ENOENT := 2
  const EAGAIN := 11
  const EACCES := 13
  const EINVAL := 22
  const EPIPE := 32
  const EPROTO := 71
  const EMSGSIZE := 90
  const ENOTSUP := 95
  const ETIMEDOUT := 110
  const EINPROGRESS := 115

  /** The errno of a call that failed for good. */
  predicate HardError(e: int) {
    e != 0 && e != EAGAIN
  }

  /** Converts the clock, in nanoseconds, to seconds (ut_timespec_to_f). */
  function Seconds(ns: nat): real {
    ns as real / 1000000000.0
  }

  /** A system call on a descriptor, and the answer of the kernel. */
  datatype SysCall =
    | SysConfigure(fd: Fd, errno: int)
    | SysConnect(fd: Fd, errno: int)
    | SysSend(fd: Fd, buf: seq<Byte>, n: nat, errno: int)
    | SysRecv(fd: Fd, capacity: nat, bytes: seq<Byte>, errno: int)
    | SysPoll(fd: Fd, ready: bool)
    | SysAccept(fd: Fd, conn: Fd)

  /** The log has grown by calls on these descriptors only. */
  ghost predicate LogsFor(before: seq<SysCall>, after: seq<SysCall>, fds: set<Fd>) {
    before <= after && forall k :: |before| <= k < |after| ==> after[k].fd in fds
  }

  /** A call that neither moves bytes nor changes the descriptor it is made on. */
  predicate Harmless(e: SysCall) {
    e.SysPoll? || e.SysAccept?
  }

  /** The log has grown, but for harmless calls, by calls on other descriptors only. */
  ghost predicate Spares(before: seq<SysCall>, after: seq<SysCall>, fds: set<Fd>) {
    before <= after && forall k :: |before| <= k < |after| ==> after[k].fd !in fds || Harmless(after[k])
  }

  lemma LogsNothing(log: seq<SysCall>, fds: set<Fd>)
    ensures LogsFor(log, log, fds)
  {
  }

  lemma LogGrows(before: seq<SysCall>, after: seq<SysCall>, fds: set<Fd>)
    requires LogsFor(before, after, fds)
    ensures |before| <= |after|
  {
  }

  lemma LogsTwice(a: seq<SysCall>, b: seq<SysCall>, c: seq<SysCall>, fds: set<Fd>)
    requires LogsFor(a, b, fds) && LogsFor(b, c, fds)
    ensures LogsFor(a, c, fds)
  {
  }

  lemma SparesNothing(log: seq<SysCall>, fds: set<Fd>)
    ensures Spares(log, log, fds)
  {
  }

  lemma SparesGrows(before: seq<SysCall>, after: seq<SysCall>, fds: set<Fd>)
    requires Spares(before, after, fds)
    ensures |before| <= |after| && before <= after
  {
  }

  lemma SparesFewer(a: seq<SysCall>, b: seq<SysCall>, fds: set<Fd>, fewer: set<Fd>)
    requires Spares(a, b, fds) && fewer <= fds
    ensures Spares(a, b, fewer)
  {
  }

  lemma SparesTwice(a: seq<SysCall>, b: seq<SysCall>, c: seq<SysCall>, fds: set<Fd>)
    requires Spares(a, b, fds) && Spares(b, c, fds)
    ensures Spares(a, c, fds)
  {
  }

  /** A call on this descriptor has been made. */
  ghost predicate Heard(before: seq<SysCall>, after: seq<SysCall>, fd: Fd) {
    before <= after && exists k :: |before| <= k < |after| && after[k].fd == fd
  }

  lemma HeardStill(a: seq<SysCall>, b: seq<SysCall>, c: seq<SysCall>, d: seq<SysCall>, fd: Fd)
    requires a <= b <= c <= d && Heard(b, c, fd)
    ensures Heard(a, d, fd)
  {
    var k :| |b| <= k < |c| && c[k].fd == fd;
    assert d[k] == c[k];
  }

  /** What the kernel said last, from call `from` on, about the connect of a socket: the errno of
      connect(2), or later of the socket (ut_established). */
  ghost function LastAnswer(log: seq<SysCall>, from: nat, fd: Fd): Option<int> {
    if |log| <= from then None
    else
      var e := log[|log| - 1];
      if e.SysConnect? && e.fd == fd then Some(e.errno) else LastAnswer(log[..|log| - 1], from, fd)
  }

  /** The bytes that a call has moved out of, and into, the process. */
  function Taken(e: SysCall, fd: Fd): seq<Byte> {
    if e.SysSend? && e.fd == fd && e.errno == 0 && e.n <= |e.buf| then e.buf[..e.n] else []
  }

  function Given(e: SysCall, fd: Fd): seq<Byte> {
    if e.SysRecv? && e.fd == fd then e.bytes else []
  }

  /** All bytes the kernel has taken from the owner of a descriptor, from call `from` on. */
  ghost function TakenFrom(log: seq<SysCall>, from: nat, fd: Fd): seq<Byte> {
    if |log| <= from then [] else TakenFrom(log[..|log| - 1], from, fd) + Taken(log[|log| - 1], fd)
  }

  ghost function GivenTo(log: seq<SysCall>, from: nat, fd: Fd): seq<Byte> {
    if |log| <= from then [] else GivenTo(log[..|log| - 1], from, fd) + Given(log[|log| - 1], fd)
  }

  lemma LoggedOne(log: seq<SysCall>, e: SysCall, from: nat, fd: Fd)
    requires from <= |log|
    ensures LastAnswer(log + [e], from, fd) ==
            if e.SysConnect? && e.fd == fd then Some(e.errno) else LastAnswer(log, from, fd)
    ensures TakenFrom(log + [e], from, fd) == TakenFrom(log, from, fd) + Taken(e, fd)
    ensures GivenTo(log + [e], from, fd) == GivenTo(log, from, fd) + Given(e, fd)
  {
    assert (log + [e])[..|log|] == log;
  }

  /** Calls on other descriptors change nothing of this. */
  lemma {:induction false} SparedHistory(before: seq<SysCall>, after: seq<SysCall>, from: nat, fd: Fd)
    requires Spares(before, after, {fd}) && from <= |before|
    ensures LastAnswer(after, from, fd) == LastAnswer(before, from, fd)
    ensures TakenFrom(after, from, fd) == TakenFrom(before, from, fd)
    ensures GivenTo(after, from, fd) == GivenTo(before, from, fd)
    decreases |after|
  {
    if |after| > |before| {
      var shorter := after[..|after| - 1];
      SparedHistory(before, shorter, from, fd);
      LoggedOne(shorter, after[|after| - 1], from, fd);
      assert shorter + [after[|after| - 1]] == after;
    } else {
      assert after == before;
    }
  }

  /** Looking further back does not change the last answer. */
  lemma {:induction false} FurtherBack(log: seq<SysCall>, since: nat, from: nat, fd: Fd)
    requires since <= from
    ensures LastAnswer(log, from, fd).Some? ==> LastAnswer(log, since, fd) == LastAnswer(log, from, fd)
    decreases |log|
  {
    if |log| > from {
      FurtherBack(log[..|log| - 1], since, from, fd);
    }
  }

  class Kernel {
    var open: set<Fd>
    var clock: nat
    /** The calls made on descriptors, as far as their answers matter. */
    ghost var log: seq<SysCall>

    constructor (boot: nat)
      ensures open == {} && clock == boot && log == []
    {
      open := {};
      clock := boot;
      log := [];
    }

    /** socket(2), pipe(2) and timerfd_create(2): a descriptor not open before, or failure. */
    method OpenDesc() returns (fd: Fd)
      modifies `open
      ensures fd == NoFd ==> open == old(open)
      ensures fd != NoFd ==> fd.Desc? && fd !in old(open) && open == old(open) + {fd}
    {
      var n: nat :| n >= 0;
      if Desc(n) in open {
        return NoFd;
      }
      fd := Desc(n);
      open := open + {fd};
    }

    /** accept(2) on a listening socket. */
    method Accept(fd: Fd) returns (conn: Fd)
      requires fd in open
      modifies `open, `log
      ensures conn == NoFd ==> open == old(open)
      ensures conn != NoFd ==> conn.Desc? && conn !in old(open) && open == old(open) + {conn}
      ensures log == old(log) + [SysAccept(fd, conn)]
    {
      conn := OpenDesc();
      log := log + [SysAccept(fd, conn)];
    }

    /** close(2). Closing a descriptor that is not open is an error, so it is a precondition. */
    method Close(fd: Fd)
      requires fd in open
      modifies `open
      ensures open == old(open) - {fd}
    {
      open := open - {fd};
    }

    /** ut_close_if_valid */
    method CloseIfValid(fd: Fd)
      requires fd == NoFd || fd in open
      modifies `open
      ensures open == old(open) - (if fd == NoFd then {} else {fd})
    {
      if fd != NoFd {
        Close(fd);
      }
    }

    /** ut_ftime: reads the monotonic clock. */
    method FTime() returns (t: real)
      modifies `clock
      ensures clock >= old(clock)
      ensures t == Seconds(clock)
    {
      var elapsed: nat :| elapsed >= 0;
      clock := clock + elapsed;
      t := Seconds(clock);
    }

    /** A call on an open descriptor (bind, setsockopt) that succeeds (0) or fails for good. */
    method Configure(fd: Fd) returns (errno: int)
      requires fd in open
      modifies `log
      ensures errno == 0 || HardError(errno)
      ensures log == old(log) + [SysConfigure(fd, errno)]
    {
      errno := *;
      if errno == EAGAIN {
        errno := 0;
      }
      log := log + [SysConfigure(fd, errno)];
    }

    /** connect(2) on a non-blocking socket, and later ut_established: established (0), still in
        progress (EINPROGRESS), or failed for good. */
    method Establish(fd: Fd) returns (errno: int)
      requires fd in open
      modifies `log
      ensures errno == 0 || HardError(errno)
      ensures log == old(log) + [SysConnect(fd, errno)]
    {
      errno := *;
      if errno == EAGAIN {
        errno := EINPROGRESS;
      }
      log := log + [SysConnect(fd, errno)];
    }

    /** send(2) on a connected non-blocking socket: how many bytes of the buffer were taken, or 0
        with an errno. */
    method Send(fd: Fd, buf: seq<Byte>) returns (n: nat, errno: int)
      requires fd in open
      modifies `log
      ensures n <= |buf| && (errno == 0 && buf != [] ==> n > 0)
      ensures errno != 0 ==> n == 0
      ensures log == old(log) + [SysSend(fd, buf, n, errno)]
    {
      n, errno := Transfer(|buf|);
      if errno == 0 && n == 0 && buf != [] {
        n := 1;
      }
      log := log + [SysSend(fd, buf, n, errno)];
    }

    /** recv(2): the bytes received (none at the end of the stream), or none with an errno. */
    method Receive(fd: Fd, capacity: nat) returns (bytes: seq<Byte>, errno: int)
      requires fd in open
      modifies `log
      ensures |bytes| <= capacity && (errno != 0 ==> bytes == [])
      ensures log == old(log) + [SysRecv(fd, capacity, bytes, errno)]
    {
      var n;
      n, errno := Transfer(capacity);
      var given: seq<Byte> := *;
      bytes := if |given| == n then given else seq(n, _ => 0);
      log := log + [SysRecv(fd, capacity, bytes, errno)];
    }

    /** poll(2) on one descriptor, without waiting. */
    method Poll(fd: Fd) returns (ready: bool)
      requires fd in open
      modifies `log
      ensures log == old(log) + [SysPoll(fd, ready)]
    {
      ready := *;
      log := log + [SysPoll(fd, ready)];
    }

    method Transfer(limit: nat) returns (n: nat, errno: int)
      ensures n <= limit && (errno != 0 ==> n == 0)
    {
      errno := *;
      n := 0;
      if errno == 0 {
        n :| n <= limit;
      }
    }
  }
}
