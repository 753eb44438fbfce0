/** libxcm/core/timer_mgr.c: any number of software timers multiplexed onto one kernel timer. */
module TimerMgr {
  import opened KernelModel
  import opened XpollTable

  datatype MTimer = MTimer(id: int, expiry: real)

  /** struct timespec */
  datatype TimeSpec = TimeSpec(sec: int, nsec: int)

  /** ut_f_to_timespec: both conversions truncate, and the times are never negative. */
  function ToTimeSpec(t: real): TimeSpec
    requires t >= 0.0
  {
    var sec := t.Floor;
    TimeSpec(sec, ((t - sec as real) * 1000000000.0).Floor)
  }

  function Nanos(ts: TimeSpec): int {
    ts.sec * 1000000000 + ts.nsec
  }

  /** A timespec is the expiry rounded down to a whole nanosecond, with a proper nanosecond part. */
  lemma TimeSpecRoundsDown(t: real)
    requires t >= 0.0
    ensures Nanos(ToTimeSpec(t)) == (t * 1000000000.0).Floor
    ensures ToTimeSpec(t).sec >= 0 && 0 <= ToTimeSpec(t).nsec < 1000000000
  {
  }

  /** What arm_timer_fd programs: an all-zero value would disarm the timer, so it becomes 1 ns. */
  function ArmValue(t: real): TimeSpec
    requires t >= 0.0
  {
    var ts := ToTimeSpec(t);
    if ts == TimeSpec(0, 0) then TimeSpec(0, 1) else ts
  }

  /** Once the clock has passed `t`, a timer armed for `t` has fired. */
  lemma ArmedInTime(t: real, clock: nat)
    requires t >= 0.0 && Seconds(clock) > t
    ensures Nanos(ArmValue(t)) <= clock && ArmValue(t) != TimeSpec(0, 0)
  {
  }

  /** The outstanding timers by id, the head of the list winning. */
  ghost function TimerMap(timers: seq<MTimer>): map<int, real> {
    if timers == [] then map[] else TimerMap(timers[1..])[timers[0].id := timers[0].expiry]
  }

  ghost predicate UniqueIds(timers: seq<MTimer>) {
    timers == [] || (timers[0].id !in TimerMap(timers[1..]) && UniqueIds(timers[1..]))
  }

  ghost predicate IsMinimum(timers: seq<MTimer>, t: real) {
    && (exists i :: 0 <= i < |timers| && timers[i].expiry == t)
    && (forall i :: 0 <= i < |timers| ==> t <= timers[i].expiry)
  }

  /** The kernel timer is disarmed exactly when nothing is outstanding, and otherwise armed at
      the earliest expiry. */
  ghost predicate ArmedAtMinimum(timers: seq<MTimer>, armed: Option<TimeSpec>) {
    match armed
    case None => timers == []
    case Some(ts) => exists t :: t >= 0.0 && IsMinimum(timers, t) && ts == ArmValue(t)
  }

  /** The kernel marks a timerfd readable once its absolute expiry has been reached. */
  predicate TimerFdReadable(armed: Option<TimeSpec>, clock: nat) {
    armed.Some? && Nanos(armed.value) <= clock
  }

  lemma {:induction false} FoundTimer(timers: seq<MTimer>, i: nat)
    requires UniqueIds(timers) && i < |timers|
    ensures timers[i].id in TimerMap(timers) && TimerMap(timers)[timers[i].id] == timers[i].expiry
  {
    if i > 0 {
      FoundTimer(timers[1..], i - 1);
    }
  }

  lemma {:induction false} TimerIndex(timers: seq<MTimer>, id: int) returns (i: nat)
    requires UniqueIds(timers) && id in TimerMap(timers)
    ensures i < |timers| && timers[i] == MTimer(id, TimerMap(timers)[id])
  {
    if timers[0].id == id {
      return 0;
    }
    i := TimerIndex(timers[1..], id);
    i := i + 1;
  }

  lemma MissingTimer(timers: seq<MTimer>, id: int)
    requires UniqueIds(timers) && forall i :: 0 <= i < |timers| ==> timers[i].id != id
    ensures id !in TimerMap(timers) && TimerMap(timers) - {id} == TimerMap(timers)
  {
  }

  lemma {:induction false} RemovedTimer(timers: seq<MTimer>, i: nat)
    requires UniqueIds(timers) && i < |timers|
    ensures UniqueIds(timers[..i] + timers[i + 1..])
    ensures TimerMap(timers[..i] + timers[i + 1..]) == TimerMap(timers) - {timers[i].id}
  {
    var after := timers[..i] + timers[i + 1..];
    if i == 0 {
      assert after == timers[1..];
    } else {
      var rest := timers[1..];
      assert after[1..] == rest[..i - 1] + rest[i..];
      RemovedTimer(rest, i - 1);
      FoundTimer(rest, i - 1);
    }
  }

  class Timers {
    const kernel: Kernel
    const xpoll: Xpoll
    const timerFd: Fd
    var timerFdRegId: int
    var mtimers: seq<MTimer>
    var nextTimerId: nat
    /** What the kernel has the timer descriptor set to. */
    var armed: Option<TimeSpec>
    /** The outstanding timers as the users see them: id to expiry time. */
    ghost var live: map<int, real>

    ghost predicate Valid()
      reads this
    {
      && timerFd.Desc?
      && UniqueIds(mtimers)
      && live == TimerMap(mtimers)
      && (forall i :: 0 <= i < |mtimers| ==> 0 <= mtimers[i].id < nextTimerId && mtimers[i].expiry >= 0.0)
      && ArmedAtMinimum(mtimers, armed)
    }

    /** timer_mgr_create after timerfd_create has given out `fd`. */
    constructor (kernel: Kernel, xpoll: Xpoll, fd: Fd)
      requires xpoll.Valid() && fd.Desc? && Unregistered(xpoll.regs, fd)
      modifies xpoll
      ensures Valid() && live == map[] && this.kernel == kernel && this.xpoll == xpoll && timerFd == fd
      ensures xpoll.Valid() && xpoll.bells == old(xpoll.bells)
      ensures timerFdRegId >= 0 && timerFdRegId !in old(xpoll.regs)
      ensures xpoll.regs == old(xpoll.regs)[timerFdRegId := FdReg(fd, {IN})]
    {
      this.kernel := kernel;
      this.xpoll := xpoll;
      timerFd := fd;
      mtimers, nextTimerId := [], 0;
      armed := None;
      live := map[];
      new;
      timerFdRegId := xpoll.FdRegAdd(fd, {IN});
    }

    /** timer_mgr_create */
    static method Create(kernel: Kernel, xpoll: Xpoll) returns (t: Timers?)
      requires xpoll.Valid() && RegsOpen(xpoll.regs, kernel.open)
      modifies xpoll, kernel`open
      ensures xpoll.Valid() && xpoll.bells == old(xpoll.bells)
      ensures t == null ==> xpoll.regs == old(xpoll.regs) && kernel.open == old(kernel.open)
      ensures t != null ==>
                && fresh(t) && t.Valid() && t.live == map[] && t.kernel == kernel && t.xpoll == xpoll
                && t.timerFd.Desc? && t.timerFd !in old(kernel.open) && kernel.open == old(kernel.open) + {t.timerFd}
                && t.timerFdRegId >= 0 && t.timerFdRegId !in old(xpoll.regs)
                && xpoll.regs == old(xpoll.regs)[t.timerFdRegId := FdReg(t.timerFd, {IN})]
    {
      hide Xpoll.Valid;
      var fd := kernel.OpenDesc();
      if fd == NoFd {
        return null;
      }
      t := new Timers(kernel, xpoll, fd);
    }

    /** update_epoll: finds the earliest expiry and programs the kernel timer with it. */
    method UpdateEpoll()
      requires forall i :: 0 <= i < |mtimers| ==> mtimers[i].expiry >= 0.0
      modifies `armed
      ensures ArmedAtMinimum(mtimers, armed)
    {
      if mtimers == [] {
        armed := None;
      } else {
        var candidate := mtimers[0];
        var i := 1;
        while i < |mtimers|
          invariant 1 <= i <= |mtimers|
          invariant candidate in mtimers[..i]
          invariant forall j :: 0 <= j < i ==> candidate.expiry <= mtimers[j].expiry
        {
          if mtimers[i].expiry < candidate.expiry {
            candidate := mtimers[i];
          }
          i := i + 1;
        }
        assert IsMinimum(mtimers, candidate.expiry);
        armed := Some(ArmValue(candidate.expiry));
      }
    }

    /** timer_mgr_schedule: the new timer gets an id that no outstanding timer has. */
    method Schedule(relative: real) returns (id: int)
      requires Valid()
      modifies this, kernel`clock
      ensures Valid() && timerFdRegId == old(timerFdRegId)
      ensures id >= 0 && id !in old(live) && kernel.clock >= old(kernel.clock)
      ensures live == old(live)[id := Seconds(kernel.clock) + if relative < 0.0 then 0.0 else relative]
    {
      var now := kernel.FTime();
      var expiry := now + if relative < 0.0 then 0.0 else relative;
      id := nextTimerId;
      nextTimerId := nextTimerId + 1;
      MissingTimer(mtimers, id);
      assert ([MTimer(id, expiry)] + mtimers)[1..] == mtimers;
      mtimers := [MTimer(id, expiry)] + mtimers;
      live := TimerMap(mtimers);
      UpdateEpoll();
    }

    /** try_cancel: a live timer is removed, an unknown id (such as -1) changes nothing. */
    method TryCancel(id: int) returns (existed: bool)
      requires Valid()
      modifies this
      ensures Valid() && timerFdRegId == old(timerFdRegId)
      ensures existed <==> id in old(live)
      ensures live == old(live) - {id}
    {
      var i := 0;
      while i < |mtimers| && mtimers[i].id != id
        invariant 0 <= i <= |mtimers|
        invariant forall j :: 0 <= j < i ==> mtimers[j].id != id
      {
        i := i + 1;
      }
      existed := i < |mtimers|;
      if existed {
        FoundTimer(mtimers, i);
        RemovedTimer(mtimers, i);
        mtimers := mtimers[..i] + mtimers[i + 1..];
        live := TimerMap(mtimers);
        UpdateEpoll();
      } else {
        MissingTimer(mtimers, id);
      }
    }

    /** timer_mgr_cancel; the caller's id becomes -1. */
    method Cancel(id: int) returns (cleared: int)
      requires Valid()
      modifies this
      ensures Valid() && timerFdRegId == old(timerFdRegId)
      ensures cleared == -1 && live == old(live) - {id} && (id < 0 ==> live == old(live))
    {
      if id < 0 {
        NoNegativeIds(id);
      }
      var _ := TryCancel(id);
      cleared := -1;
    }

    /** timer_mgr_ack: the timer must exist. */
    method Ack(id: int) returns (cleared: int)
      requires Valid() && id in live
      modifies this
      ensures Valid() && timerFdRegId == old(timerFdRegId)
      ensures cleared == -1 && live == old(live) - {id}
    {
      var existed := TryCancel(id);
      assert existed;
      cleared := -1;
    }

    /** timer_mgr_reschedule */
    method Reschedule(relative: real, id: int) returns (newId: int)
      requires Valid()
      modifies this, kernel`clock
      ensures Valid() && timerFdRegId == old(timerFdRegId)
      ensures newId >= 0 && newId !in old(live) - {id} && kernel.clock >= old(kernel.clock)
      ensures live == (old(live) - {id})[newId := Seconds(kernel.clock) + if relative < 0.0 then 0.0 else relative]
    {
      if id >= 0 {
        var _ := Cancel(id);
      } else {
        NoNegativeIds(id);
      }
      newId := Schedule(relative);
    }

    lemma NoNegativeIds(id: int)
      requires Valid() && id < 0
      ensures id !in live && live - {id} == live
    {
      MissingTimer(mtimers, id);
    }

    /** timer_mgr_has_expired: only asked about outstanding timers. */
    method HasExpired(id: int) returns (expired: bool)
      requires Valid() && id in live
      modifies kernel`clock
      ensures kernel.clock >= old(kernel.clock)
      ensures expired <==> Seconds(kernel.clock) > live[id]
    {
      var i := 0;
      while i < |mtimers| && mtimers[i].id != id
        invariant 0 <= i <= |mtimers|
        invariant forall j :: 0 <= j < i ==> mtimers[j].id != id
      {
        i := i + 1;
      }
      ghost var at := TimerIndex(mtimers, id);
      FoundTimer(mtimers, i);
      var now := kernel.FTime();
      expired := now > mtimers[i].expiry;
    }

    /** timer_mgr_destroy */
    method Destroy()
      requires Valid() && xpoll.Valid()
      requires timerFdRegId in xpoll.regs && xpoll.regs[timerFdRegId].fd == timerFd && timerFd in kernel.open
      modifies this, xpoll, kernel`open
      ensures xpoll.Valid() && xpoll.bells == old(xpoll.bells)
      ensures xpoll.regs == old(xpoll.regs) - {old(timerFdRegId)}
      ensures kernel.open == old(kernel.open) - {timerFd}
      ensures live == map[]
    {
      xpoll.FdRegDel(timerFdRegId);
      kernel.Close(timerFd);
      mtimers := [];
      live := map[];
    }

    /** An expired outstanding timer always makes the timer descriptor readable, and the
        descriptor is never set to the all-zero value that would silence it. */
    lemma ExpiredImpliesReadable(id: int, clock: nat)
      requires Valid() && id in live && Seconds(clock) > live[id]
      ensures TimerFdReadable(armed, clock)
      ensures armed.Some? && armed.value != TimeSpec(0, 0)
    {
      var i := TimerIndex(mtimers, id);
      var t :| t >= 0.0 && IsMinimum(mtimers, t) && armed.value == ArmValue(t);
      ArmedInTime(t, clock);
    }

    /** No false alarm: a readable timer descriptor means the earliest timer is due within the
        nanosecond that the rounding took off. */
    lemma ReadableImpliesDue(clock: nat)
      requires Valid() && TimerFdReadable(armed, clock)
      ensures exists id :: id in live && live[id] < Seconds(clock + 1)
    {
      var t :| t >= 0.0 && IsMinimum(mtimers, t) && armed.value == ArmValue(t);
      var i :| 0 <= i < |mtimers| && mtimers[i].expiry == t;
      FoundTimer(mtimers, i);
      TimeSpecRoundsDown(t);
      assert t * 1000000000.0 < (clock + 1) as real;
    }
  }
}
