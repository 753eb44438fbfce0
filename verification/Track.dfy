/** libxcm/tp/tcp/tconnect.c, struct track: one sequence of connection attempts over the remote
    addresses of the families it has a socket for. */
module Tracks {
  import opened KernelModel
  import opened XpollTable
  import opened TimerMgr

  datatype TrackState = InitialDelay | Connecting | Connected | Finished | Bad

  /** The outcome of asking for a connected descriptor. */
  datatype FdResult = Got(fd: Fd) | Failed(errno: int)

  /** One address taken up by a track, the clock when connect(2) was issued for it, and how many
      system calls had been made before. An address whose socket could not be set up or bound gets
      no connect. */
  datatype Try = Try(idx: int, issuedAt: Option<nat>, from: nat)

  /** Why an address was given up: the answer of the kernel to a system call, or a timer set to
      `due` that had expired at clock `at`. */
  datatype Cause = Answer(call: int) | Expired(due: real, at: nat)

  predicate Supports(has4: bool, has6: bool, f: Family) {
    if f == V4 then has4 else has6
  }

  /** The addresses among the first `n` that a track with these sockets is to try, in order. */
  function Eligible(ips: seq<Family>, has4: bool, has6: bool, n: nat): seq<int>
    requires n <= |ips|
  {
    if n == 0 then []
    else Eligible(ips, has4, has6, n - 1) + if Supports(has4, has6, ips[n - 1]) then [n - 1] else []
  }

  /** The eligible addresses are exactly the supported ones. */
  lemma {:induction false} EligibleMember(ips: seq<Family>, has4: bool, has6: bool, n: nat, k: int)
    requires n <= |ips|
    ensures k in Eligible(ips, has4, has6, n) <==> 0 <= k < n && Supports(has4, has6, ips[k])
  {
    if n > 0 {
      EligibleMember(ips, has4, has6, n - 1, k);
    }
  }

  /** They are taken in resolver order, each once. */
  lemma {:induction false} EligibleOrdered(ips: seq<Family>, has4: bool, has6: bool, n: nat, i: nat, j: nat)
    requires n <= |ips| && i < j < |Eligible(ips, has4, has6, n)|
    ensures Eligible(ips, has4, has6, n)[i] < Eligible(ips, has4, has6, n)[j]
  {
    var e := Eligible(ips, has4, has6, n - 1);
    if j < |e| {
      EligibleOrdered(ips, has4, has6, n - 1, i, j);
    } else {
      EligibleMember(ips, has4, has6, n - 1, e[i]);
    }
  }

  ghost function TriedIdx(tried: seq<Try>): seq<int> {
    seq(|tried|, i requires 0 <= i < |tried| => tried[i].idx)
  }

  lemma TriedOneMore(tried: seq<Try>, t: Try)
    ensures TriedIdx(tried + [t]) == TriedIdx(tried) + [t.idx]
  {
  }

  /** Every connect recorded from position `from` on was issued at `clock` or later. */
  ghost predicate IssuedSince(tried: seq<Try>, from: nat, clock: nat) {
    forall k :: from <= k < |tried| && tried[k].issuedAt.Some? ==> tried[k].issuedAt.value >= clock
  }

  class Track {
    const kernel: Kernel
    const xpoll: Xpoll
    const timers: Timers

    const ips: seq<Family>
    const connectTimeout: real
    const bindLocal: bool
    const initialDelay: real

    var fd4: Fd
    var fd6: Fd
    var fdRegId: int
    var timerId: int
    var state: TrackState
    var ipIdx: int
    var badnessReason: int

    /** Which sockets the track was given, and whether (and until when) it had to wait. */
    ghost const has4: bool
    ghost const has6: bool
    ghost const delayed: bool
    ghost const s4: Fd
    ghost const s6: Fd
    ghost var notBefore: real
    /** History: addresses taken up, the errors of those that failed, and their causes. */
    ghost var tried: seq<Try>
    ghost var errors: seq<int>
    ghost var causes: seq<Cause>
    /** How many system calls had been made when the track was created. */
    ghost const since: nat

    ghost function Fds(): set<Fd>
      reads `fd4, `fd6
    {
      {fd4, fd6} - {NoFd}
    }

    /** The sockets the track was given. */
    ghost function Own(): set<Fd> {
      {s4, s6} - {NoFd}
    }

    function CurrentFd(): Fd
      requires 0 <= ipIdx < |ips|
      reads `ipIdx, `fd4, `fd6
    {
      if ips[ipIdx] == V4 then fd4 else fd6
    }

    /** The registration this track owns in the poll set while `fdRegId` is valid. */
    ghost function OwnReg(): FdReg
      reads this
    {
      FdReg(if 0 <= ipIdx < |ips| then CurrentFd() else NoFd, {OUT})
    }

    /** Facts that hold at all times, also in the middle of an operation. */
    ghost predicate Basics()
      reads this
    {
      && -1 <= ipIdx < |ips|
      && fdRegId >= -1 && timerId >= -1
      && (fd4 == NoFd || fd4.Desc?) && (fd6 == NoFd || fd6.Desc?) && (fd4 == fd6 ==> fd4 == NoFd)
      && (state != Finished ==> (fd4 != NoFd <==> has4) && (fd6 != NoFd <==> has6) && fd4 == s4 && fd6 == s6)
      && Fds() <= Own()
      && TriedIdx(tried) == Eligible(ips, has4, has6, ipIdx + 1)
      && |errors| <= |tried|
      && (forall k :: 0 <= k < |errors| ==> HardError(errors[k]))
      && (ipIdx >= 0 ==> Supports(has4, has6, ips[ipIdx]) && tried != [] && tried[|tried| - 1].idx == ipIdx)
    }

    /** What is true of the track in each state between calls. */
    ghost predicate Resting()
      reads this
    {
      && (fdRegId >= 0 <==> state == Connecting || state == Connected)
      && (state == InitialDelay ==> timerId >= 0 && ipIdx == -1 && delayed)
      && (state == Connecting ==> timerId >= 0)
      && (state in {Connecting, Connected, Finished} ==> ipIdx >= 0 && |errors| == |tried| - 1)
      && (state == Bad ==>
            && timerId == -1
            && |errors| == |tried|
            && TriedIdx(tried) == Eligible(ips, has4, has6, |ips|)
            && badnessReason == if errors == [] then ENOENT else errors[|errors| - 1])
      && badnessReason == if errors != [] then errors[|errors| - 1] else if state == Bad then ENOENT else 0
    }

    /** The poll set and the timer manager hold what the track believes they hold, and nobody
        else has registered its sockets. */
    ghost predicate Linked()
      reads this, xpoll, timers
    {
      && (fdRegId >= 0 ==> fdRegId in xpoll.regs && xpoll.regs[fdRegId] == OwnReg())
      && (forall id :: id in xpoll.regs && (fdRegId < 0 || id != fdRegId) ==> xpoll.regs[id].fd !in Fds())
      && (timerId >= 0 ==> timerId in timers.live)
    }

    /** A delayed track issues no connect before its delay is over. */
    ghost predicate Paced()
      reads this, timers, kernel`clock
    {
      delayed ==>
        && notBefore <= Seconds(kernel.clock) + initialDelay
        && (state == InitialDelay ==> timerId in timers.live && timers.live[timerId] == notBefore)
        && (state != InitialDelay ==> Seconds(kernel.clock) > notBefore)
        && (forall k :: 0 <= k < |tried| && tried[k].issuedAt.Some? ==> Seconds(tried[k].issuedAt.value) > notBefore)
    }

    /** How long an attempt may take; the timer manager takes negative times for zero. */
    ghost function Patience(): real {
      if connectTimeout < 0.0 then 0.0 else connectTimeout
    }

    /** The attempt under way is given the connect timeout, counted from after its connect. */
    ghost predicate Timed()
      reads this, timers, kernel`clock
    {
      state == Connecting ==>
        && timerId in timers.live && tried != [] && tried[|tried| - 1].issuedAt.Some?
        && Seconds(tried[|tried| - 1].issuedAt.value) + Patience() <= timers.live[timerId]
        && timers.live[timerId] <= Seconds(kernel.clock) + Patience()
    }

    /** The socket for an address. */
    ghost function SocketFor(idx: int): Fd {
      if 0 <= idx < |ips| && ips[idx] == V4 then s4 else s6
    }

    /** Address `k` in the order of trying was given up for what the kernel answered to a call made
        for it on its socket, or because its timer had expired. */
    ghost predicate Explained(k: nat)
      requires k < |errors| == |causes| && |errors| <= |tried|
      reads `tried, `errors, `causes, kernel`log
    {
      match causes[k]
      case Answer(i) =>
        && 0 <= tried[k].from <= i < |kernel.log| && (k + 1 < |tried| ==> i < tried[k + 1].from)
        && kernel.log[i].fd == SocketFor(tried[k].idx)
        && (kernel.log[i].SysConfigure? || kernel.log[i].SysConnect?) && kernel.log[i].errno == errors[k]
      case Expired(due, at) =>
        && errors[k] == ETIMEDOUT && tried[k].issuedAt.Some?
        && Seconds(tried[k].issuedAt.value) + Patience() <= due < Seconds(at)
    }

    /** The history is that of the calls made: the addresses were taken up in this order, and each
        that failed did so for its cause. */
    ghost predicate History()
      reads `tried, `errors, `causes, kernel`log
    {
      && since <= |kernel.log| && |causes| == |errors| <= |tried|
      && (forall k :: 0 <= k < |tried| ==> since <= tried[k].from <= |kernel.log|)
      && (forall k: nat :: k < |errors| ==> Explained(k))
    }

    /** The kernel has not reported any of these sockets as connected. */
    ghost predicate Silence(fds: set<Fd>)
      reads kernel`log
    {
      forall s :: s in fds ==> LastAnswer(kernel.log, since, s) != Some(0)
    }

    /** What the kernel has said last about the attempt under way. */
    ghost predicate LastSaid(errno: int)
      reads `tried, `ipIdx, `fd4, `fd6, kernel`log
    {
      && tried != [] && 0 <= ipIdx < |ips|
      && LastAnswer(kernel.log, tried[|tried| - 1].from, CurrentFd()) == Some(errno)
    }

    /** A track is connecting while the kernel says so, and connected exactly when it says so. */
    ghost predicate Believed()
      reads `state, `tried, `errors, `causes, `ipIdx, `fd4, `fd6, kernel`log
    {
      && History()
      && match state
         case Connecting => LastSaid(EINPROGRESS) && Silence(Fds())
         case Connected => LastSaid(0) && 0 <= ipIdx < |ips| && Silence(Fds() - {CurrentFd()})
         case _ => Silence(Fds())
    }

    ghost predicate Valid()
      reads this, xpoll, timers, kernel
    {
      Basics() && Resting() && Linked() && Paced() && Timed() && Believed()
    }

    /** Calls that say nothing about the connects of these sockets change nothing. */
    twostate lemma BelievedStill()
      requires old(Believed()) && unchanged(this) && Spares(old(kernel.log), kernel.log, Fds())
      requires Basics() && Resting()
      ensures Believed()
    {
      hide LastAnswer, Explained, Eligible, TriedIdx;
      HistoryStill();
      forall s, from: nat | s in Fds() && from <= |old(kernel.log)|
        ensures LastAnswer(kernel.log, from, s) == LastAnswer(old(kernel.log), from, s)
      {
        SparedHistory(old(kernel.log), kernel.log, from, s);
      }
    }

    /** Nor do they make a track wait for something it did not wait for. */
    twostate lemma NotDueStill()
      requires unchanged(this) && Spares(old(kernel.log), kernel.log, Fds()) && Basics() && Resting()
      requires timerId >= 0 && timerId in old(timers.live) ==>
                 timerId in timers.live && timers.live[timerId] == old(timers.live)[timerId]
      ensures forall clock, calls: nat :: calls <= |old(kernel.log)| && old(NotDueBefore(clock, calls)) ==>
                NotDueBefore(clock, calls)
    {
      hide LastAnswer, Eligible, TriedIdx;
      forall s, from: nat | s in Fds() && from <= |old(kernel.log)|
        ensures LastAnswer(kernel.log, from, s) == LastAnswer(old(kernel.log), from, s)
      {
        SparedHistory(old(kernel.log), kernel.log, from, s);
      }
    }

    twostate lemma HistoryStill()
      requires old(History()) && unchanged(this) && old(kernel.log) <= kernel.log
      ensures History()
    {
      forall k: nat | k < |errors| ensures Explained(k) {
        assert old(Explained(k));
      }
    }

    /** A call has been made on the socket of the attempt under way. */
    twostate lemma CallMade(e: SysCall)
      requires old(History()) && unchanged(this) && old(Silence(Fds())) && kernel.log == old(kernel.log) + [e]
      requires tried != [] && 0 <= ipIdx < |ips| && e.fd == CurrentFd()
      ensures History() && Silence(Fds() - {CurrentFd()}) && tried[|tried| - 1].from < |kernel.log|
      ensures e.SysConnect? ==> LastSaid(e.errno)
      ensures (e.SysConnect? ==> e.errno != 0) ==> Silence(Fds())
    {
      hide LastAnswer, Explained;
      HistoryStill();
      forall s, from: nat | from <= |old(kernel.log)|
        ensures LastAnswer(kernel.log, from, s) ==
                if e.SysConnect? && e.fd == s then Some(e.errno) else LastAnswer(old(kernel.log), from, s)
      {
        LoggedOne(old(kernel.log), e, from, s);
      }
    }

    /** If the track is waiting, then for a timer that had not expired at `clock`; and if for a
        connect, then the kernel has been asked about it since it had been called `calls` times. */
    ghost predicate NotDueBefore(clock: nat, calls: nat)
      reads this, timers, kernel`log
    {
      && (state in {InitialDelay, Connecting} ==> timerId in timers.live && timers.live[timerId] >= Seconds(clock))
      && (state == Connecting ==>
            0 <= ipIdx < |ips| && LastAnswer(kernel.log, calls, CurrentFd()) == Some(EINPROGRESS))
    }

    /** The shared objects are usable and the track's sockets are open. */
    ghost predicate Env()
      reads this, xpoll, xpoll.pool, timers, kernel`open
    {
      && xpoll.Valid() && timers.Valid()
      && timers.kernel == kernel && timers.xpoll == xpoll
      && Fds() <= kernel.open
    }

    /** How an operation of this track may change the shared poll set and timers: it replaces
        its own registration and its own timer, and touches nothing else. */
    twostate predicate OnlyOwnChanged()
      reads this, xpoll, timers
    {
      && xpoll.regs == Swapped(old(xpoll.regs), old(fdRegId), fdRegId, OwnReg())
      && (fdRegId == -1 || fdRegId == old(fdRegId) || fdRegId !in old(xpoll.regs))
      && xpoll.bells == old(xpoll.bells)
      && (timerId >= 0 ==> timerId in timers.live)
      && timers.live == Swapped(old(timers.live), old(timerId), timerId,
                                if timerId >= 0 then timers.live[timerId] else 0.0)
      && (timerId == -1 || timerId == old(timerId) || timerId !in old(timers.live))
      && timers.timerFdRegId == old(timers.timerFdRegId)
    }

    lemma NotDueEarlier(clock: nat, calls: nat, since: nat, from: nat)
      requires NotDueBefore(clock, calls) && since <= clock && from <= calls
      ensures NotDueBefore(since, from)
    {
      hide LastAnswer;
      if state == Connecting {
        FurtherBack(kernel.log, from, calls, CurrentFd());
      }
    }

    /** A registration of a track is for one of its own sockets. */
    lemma OwnRegIsOwnSocket()
      requires Valid()
      ensures Linked() && fdRegId >= -1 && timerId >= -1
      ensures fdRegId >= 0 ==> OwnReg().fd in Fds()
    {
    }

    lemma OwnIsFds()
      requires Valid() && state != Finished
      ensures Own() == Fds()
    {
    }

    /** Over the whole life of a track: the addresses it takes up are of the families it has a
        socket for, in resolver order, each at most once, and none is passed over; it is bad only
        when all of them have failed, for the reason of the last, or ENOENT when there was none. */
    lemma AddressDiscipline()
      requires Valid()
      ensures forall i, j :: 0 <= i < j < |tried| ==> tried[i].idx < tried[j].idx
      ensures forall i :: 0 <= i < |tried| ==> 0 <= tried[i].idx <= ipIdx && Supports(has4, has6, ips[tried[i].idx])
      ensures forall k :: 0 <= k <= ipIdx && Supports(has4, has6, ips[k]) ==> TakenUp(k)
    {
      hide Linked, Paced, Resting;
      forall i, j | 0 <= i < j < |tried| ensures tried[i].idx < tried[j].idx {
        assert TriedIdx(tried)[i] == tried[i].idx && TriedIdx(tried)[j] == tried[j].idx;
        EligibleOrdered(ips, has4, has6, ipIdx + 1, i, j);
      }
      forall i | 0 <= i < |tried| ensures 0 <= tried[i].idx <= ipIdx && Supports(has4, has6, ips[tried[i].idx]) {
        assert TriedIdx(tried)[i] == tried[i].idx;
        EligibleMember(ips, has4, has6, ipIdx + 1, tried[i].idx);
      }
      forall k | 0 <= k <= ipIdx && Supports(has4, has6, ips[k]) ensures TakenUp(k) {
        EligibleMember(ips, has4, has6, ipIdx + 1, k);
        ListedIsTaken(k);
      }
    }

    /** The address at index `k` is one of those the track has taken up. */
    ghost predicate TakenUp(k: int)
      reads this
    {
      exists t :: 0 <= t < |tried| && tried[t].idx == k
    }

    lemma ListedIsTaken(k: int)
      requires k in TriedIdx(tried)
      ensures TakenUp(k)
    {
    }

    lemma BadMeansExhausted()
      requires Valid() && state == Bad
      ensures badnessReason != 0 && |errors| == |tried|
      ensures forall t :: 0 <= t < |tried| ==> HardError(errors[t])
      ensures forall k :: 0 <= k < |ips| && Supports(has4, has6, ips[k]) ==> TakenUp(k)
      ensures badnessReason == if tried == [] then ENOENT else errors[|errors| - 1]
      ensures |causes| == |errors| && forall t: nat :: t < |errors| ==> Explained(t)
    {
      hide Linked, Paced, Explained;
      forall k | 0 <= k < |ips| && Supports(has4, has6, ips[k]) ensures TakenUp(k) {
        EligibleMember(ips, has4, has6, |ips|, k);
        ListedIsTaken(k);
      }
    }

    /** An operation of one track leaves a track with other sockets and another timer valid. */
    twostate lemma OtherTrackKept(other: Track)
      requires other != this && unchanged(other) && other.xpoll == xpoll && other.timers == timers
      requires other.kernel == kernel
      requires old(other.Valid()) && old(Linked()) && (old(fdRegId) >= 0 ==> old(OwnReg()).fd in old(Fds()))
      requires OnlyOwnChanged() && kernel.clock >= old(kernel.clock) && fdRegId >= -1 && timerId >= -1
      requires fdRegId >= 0 ==> OwnReg().fd in old(Fds())
      requires old(Fds()) !! other.Fds()
      requires other.timerId == -1 || other.timerId != old(timerId)
      requires LogsFor(old(kernel.log), kernel.log, Own()) && Own() !! other.Own()
      ensures other.Valid()
      ensures other.timerId == -1 || other.timerId != timerId
      ensures forall clock, calls: nat :: calls <= |old(kernel.log)| && old(other.NotDueBefore(clock, calls)) ==>
                other.NotDueBefore(clock, calls)
    {
      hide Xpoll.Valid, Timers.Valid, Eligible, TriedIdx, Believed;
      assert other.fdRegId >= 0 ==> other.OwnReg().fd in other.Fds();
      other.BelievedStill();
      other.NotDueStill();
    }

    /** The initializer of track_create. */
    constructor (kernel: Kernel, xpoll: Xpoll, timers: Timers, fd4: Fd, fd6: Fd,
                 ips: seq<Family>, connectTimeout: real, bindLocal: bool, initialDelay: real)
      ensures this.kernel == kernel && this.xpoll == xpoll && this.timers == timers
      ensures this.ips == ips && this.fd4 == fd4 && this.fd6 == fd6 && this.initialDelay == initialDelay
      ensures this.connectTimeout == connectTimeout && this.bindLocal == bindLocal
      ensures has4 == (fd4 != NoFd) && has6 == (fd6 != NoFd) && delayed == (initialDelay > 0.0)
      ensures fdRegId == timerId == ipIdx == -1 && badnessReason == 0 && tried == [] && errors == [] && causes == []
      ensures state == Connecting && s4 == fd4 && s6 == fd6 && since == |kernel.log|
    {
      this.kernel, this.xpoll, this.timers := kernel, xpoll, timers;
      this.ips, this.connectTimeout, this.bindLocal := ips, connectTimeout, bindLocal;
      this.initialDelay := initialDelay;
      this.fd4, this.fd6 := fd4, fd6;
      fdRegId, timerId, ipIdx, badnessReason := -1, -1, -1, 0;
      state := Connecting;
      has4, has6, delayed := fd4 != NoFd, fd6 != NoFd, initialDelay > 0.0;
      s4, s6 := fd4, fd6;
      notBefore := 0.0;
      tried, errors, causes := [], [], [];
      since := |kernel.log|;
    }

    /** The rest of track_create: wait first, or start connecting at once. */
    method Start()
      requires Env() && Linked() && delayed == (initialDelay > 0.0)
      requires (fd4 == NoFd || fd4.Desc?) && (fd6 == NoFd || fd6.Desc?) && (fd4 == fd6 ==> fd4 == NoFd)
      requires has4 == (fd4 != NoFd) && has6 == (fd6 != NoFd)
      requires fdRegId == timerId == ipIdx == -1 && badnessReason == 0 && tried == [] && errors == [] && causes == []
      requires state == Connecting && s4 == fd4 && s6 == fd6 && since <= |kernel.log| && Silence(Fds())
      modifies this, xpoll, timers, kernel`clock, kernel`log
      ensures LogsFor(old(kernel.log), kernel.log, Own())
      ensures Valid() && Env() && state != Finished
      ensures fd4 == old(fd4) && fd6 == old(fd6)
      ensures OnlyOwnChanged() && kernel.clock >= old(kernel.clock)
      ensures fdRegId >= -1 && timerId >= -1 && (fdRegId >= 0 ==> OwnReg().fd in Fds())
      ensures delayed ==> state == InitialDelay && tried == [] && notBefore >= Seconds(old(kernel.clock)) + initialDelay
      ensures !delayed && state != Bad ==> tried != []
    {
      hide Xpoll.Valid, Timers.Valid;
      if initialDelay > 0.0 {
        timerId := timers.Schedule(initialDelay);
        notBefore := timers.live[timerId];
        state := InitialDelay;
      } else {
        ConnectNext();
      }
    }

    /** In the middle of track_connect_next: nothing registered, no timer, and every address
        taken up so far but the last `pending` ones has failed. */
    ghost predicate Between(pending: nat)
      reads this, xpoll, timers, kernel
    {
      && Basics() && Linked() && Paced() && History() && Silence(Fds())
      && state == Connecting && fdRegId == -1 && timerId == -1
      && |errors| + pending == |tried| && (pending > 0 ==> ipIdx >= 0)
      && badnessReason == if errors != [] then errors[|errors| - 1] else 0
    }

    /** The search loop of track_connect_next. */
    method PickNext() returns (found: bool)
      requires Between(0) && Env()
      modifies `ipIdx, `tried
      ensures found ==> ipIdx > old(ipIdx) && tried == old(tried) + [Try(ipIdx, None, |kernel.log|)] && Between(1)
      ensures !found ==>
                ipIdx == old(ipIdx) && tried == old(tried) && TriedIdx(tried) == Eligible(ips, has4, has6, |ips|)
    {
      hide Xpoll.Valid, Timers.Valid, TriedIdx, Silence;
      var idx := ipIdx + 1;
      while idx < |ips| && !(if ips[idx] == V4 then fd4 != NoFd else fd6 != NoFd)
        invariant ipIdx < idx <= |ips|
        invariant Eligible(ips, has4, has6, idx) == Eligible(ips, has4, has6, ipIdx + 1)
      {
        idx := idx + 1;
      }
      found := idx < |ips|;
      if found {
        TakeUp(idx);
      }
    }

    /** The address at `idx` is the next to try. */
    method TakeUp(idx: nat)
      requires Between(0) && ipIdx < idx < |ips| && Supports(has4, has6, ips[idx])
      requires Eligible(ips, has4, has6, idx) == Eligible(ips, has4, has6, ipIdx + 1)
      modifies `ipIdx, `tried
      ensures ipIdx == idx && tried == old(tried) + [Try(idx, None, |kernel.log|)] && Between(1)
    {
      hide Xpoll.Valid, Timers.Valid, TriedIdx, Silence, Explained;
      TriedOneMore(tried, Try(idx, None, |kernel.log|));
      ipIdx := idx;
      tried := tried + [Try(idx, None, |kernel.log|)];
      forall k: nat | k < |errors| ensures Explained(k) {
        ExplainedStill(k);
      }
    }

    twostate lemma ExplainedStill(k: nat)
      requires unchanged(`errors, `causes, kernel`log) && old(tried) < tried && k < |errors| == |causes| <= |old(tried)|
      requires old(Explained(k)) && tried[|old(tried)|].from == |kernel.log|
      ensures Explained(k)
    {
    }

    /** tcp_opts_effectuate and, with a local address, bind. */
    method SetUpSocket(fd: Fd) returns (errno: int)
      requires Between(1) && Env() && fd == CurrentFd()
      modifies kernel`log
      ensures Between(1) && LogsFor(old(kernel.log), kernel.log, Own())
      ensures errno == 0 || (HardError(errno) && Accounts(Answer(|kernel.log| - 1), errno))
    {
      hide Xpoll.Valid, Timers.Valid, Eligible, TriedIdx, History, Silence, Explained;
      errno := ConfigureSocket(fd);
      if errno == 0 && bindLocal {
        errno := ConfigureSocket(fd);
      }
    }

    /** One call that prepares the socket of the attempt. */
    method ConfigureSocket(fd: Fd) returns (errno: int)
      requires Between(1) && Env() && fd == CurrentFd()
      modifies kernel`log
      ensures Between(1) && LogsFor(old(kernel.log), kernel.log, Own())
      ensures errno == 0 || (HardError(errno) && Accounts(Answer(|kernel.log| - 1), errno))
    {
      hide Xpoll.Valid, Timers.Valid, Eligible, TriedIdx, History, Silence, Explained;
      errno := kernel.Configure(fd);
      CallMade(SysConfigure(fd, errno));
    }

    /** `cause` accounts for giving up the current address with this errno. */
    ghost predicate Accounts(cause: Cause, errno: int)
      reads `tried, kernel`log
    {
      && tried != []
      && var last := tried[|tried| - 1];
         match cause
         case Answer(i) =>
           && last.from <= i < |kernel.log| && kernel.log[i].fd == SocketFor(last.idx)
           && (kernel.log[i].SysConfigure? || kernel.log[i].SysConnect?) && kernel.log[i].errno == errno
         case Expired(due, at) =>
           && errno == ETIMEDOUT && last.issuedAt.Some?
           && Seconds(last.issuedAt.value) + Patience() <= due < Seconds(at)
    }

    /** Registers the current socket and calls connect(2) on it. */
    method IssueConnect(fd: Fd) returns (errno: int)
      requires Between(1) && Env() && fd == CurrentFd()
      modifies `fdRegId, `tried, xpoll, kernel`log
      ensures Env() && Basics() && Linked() && Paced() && OnlyOwnChanged() && fdRegId >= 0
      ensures tried == old(tried)[|old(tried)| - 1 := old(tried)[|old(tried)| - 1].(issuedAt := Some(kernel.clock))]
      ensures errno == 0 || HardError(errno)
      ensures kernel.log == old(kernel.log) + [SysConnect(fd, errno)] && JustSaid(errno)
      ensures LastAnswer(kernel.log, |old(kernel.log)|, fd) == Some(errno)
    {
      hide Xpoll.Valid, Timers.Valid, Eligible, TriedIdx, History, Silence, Explained;
      assert fdRegId == -1;
      NoteIssue();
      fdRegId := xpoll.FdRegAdd(fd, {OUT});
      label before:
      errno := kernel.Establish(fd);
      CallMade@before(SysConnect(fd, errno));
      LoggedOne(old(kernel.log), SysConnect(fd, errno), |old(kernel.log)|, fd);
    }

    /** Notes the time of the connect (for the specification only). */
    method NoteIssue()
      requires Between(1)
      modifies `tried
      ensures Between(1)
      ensures tried == old(tried)[|old(tried)| - 1 := old(tried)[|old(tried)| - 1].(issuedAt := Some(kernel.clock))]
    {
      hide Xpoll.Valid, Timers.Valid, Eligible, Silence;
      ghost var last := |tried| - 1;
      tried := tried[last := tried[last].(issuedAt := Some(kernel.clock))];
      assert TriedIdx(tried) == TriedIdx(old(tried));
      forall k: nat | k < |errors| ensures Explained(k) {
        assert old(Explained(k));
      }
    }

    /** The kernel has just answered a connect of the current socket with this errno. */
    ghost predicate JustSaid(errno: int)
      reads `tried, `errors, `causes, `ipIdx, `fd4, `fd6, kernel`log
    {
      && History() && 0 <= ipIdx < |ips| && Silence(Fds() - {CurrentFd()}) && LastSaid(errno)
      && (errno != 0 ==> Silence(Fds())) && Accounts(Answer(|kernel.log| - 1), errno)
    }

    /** The attempt on one address in track_connect_next: set up, bind, register, connect. A
        failed attempt leaves no registration and no timer behind. */
    method TryAddress() returns (failed: bool)
      requires Between(1) && Env() && tried[|tried| - 1].issuedAt == None
      modifies this, xpoll, timers, kernel`clock, kernel`log
      ensures LogsFor(old(kernel.log), kernel.log, Own())
      ensures Env() && kernel.clock >= old(kernel.clock)
      ensures fd4 == old(fd4) && fd6 == old(fd6) && ipIdx == old(ipIdx) && notBefore == old(notBefore)
      ensures |tried| == |old(tried)| && tried[..|tried| - 1] == old(tried)[..|tried| - 1]
      ensures IssuedSince(tried, |tried| - 1, old(kernel.clock))
      ensures failed ==> Between(0) && xpoll.regs == old(xpoll.regs) && timers.live == old(timers.live)
      ensures !failed ==>
                Valid() && state in {Connecting, Connected} && NotDueBefore(old(kernel.clock), |old(kernel.log)|)
      ensures OnlyOwnChanged()
    {
      hide Xpoll.Valid, Timers.Valid, Eligible, TriedIdx;
      var fd := CurrentFd();
      var errno := SetUpSocket(fd);
      if errno != 0 {
        GiveUpAddress(errno, Answer(|kernel.log| - 1));
        return true;
      }
      ghost var calls := |kernel.log|;
      failed := Attempt(fd);
      if !failed {
        NotDueEarlier(old(kernel.clock), calls, old(kernel.clock), |old(kernel.log)|);
      }
    }

    /** The connect of the attempt, and what its answer leads to. */
    method Attempt(fd: Fd) returns (failed: bool)
      requires Between(1) && Env() && fd == CurrentFd() && tried[|tried| - 1].issuedAt == None
      modifies this, xpoll, timers, kernel`clock, kernel`log
      ensures LogsFor(old(kernel.log), kernel.log, Own())
      ensures Env() && kernel.clock >= old(kernel.clock)
      ensures fd4 == old(fd4) && fd6 == old(fd6) && ipIdx == old(ipIdx) && notBefore == old(notBefore)
      ensures |tried| == |old(tried)| && tried[..|tried| - 1] == old(tried)[..|tried| - 1]
      ensures IssuedSince(tried, |tried| - 1, old(kernel.clock))
      ensures failed ==> Between(0) && xpoll.regs == old(xpoll.regs) && timers.live == old(timers.live)
      ensures !failed ==>
                Valid() && state in {Connecting, Connected} && NotDueBefore(old(kernel.clock), |old(kernel.log)|)
      ensures OnlyOwnChanged()
    {
      hide Xpoll.Valid, Timers.Valid, Eligible, TriedIdx;
      var errno := IssueConnect(fd);
      failed := Settle(errno);
      assert failed ==> xpoll.regs == old(xpoll.regs);
    }

    /** Acts on the answer of connect(2). */
    method Settle(errno: int) returns (failed: bool)
      requires Basics() && Linked() && Paced() && Env() && (errno == 0 || HardError(errno))
      requires state == Connecting && fdRegId >= 0 && timerId == -1 && ipIdx >= 0 && |errors| + 1 == |tried|
      requires badnessReason == if errors != [] then errors[|errors| - 1] else 0
      requires JustSaid(errno)
      requires tried[|tried| - 1].issuedAt.Some? && tried[|tried| - 1].issuedAt.value <= kernel.clock
      modifies `state, `timerId, `fdRegId, `badnessReason, `errors, `causes, xpoll, timers, kernel`clock
      ensures Env() && OnlyOwnChanged() && kernel.clock >= old(kernel.clock)
      ensures failed ==> Between(0)
      ensures !failed ==> Valid() && state in {Connecting, Connected} && fdRegId == old(fdRegId)
    {
      hide Xpoll.Valid, Timers.Valid, Eligible, TriedIdx, Supports, History, Silence;
      if errno == 0 {
        state := Connected;
      } else if errno == EINPROGRESS {
        timerId := timers.Schedule(connectTimeout);
      } else {
        Abandon(errno, Answer(|kernel.log| - 1));
      }
      failed := errno != 0 && errno != EINPROGRESS;
    }

    /** track_connect_next: takes up the next address of a supported family, and on an immediate
        failure the one after it, until a connect is under way or the list is exhausted. */
    method ConnectNext()
      requires Between(0) && Env()
      modifies this, xpoll, timers, kernel`clock, kernel`log
      ensures LogsFor(old(kernel.log), kernel.log, Own())
      ensures Valid() && Env() && state in {Connecting, Connected, Bad}
      ensures fd4 == old(fd4) && fd6 == old(fd6) && notBefore == old(notBefore)
      ensures OnlyOwnChanged()
      ensures kernel.clock >= old(kernel.clock)
      ensures old(tried) <= tried && IssuedSince(tried, |old(tried)|, old(kernel.clock))
      ensures state != Bad ==> |tried| > |old(tried)|
      ensures NotDueBefore(old(kernel.clock), |old(kernel.log)|)
      decreases |ips| - ipIdx
    {
      hide Xpoll.Valid, Timers.Valid, Eligible, TriedIdx, Supports, History, Silence;
      var found := PickNext();
      if !found {
        Exhaust();
        return;
      }
      var failed := TryAddress();
      assert old(tried) <= tried;
      if failed {
        ghost var clock, calls := kernel.clock, |kernel.log|;
        ConnectNext();
        NotDueEarlier(clock, calls, old(kernel.clock), |old(kernel.log)|);
      }
    }

    /** There is no address left to try. */
    method Exhaust()
      requires Between(0) && TriedIdx(tried) == Eligible(ips, has4, has6, |ips|)
      modifies `state, `badnessReason
      ensures Valid() && state == Bad
    {
      hide Xpoll.Valid, Timers.Valid, Eligible, TriedIdx, Supports, History, Silence;
      state := Bad;
      if badnessReason == 0 {
        badnessReason := ENOENT;
      }
    }

    /** Records why the current address failed. */
    method GiveUpAddress(errno: int, ghost cause: Cause)
      requires |errors| + 1 == |tried| && HardError(errno) && History() && Accounts(cause, errno)
      modifies `badnessReason, `errors, `causes
      ensures badnessReason == errno && errors == old(errors) + [errno] && History()
    {
      badnessReason := errno;
      errors := errors + [errno];
      causes := causes + [cause];
      forall k: nat | k < |errors| ensures Explained(k) {
        if k < |old(errors)| {
          assert old(Explained(k));
        }
      }
    }

    /** Gives up on the attempt under way. */
    method Abandon(errno: int, ghost cause: Cause)
      requires Basics() && Linked() && Paced() && Env() && HardError(errno)
      requires state == Connecting && ipIdx >= 0 && |errors| + 1 == |tried|
      requires History() && Silence(Fds()) && Accounts(cause, errno)
      modifies `fdRegId, `timerId, `badnessReason, `errors, `causes, xpoll, timers
      ensures Between(0) && Env() && OnlyOwnChanged()
    {
      hide Xpoll.Valid, Timers.Valid, Eligible, TriedIdx, Supports, History, Silence;
      GiveUpAddress(errno, cause);
      AbortConnect();
    }

    /** track_abort_connect */
    method AbortConnect()
      requires Basics() && Linked() && Env() && ipIdx >= 0 && state == Connecting
      modifies `fdRegId, `timerId, xpoll, timers
      ensures fdRegId == -1 && timerId == -1
      ensures Env() && xpoll.bells == old(xpoll.bells)
      ensures xpoll.regs == Swapped(old(xpoll.regs), old(fdRegId), -1, OwnReg())
      ensures timers.live == Swapped(old(timers.live), old(timerId), -1, 0.0)
      ensures timers.timerFdRegId == old(timers.timerFdRegId)
    {
      hide Xpoll.Valid, Timers.Valid;
      xpoll.FdRegDelIfValid(fdRegId);
      fdRegId := -1;
      timerId := timers.Cancel(timerId);
    }

    /** track_process_initial_delay */
    method ProcessInitialDelay()
      requires Valid() && Env() && state == InitialDelay
      modifies this, xpoll, timers, kernel`clock, kernel`log
      ensures LogsFor(old(kernel.log), kernel.log, Own())
      ensures Valid() && Env() && state in {InitialDelay, Connecting, Connected, Bad}
      ensures fd4 == old(fd4) && fd6 == old(fd6) && notBefore == old(notBefore)
      ensures OnlyOwnChanged() && kernel.clock >= old(kernel.clock) && old(tried) <= tried
      ensures state != InitialDelay ==> Seconds(kernel.clock) > notBefore
      ensures NotDueBefore(old(kernel.clock), |old(kernel.log)|)
    {
      hide Xpoll.Valid, Timers.Valid;
      var expired := timers.HasExpired(timerId);
      if expired {
        timerId := timers.Ack(timerId);
        state := Connecting;
        ConnectNext();
      }
    }

    /** Gives up on the attempt under way and moves on to the next address. */
    method NextAfter(errno: int, ghost cause: Cause)
      requires Basics() && Linked() && Paced() && Env() && HardError(errno)
      requires state == Connecting && ipIdx >= 0 && |errors| + 1 == |tried|
      requires History() && Silence(Fds()) && Accounts(cause, errno)
      modifies this, xpoll, timers, kernel`clock, kernel`log
      ensures LogsFor(old(kernel.log), kernel.log, Own())
      ensures Valid() && Env() && state in {Connecting, Connected, Bad}
      ensures fd4 == old(fd4) && fd6 == old(fd6) && notBefore == old(notBefore)
      ensures OnlyOwnChanged() && kernel.clock >= old(kernel.clock) && old(tried) <= tried
      ensures NotDueBefore(old(kernel.clock), |old(kernel.log)|)
    {
      hide Xpoll.Valid, Timers.Valid, Eligible, TriedIdx, Supports, History, Silence;
      Abandon(errno, cause);
      ConnectNext();
    }

    /** track_process_connecting */
    method ProcessConnecting()
      requires Valid() && Env() && state == Connecting
      modifies this, xpoll, timers, kernel`clock, kernel`log
      ensures LogsFor(old(kernel.log), kernel.log, Own())
      ensures Valid() && Env() && state in {Connecting, Connected, Bad}
      ensures fd4 == old(fd4) && fd6 == old(fd6) && notBefore == old(notBefore)
      ensures OnlyOwnChanged() && kernel.clock >= old(kernel.clock) && old(tried) <= tried
      ensures NotDueBefore(old(kernel.clock), |old(kernel.log)|)
    {
      hide Xpoll.Valid, Timers.Valid, Eligible, TriedIdx;
      var expired := timers.HasExpired(timerId);
      if expired {
        ghost var due := timers.live[timerId];
        timerId := timers.Ack(timerId);
        NextAfter(ETIMEDOUT, Expired(due, kernel.clock));
      } else {
        CheckConnect(old(kernel.clock));
      }
    }

    /** The rest of track_process_connecting, while the timer has not expired. */
    method CheckConnect(ghost since: nat)
      requires Valid() && Env() && state == Connecting
      requires since <= kernel.clock && timers.live[timerId] >= Seconds(since)
      modifies this, xpoll, timers, kernel`clock, kernel`log
      ensures LogsFor(old(kernel.log), kernel.log, Own())
      ensures Valid() && Env() && state in {Connecting, Connected, Bad}
      ensures fd4 == old(fd4) && fd6 == old(fd6) && notBefore == old(notBefore)
      ensures OnlyOwnChanged() && kernel.clock >= old(kernel.clock) && old(tried) <= tried
      ensures NotDueBefore(since, |old(kernel.log)|)
    {
      hide Xpoll.Valid, Timers.Valid, Eligible, TriedIdx;
      var errno := kernel.Establish(CurrentFd());
      CallMade(SysConnect(CurrentFd(), errno));
      LoggedOne(old(kernel.log), SysConnect(CurrentFd(), errno), |old(kernel.log)|, CurrentFd());
      if errno == 0 {
        state := Connected;
      } else if errno != EINPROGRESS {
        ghost var clock, calls := kernel.clock, |kernel.log|;
        NextAfter(errno, Answer(|kernel.log| - 1));
        NotDueEarlier(clock, calls, since, |old(kernel.log)|);
      }
    }

    /** track_process */
    method Process()
      requires Valid() && Env()
      modifies this, xpoll, timers, kernel`clock, kernel`log
      ensures LogsFor(old(kernel.log), kernel.log, Own())
      ensures Valid() && Env()
      ensures state == Finished <==> old(state) == Finished
      ensures old(state) in {Connected, Bad} ==> state == old(state)
      ensures fd4 == old(fd4) && fd6 == old(fd6) && notBefore == old(notBefore)
      ensures OnlyOwnChanged() && kernel.clock >= old(kernel.clock) && old(tried) <= tried
      ensures NotDueBefore(old(kernel.clock), |old(kernel.log)|)
    {
      hide Xpoll.Valid, Timers.Valid, Paced, Timed, Believed, Eligible, TriedIdx, LastAnswer, LogsFor;
      if state == InitialDelay {
        ProcessInitialDelay();
      } else {
        LogsNothing(kernel.log, Own());
      }
      ghost var clock, log := kernel.clock, kernel.log;
      LogGrows(old(kernel.log), log, Own());
      if state == Connecting {
        ProcessConnecting();
        NotDueEarlier(clock, |log|, old(kernel.clock), |old(kernel.log)|);
        LogsTwice(old(kernel.log), log, kernel.log, Own());
      }
    }

    /** track_get_connected_fd: hands over the connected socket, or says why there is none. */
    method GetConnectedFd() returns (r: FdResult)
      requires Valid() && Env() && state != Finished
      modifies this, xpoll, timers, kernel`clock, kernel`log
      ensures LogsFor(old(kernel.log), kernel.log, Own())
      ensures Valid() && Env()
      ensures OnlyOwnChanged() && kernel.clock >= old(kernel.clock) && old(tried) <= tried
      ensures NotDueBefore(old(kernel.clock), |old(kernel.log)|)
      ensures notBefore == old(notBefore)
      ensures fdRegId >= -1 && timerId >= -1 && (fdRegId >= 0 ==> OwnReg().fd in Fds())
      ensures match r
              case Got(fd) =>
                && state == Finished
                && fd in old(Fds()) && Fds() == old(Fds()) - {fd}
                && (forall id :: id in xpoll.regs ==> xpoll.regs[id].fd != fd)
                && (fd == old(fd4) ==> fd4 == NoFd && fd6 == old(fd6))
                && (fd == old(fd6) ==> fd6 == NoFd && fd4 == old(fd4))
                && LastAnswer(kernel.log, since, fd) == Some(0)
              case Failed(e) =>
                && fd4 == old(fd4) && fd6 == old(fd6)
                && (e == EAGAIN <==> state in {InitialDelay, Connecting})
                && (e != EAGAIN ==> state == Bad && e == badnessReason && HardError(e))
                && Silence(Fds())
    {
      hide Xpoll.Valid, Timers.Valid;
      Process();
      match state {
        case Connecting =>
          r := Failed(EAGAIN);
        case InitialDelay =>
          r := Failed(EAGAIN);
        case Connected =>
          r := Got(CurrentFd());
          HandOver();
        case Bad =>
          r := Failed(badnessReason);
        case Finished =>
          assert false;
      }
    }

    lemma SaidConnected()
      requires History() && LastSaid(0)
      ensures LastAnswer(kernel.log, since, CurrentFd()) == Some(0)
    {
      hide LastAnswer, Explained;
      FurtherBack(kernel.log, since, tried[|tried| - 1].from, CurrentFd());
    }

    /** The track lets go of its connected socket. */
    method HandOver()
      requires Valid() && Env() && state == Connected
      modifies this, xpoll
      ensures Valid() && Env() && state == Finished
      ensures OnlyOwnChanged() && tried == old(tried) && notBefore == old(notBefore) && timerId == old(timerId)
      ensures var fd := old(CurrentFd());
              && (if ips[old(ipIdx)] == V4 then fd4 == NoFd && fd6 == old(fd6) else fd6 == NoFd && fd4 == old(fd4))
              && fd in old(Fds()) && LastAnswer(kernel.log, since, fd) == Some(0)
              && (forall id :: id in xpoll.regs ==> xpoll.regs[id].fd != fd)
    {
      hide Xpoll.Valid, Timers.Valid, Eligible, TriedIdx, History, LastAnswer;
      SaidConnected();
      xpoll.FdRegDel(fdRegId);
      fdRegId := -1;
      if ips[ipIdx] == V4 {
        fd4 := NoFd;
      } else {
        fd6 := NoFd;
      }
      state := Finished;
    }

    /** track_destroy: whatever the state, the registration and the timer are gone afterwards. */
    method Destroy()
      requires Valid() && Env()
      modifies `fdRegId, `timerId, xpoll, timers
      ensures fdRegId == -1 && timerId == -1
      ensures Env() && OnlyOwnChanged()
    {
      hide Xpoll.Valid, Timers.Valid;
      xpoll.FdRegDelIfValid(fdRegId);
      fdRegId := -1;
      timerId := timers.Cancel(timerId);
    }
  }
}
