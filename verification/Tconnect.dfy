/** libxcm/tp/tcp/tconnect.c, struct tconnect: one connection establishment, made of one or two
    tracks that race each other. */
module TcpConnect {
  import opened KernelModel
  import opened XpollTable
  import opened TimerMgr
  import opened Tracks

  datatype Algorithm = NoAlgorithm | Single | Sequential | HappyEyeballs

  const INITIAL_IPV4_DELAY := 0.2

  /** An id as a set, -1 standing for none. */
  function Valids(id: int): set<int> {
    if id >= 0 then {id} else {}
  }

  /** Swapping one owned entry for another leaves the entries of everybody else as they were. */
  lemma OthersUnaffected(regs: map<int, FdReg>, own: set<int>, lost: int, got: int, v: FdReg)
    requires if lost < 0 then lost !in own else lost in own
    requires got < 0 || got == lost || got !in regs
    requires forall id :: id in own ==> id in regs
    ensures Swapped(regs, lost, got, v) - (own - {lost} + Valids(got)) == regs - own
  {
  }

  /** No attempt of any track has been forgotten or changed. */
  ghost predicate Extends(before: seq<seq<Try>>, after: seq<seq<Try>>) {
    |before| == |after| && forall k :: 0 <= k < |before| ==> before[k] <= after[k]
  }

  lemma ExtendsItself(a: seq<seq<Try>>)
    ensures Extends(a, a)
  {
  }

  lemma ExtendsTwice(a: seq<seq<Try>>, b: seq<seq<Try>>, c: seq<seq<Try>>)
    requires Extends(a, b) && Extends(b, c)
    ensures Extends(a, c)
  {
  }

  /** The addresses each of these tracks has taken up so far. */
  ghost function TriedBy(tracks: seq<Track>): seq<seq<Try>>
    reads tracks
  {
    seq(|tracks|, k requires 0 <= k < |tracks| reads tracks => tracks[k].tried)
  }

  class Tconnect {
    const algorithm: Algorithm
    const kernel: Kernel
    const xpoll: Xpoll
    const timers: Timers
    var fd4: Fd
    var fd6: Fd
    var tracks: seq<Track>
    /** The clock when the connect was requested. */
    ghost var startedAt: nat

    ghost function Sockets(): set<Fd>
      reads this
    {
      {fd4, fd6} - {NoFd}
    }

    /** The descriptors this object must close unless it hands them over. */
    ghost function OwnFds(): set<Fd>
      reads this
    {
      Sockets() + {timers.timerFd}
    }

    /** The registration id of track `i`, or -1. */
    ghost function TrackRegId(i: nat): int
      reads this, tracks
    {
      if i < |tracks| then tracks[i].fdRegId else -1
    }

    ghost function TrackRegIds(): set<int>
      reads this, tracks
    {
      Valids(TrackRegId(0)) + Valids(TrackRegId(1))
    }

    /** The ids of the registrations this object holds in the poll set. */
    ghost function OwnIds(): set<int>
      reads this, timers, tracks
    {
      TrackRegIds() + {timers.timerFdRegId}
    }

    /** The registrations of everybody else in the poll set. */
    ghost function Others(): map<int, FdReg>
      reads this, xpoll, timers, tracks
    {
      xpoll.regs - OwnIds()
    }

    ghost predicate TrackShape()
      reads this, tracks
    {
      && |tracks| <= 2
      && (|tracks| == 2 ==>
            && tracks[0] != tracks[1]
            && tracks[0].fd6 == NoFd && tracks[1].fd4 == NoFd && tracks[0].Own() !! tracks[1].Own()
            && (tracks[0].timerId == tracks[1].timerId ==> tracks[0].timerId == -1))
      && forall t :: t in tracks ==>
           && t.kernel == kernel && t.xpoll == xpoll && t.timers == timers
           && (t.fd4 == NoFd || t.fd4 == fd4) && (t.fd6 == NoFd || t.fd6 == fd6)
    }

    ghost predicate FdsOk()
      reads this, kernel
    {
      && (fd4 == NoFd || fd4.Desc?) && (fd6 == NoFd || fd6.Desc?) && (fd4 == fd6 ==> fd4 == NoFd)
      && timers.timerFd.Desc? && timers.timerFd != fd4 && timers.timerFd != fd6
      && OwnFds() <= kernel.open
    }

    /** The registrations of the tracks: each is for one of our sockets, and no two share an id. */
    ghost predicate TrackRegsOk()
      reads this, xpoll, tracks
    {
      && (forall k: nat :: k < |tracks| && TrackRegId(k) >= 0 ==>
            TrackRegId(k) in xpoll.regs && xpoll.regs[TrackRegId(k)].fd in Sockets())
      && (TrackRegId(0) == TrackRegId(1) ==> TrackRegId(0) == -1)
    }

    /** Our sockets are registered by our tracks only, and the timer descriptor by the timer manager. */
    ghost predicate RegsOk()
      reads this, xpoll, timers, tracks
    {
      && TrackRegsOk()
      && timers.timerFdRegId >= 0 && timers.timerFdRegId in xpoll.regs
      && xpoll.regs[timers.timerFdRegId] == FdReg(timers.timerFd, {IN})
      && (forall id :: id in xpoll.regs && xpoll.regs[id].fd in Sockets() ==> id in TrackRegIds())
      && (forall id :: id in xpoll.regs && xpoll.regs[id].fd == timers.timerFd ==> id == timers.timerFdRegId)
    }

    /** With any IPv6 address in the list, a Happy Eyeballs IPv4 track is held back by 200 ms. */
    ghost predicate Delayed(t: Track)
      reads `startedAt, t
    {
      algorithm == HappyEyeballs && t.has4 && V6 in t.ips ==>
        t.delayed && t.notBefore >= Seconds(startedAt) + INITIAL_IPV4_DELAY
    }

    ghost predicate HeadStart()
      reads this, tracks
    {
      forall t :: t in tracks ==> Delayed(t)
    }

    lemma IsDelayed(t: Track)
      requires algorithm == HappyEyeballs && t.has4 && V6 in t.ips ==>
                 t.delayed && t.notBefore >= Seconds(startedAt) + t.initialDelay && t.initialDelay >= INITIAL_IPV4_DELAY
      ensures Delayed(t)
    {
    }

    lemma GivesHeadStart()
      requires |tracks| <= 2 && forall k :: 0 <= k < |tracks| ==> Delayed(tracks[k])
      ensures HeadStart()
    {
    }

    ghost predicate Env()
      reads this, xpoll, xpoll.pool, timers
    {
      xpoll.Valid() && timers.Valid() && timers.kernel == kernel && timers.xpoll == xpoll
    }

    ghost predicate Valid()
      reads this, kernel, xpoll, xpoll.pool, timers, tracks
    {
      && Env() && FdsOk() && TrackShape() && RegsOk() && HeadStart()
      && forall t :: t in tracks ==> t.Valid()
    }

    ghost function Tried(): seq<seq<Try>>
      reads `tracks, tracks
    {
      TriedBy(tracks)
    }

    /** No track has handed its socket over. */
    ghost predicate Undecided()
      reads `tracks, tracks
    {
      forall k :: 0 <= k < |tracks| ==> tracks[k].state != Finished
    }

    constructor (algorithm: Algorithm, kernel: Kernel, xpoll: Xpoll, timers: Timers, fd4: Fd, fd6: Fd)
      requires xpoll.Valid() && timers.Valid() && timers.kernel == kernel && timers.xpoll == xpoll
      requires fd4.Desc? && fd6.Desc? && timers.timerFd.Desc? && fd4 != fd6 && timers.timerFd !in {fd4, fd6}
      requires {fd4, fd6, timers.timerFd} <= kernel.open
      requires Unregistered(xpoll.regs, fd4) && Unregistered(xpoll.regs, fd6)
      requires timers.timerFdRegId >= 0 && timers.timerFdRegId in xpoll.regs
      requires xpoll.regs[timers.timerFdRegId] == FdReg(timers.timerFd, {IN})
      requires forall id :: id in xpoll.regs && xpoll.regs[id].fd == timers.timerFd ==> id == timers.timerFdRegId
      ensures this.algorithm == algorithm && this.kernel == kernel && this.xpoll == xpoll && this.timers == timers
      ensures this.fd4 == fd4 && this.fd6 == fd6 && tracks == []
      ensures Valid() && OwnIds() == {timers.timerFdRegId} && OwnFds() == {fd4, fd6, timers.timerFd}
    {
      hide Xpoll.Valid, Timers.Valid;
      this.algorithm, this.kernel, this.xpoll, this.timers := algorithm, kernel, xpoll, timers;
      this.fd4, this.fd6 := fd4, fd6;
      tracks := [];
      startedAt := 0;
    }

    /** The failure path of tconnect_create. */
    static method Discard(kernel: Kernel, xpoll: Xpoll, fd4: Fd, fd6: Fd, timers: Timers?)
      requires xpoll.Valid() && (fd4 == NoFd || fd4 in kernel.open) && (fd6 == NoFd || fd6 in kernel.open)
      requires fd4 == fd6 ==> fd4 == NoFd
      requires timers != null ==>
                 && timers.Valid() && timers.xpoll == xpoll && timers.kernel == kernel
                 && timers.timerFdRegId in xpoll.regs && xpoll.regs[timers.timerFdRegId].fd == timers.timerFd
                 && timers.timerFd in kernel.open && timers.timerFd != fd4 && timers.timerFd != fd6
      modifies xpoll, timers, kernel`open
      ensures xpoll.Valid() && xpoll.bells == old(xpoll.bells)
      ensures xpoll.regs == if timers == null then old(xpoll.regs) else old(xpoll.regs) - {old(timers.timerFdRegId)}
      ensures kernel.open ==
                old(kernel.open) - ({fd4, fd6} - {NoFd}) - (if timers == null then {} else {timers.timerFd})
    {
      hide Xpoll.Valid, Timers.Valid;
      kernel.CloseIfValid(fd4);
      kernel.CloseIfValid(fd6);
      if timers != null {
        timers.Destroy();
      }
    }

    /** tconnect_create: on failure nothing is left open or registered. */
    static method Create(algorithm: Algorithm, kernel: Kernel, xpoll: Xpoll) returns (t: Tconnect?)
      requires xpoll.Valid() && RegsOpen(xpoll.regs, kernel.open)
      modifies xpoll, kernel`open
      ensures xpoll.Valid() && xpoll.bells == old(xpoll.bells) && RegsOpen(xpoll.regs, kernel.open)
      ensures t == null ==> xpoll.regs == old(xpoll.regs) && kernel.open == old(kernel.open)
      ensures t != null ==>
                && fresh(t) && fresh(t.timers) && t.Valid() && t.tracks == []
                && t.kernel == kernel && t.xpoll == xpoll && t.algorithm == algorithm
                && t.fd4 != NoFd && t.fd6 != NoFd
                && t.OwnIds() !! old(xpoll.regs).Keys && xpoll.regs - t.OwnIds() == old(xpoll.regs)
                && t.OwnFds() !! old(kernel.open) && kernel.open == old(kernel.open) + t.OwnFds()
    {
      hide Xpoll.Valid, Timers.Valid, Tconnect.Valid, Tconnect.OwnIds, Tconnect.OwnFds;
      var fd4 := kernel.OpenDesc();
      var fd6 := kernel.OpenDesc();
      var timers := Timers.Create(kernel, xpoll);
      if fd4 == NoFd || fd6 == NoFd || timers == null {
        Discard(kernel, xpoll, fd4, fd6, timers);
        assert kernel.open == old(kernel.open);
        return null;
      }
      t := new Tconnect(algorithm, kernel, xpoll, timers, fd4, fd6);
    }

    /** Our registrations are for our descriptors, and our descriptors are in nobody else's. */
    lemma OwnRegsAreOwnFds()
      requires FdsOk() && RegsOk()
      ensures forall id :: id in OwnIds() ==> id in xpoll.regs && xpoll.regs[id].fd in OwnFds()
      ensures forall id :: id in xpoll.regs && id !in OwnIds() ==> xpoll.regs[id].fd !in OwnFds()
    {
    }

    /** The same, as a consequence of Valid. */
    lemma WhatIsOwned()
      requires Valid()
      ensures OwnFds() <= kernel.open && OwnIds() <= xpoll.regs.Keys
      ensures forall id :: id in OwnIds() ==> id >= 0 && xpoll.regs[id].fd in OwnFds()
      ensures forall id :: id in xpoll.regs && id !in OwnIds() ==> xpoll.regs[id].fd !in OwnFds()
      ensures Sockets() <= OwnFds() && (forall fd :: fd in OwnFds() ==> fd.Desc?) && timers.timerFd !in Sockets()
      ensures xpoll.Valid()
    {
      OwnRegsAreOwnFds();
    }

    /** Whatever others do to the poll set and the kernel, as long as they leave our
        registrations and our descriptors alone, this object stays valid. */
    twostate lemma StaysValid()
      requires old(Valid()) && unchanged(this) && unchanged(timers)
      requires forall k :: 0 <= k < |tracks| ==> unchanged(tracks[k])
      requires xpoll.Valid() && OwnFds() <= kernel.open && kernel.clock >= old(kernel.clock)
      requires forall id :: id in OwnIds() ==>
                 id in old(xpoll.regs) && id in xpoll.regs && xpoll.regs[id] == old(xpoll.regs)[id]
      requires forall id :: id in xpoll.regs && id !in OwnIds() ==> xpoll.regs[id].fd !in OwnFds()
      requires Spares(old(kernel.log), kernel.log, OwnFds())
      ensures Valid()
    {
      hide Xpoll.Valid, Timers.Valid, Track.Basics, Track.Resting, Track.Believed, HeadStart;
      assert forall k: nat :: k < |tracks| && TrackRegId(k) >= 0 ==> k <= 1 && TrackRegId(k) in OwnIds();
      assert HeadStart() by { assert old(HeadStart()); }
      forall t | t in tracks ensures t.Valid() {
        assert old(t.Valid());
        var k :| 0 <= k < |tracks| && tracks[k] == t;
        assert TrackRegId(k) == t.fdRegId;
        assert k == 0 || k == 1;
        assert t.fdRegId >= 0 ==> t.fdRegId in OwnIds();
        forall id | id in xpoll.regs && (t.fdRegId < 0 || id != t.fdRegId) ensures xpoll.regs[id].fd !in t.Fds() {
          if id in OwnIds() {
            assert old(xpoll.regs)[id].fd !in t.Fds();
          }
        }
        t.BelievedStill();
      }
    }

    /** The tracks that each algorithm calls for: which addresses and which sockets each has, and
        whether it has to wait first. */
    ghost predicate Layout(ips: seq<Family>)
      reads `tracks
    {
      match algorithm
      case NoAlgorithm => tracks == []
      case Single => |tracks| == 1 && Role(tracks[0], ips[..if ips == [] then 0 else 1], true, true, false)
      case Sequential => |tracks| == 1 && Role(tracks[0], ips, true, true, false)
      case HappyEyeballs =>
        && |tracks| == (if V4 in ips then 1 else 0) + (if V6 in ips then 1 else 0)
        && (V4 in ips ==> Role(tracks[0], ips, true, false, V6 in ips))
        && (V6 in ips ==> Role(tracks[|tracks| - 1], ips, false, true, false))
    }

    ghost predicate Role(t: Track, ips: seq<Family>, has4: bool, has6: bool, delayed: bool) {
      && t.ips == ips && t.has4 == has4 && t.has6 == has6
      && t.delayed == delayed && t.initialDelay == if delayed then 0.2 else 0.0
    }

    /** The tracks are laid out and have begun: those that do not wait have taken up an address, or
        found none they can use. */
    ghost predicate Planned(ips: seq<Family>)
      reads this, tracks
    {
      Layout(ips) && forall t :: t in tracks ==> Begun(t)
    }

    ghost predicate Begun(t: Track)
      reads t
    {
      if t.delayed then t.state == InitialDelay && t.tried == [] else t.tried != [] || t.state == Bad
    }

    /** tconnect_connect */
    method Connect(ips: seq<Family>, scopeSet: bool, connectTimeout: real, bindLocal: bool) returns (errno: int)
      requires Valid() && tracks == [] && ips != [] && fd4 != NoFd && fd6 != NoFd
      modifies `tracks, `startedAt, xpoll, timers, kernel`clock, kernel`log
      ensures LogsFor(old(kernel.log), kernel.log, old(Sockets()))
      ensures Valid() && Undecided() && Others() == old(Others()) && xpoll.bells == old(xpoll.bells)
      ensures forall t :: t in tracks ==> fresh(t)
      ensures timers.timerFdRegId == old(timers.timerFdRegId) && kernel.clock >= old(kernel.clock)
      ensures startedAt == old(kernel.clock)
      ensures errno == if scopeSet && ips == [V4] then EINVAL else if algorithm == NoAlgorithm then ENOTSUP else 0
      ensures if errno == 0 then Layout(ips) && Planned(ips) else tracks == []
      ensures forall t :: t in tracks ==> t.connectTimeout == connectTimeout && t.bindLocal == bindLocal
    {
      hide Valid, Others;
      SetStart();
      if scopeSet && |ips| == 1 && ips[0] == V4 {
        return EINVAL;
      }
      match algorithm {
        case Single =>
          AddTrack(fd4, fd6, ips[..1], connectTimeout, bindLocal, 0.0);
        case Sequential =>
          AddTrack(fd4, fd6, ips, connectTimeout, bindLocal, 0.0);
        case HappyEyeballs =>
          assert ips[0] in ips;
          var initialIpv4Delay := if V6 in ips then INITIAL_IPV4_DELAY else 0.0;
          if V4 in ips {
            AddTrack(fd4, NoFd, ips, connectTimeout, bindLocal, initialIpv4Delay);
          }
          if V6 in ips {
            AddTrack(NoFd, fd6, ips, connectTimeout, bindLocal, 0.0);
          }
        case NoAlgorithm =>
          return ENOTSUP;
      }
      return 0;
    }

    /** Notes the time of the request (for the specification only). */
    method SetStart()
      requires Valid() && tracks == []
      modifies `startedAt
      ensures Valid() && Others() == old(Others()) && startedAt == kernel.clock
    {
      startedAt := kernel.clock;
    }

    /** Creates a track on the given sockets and puts it behind the ones there are. */
    method AddTrack(socket4: Fd, socket6: Fd, ips: seq<Family>, connectTimeout: real, bindLocal: bool, delay: real)
      requires Valid() && Undecided()
      requires (socket4 == fd4 || socket4 == NoFd) && (socket6 == fd6 || socket6 == NoFd)
      requires tracks == [] || (|tracks| == 1 && tracks[0].fd6 == NoFd && socket4 == NoFd)
      requires algorithm == HappyEyeballs && socket4 != NoFd && V6 in ips ==> delay >= INITIAL_IPV4_DELAY
      requires startedAt <= kernel.clock && delay in {0.0, INITIAL_IPV4_DELAY}
      modifies `tracks, xpoll, timers, kernel`clock, kernel`log
      ensures LogsFor(old(kernel.log), kernel.log, old(Sockets()))
      ensures Valid() && Undecided() && Others() == old(Others()) && xpoll.bells == old(xpoll.bells)
      ensures |tracks| == |old(tracks)| + 1 && tracks[..|old(tracks)|] == old(tracks) && fresh(tracks[|old(tracks)|])
      ensures timers.timerFdRegId == old(timers.timerFdRegId) && kernel.clock >= old(kernel.clock)
      ensures tracks[|old(tracks)|].fd4 == socket4 && tracks[|old(tracks)|].fd6 == socket6
      ensures Role(tracks[|old(tracks)|], ips, socket4 != NoFd, socket6 != NoFd, delay > 0.0)
      ensures Begun(tracks[|old(tracks)|])
      ensures tracks[|old(tracks)|].connectTimeout == connectTimeout && tracks[|old(tracks)|].bindLocal == bindLocal
    {
      hide Xpoll.Valid, Timers.Valid, Track.Basics, Track.Resting, Track.Paced, Track.Timed, Track.Believed;
      hide Track.Valid;
      assert tracks != [] ==> Delayed(tracks[0]);
      var t := new Track(kernel, xpoll, timers, socket4, socket6, ips, connectTimeout, bindLocal, delay);
      Enlist(t);
      StartTrack(t);
    }

    /** A track that has not begun yet: no registration, no timer, nothing tried. */
    ghost predicate Fresh(t: Track)
      reads t, t.kernel`log
    {
      && t.fdRegId == t.timerId == t.ipIdx == -1 && t.badnessReason == 0
      && t.tried == [] && t.errors == [] && t.causes == []
      && t.s4 == t.fd4 && t.s6 == t.fd6 && t.since <= |t.kernel.log| && t.Silence(t.Fds())
      && t.state == Connecting && t.delayed == (t.initialDelay > 0.0)
      && t.has4 == (t.fd4 != NoFd) && t.has6 == (t.fd6 != NoFd)
    }

    /** Everything is in order except that the last track has not begun. */
    ghost predicate LastIsFresh()
      reads this, kernel, xpoll, xpoll.pool, timers, tracks
    {
      && Env() && FdsOk() && TrackShape() && RegsOk() && Undecided()
      && |tracks| >= 1 && Fresh(tracks[|tracks| - 1]) && tracks[|tracks| - 1].Linked()
      && (|tracks| == 2 ==> tracks[0].Valid())
    }

    /** The sockets of a new track are not registered. */
    lemma NotRegisteredYet(t: Track)
      requires RegsOk() && TrackShape() && t.fdRegId == t.timerId == -1 && t.xpoll == xpoll && t.Fds() <= Sockets()
      requires |tracks| <= 1 && forall u :: u in tracks ==>
                 u.fdRegId >= -1 && (u.fdRegId >= 0 ==> u.OwnReg().fd !in t.Fds()) && u.Linked() && u.xpoll == xpoll
      ensures t.Linked()
    {
      hide Xpoll.Valid, Timers.Valid;
      forall id | id in xpoll.regs ensures xpoll.regs[id].fd !in t.Fds() {
        if xpoll.regs[id].fd in Sockets() {
          assert id == TrackRegId(0);
        }
      }
    }

    method Enlist(t: Track)
      requires Valid() && Undecided() && Fresh(t) && t !in tracks
      requires t.kernel == kernel && t.xpoll == xpoll && t.timers == timers
      requires (t.fd4 == fd4 || t.fd4 == NoFd) && (t.fd6 == fd6 || t.fd6 == NoFd)
      requires tracks == [] || (|tracks| == 1 && tracks[0].fd6 == NoFd && t.fd4 == NoFd)
      modifies `tracks
      ensures tracks == old(tracks) + [t] && LastIsFresh() && Others() == old(Others())
    {
      hide Xpoll.Valid, Timers.Valid, Track.Basics, Track.Resting, Track.Paced, Track.Timed, Track.Believed;
      hide Track.Silence;
      if |tracks| == 1 {
        tracks[0].OwnRegIsOwnSocket();
        tracks[0].OwnIsFds();
      }
      NotRegisteredYet(t);
      hide Track.Linked;
      ghost var ids := OwnIds();
      tracks := tracks + [t];
      assert OwnIds() == ids;
    }

    /** Starts `t`, the last track. */
    method StartTrack(t: Track)
      requires LastIsFresh() && startedAt <= kernel.clock && t == tracks[|tracks| - 1]
      requires algorithm == HappyEyeballs && t.has4 && V6 in t.ips ==> t.initialDelay >= INITIAL_IPV4_DELAY
      requires |tracks| == 2 ==> Delayed(tracks[0])
      modifies t, xpoll, timers, kernel`clock, kernel`log
      ensures LogsFor(old(kernel.log), kernel.log, old(Sockets()))
      ensures Valid() && Undecided() && Others() == old(Others()) && xpoll.bells == old(xpoll.bells)
      ensures timers.timerFdRegId == old(timers.timerFdRegId) && kernel.clock >= old(kernel.clock)
      ensures t.fd4 == old(t.fd4) && t.fd6 == old(t.fd6)
      ensures Begun(t)
    {
      hide Xpoll.Valid, Timers.Valid, Track.Basics, Track.Resting, Track.Linked, Track.Paced, Track.Timed;
      hide Track.Believed;
      hide RegsOk, Others, Swapped, HeadStart, Delayed;
      t.Start();
      StillInOrder(|tracks| - 1);
      IsDelayed(t);
      GivesHeadStart();
    }

    /** Track `i` alone has worked, and left any registration it has now on one of our sockets. */
    twostate predicate OnlyTrackWorked(i: nat)
      requires i < |tracks|
      reads this, tracks, xpoll, timers
    {
      && |tracks| <= 2 && unchanged(this) && (forall k :: 0 <= k < |tracks| && k != i ==> unchanged(tracks[k]))
      && tracks[i].xpoll == xpoll && tracks[i].timers == timers
      && tracks[i].OnlyOwnChanged() && tracks[i].fdRegId >= -1
      && (tracks[i].fdRegId >= 0 ==> tracks[i].OwnReg().fd in Sockets())
    }

    /** An operation of track `i` keeps the registrations of everybody else. */
    twostate lemma OthersKept(i: nat)
      requires i < |tracks| && OnlyTrackWorked(i) && old(RegsOk()) && timers.timerFd !in Sockets()
      ensures Others() == old(Others())
    {
      hide Xpoll.Valid, Timers.Valid, Swapped;
      var lost, got := old(TrackRegId(i)), TrackRegId(i);
      assert forall k: nat :: k != i ==> TrackRegId(k) == old(TrackRegId(k));
      assert timers.timerFdRegId != lost;
      assert i == 0 || i == 1;
      assert OwnIds() == old(OwnIds()) - {lost} + Valids(got);
      OthersUnaffected(old(xpoll.regs), old(OwnIds()), lost, got, tracks[i].OwnReg());
    }

    /** An operation of track `i` keeps the registrations of this object in order. */
    twostate lemma RegsKept(i: nat)
      requires i < |tracks| && OnlyTrackWorked(i) && old(RegsOk()) && timers.timerFd !in Sockets()
      ensures RegsOk()
    {
      hide Xpoll.Valid, Timers.Valid;
      assert forall k: nat :: k != i ==> TrackRegId(k) == old(TrackRegId(k));
      assert i == 0 || i == 1;
      assert TrackRegsOk();
    }

    /** An operation of track `i` that takes no new socket keeps the tracks apart. */
    twostate lemma ShapeKept(i: nat)
      requires i < |tracks| && old(TrackShape())
      requires unchanged(this) && forall k :: 0 <= k < |tracks| && k != i ==> unchanged(tracks[k])
      requires tracks[i].fd4 in {NoFd, old(tracks[i].fd4)} && tracks[i].fd6 in {NoFd, old(tracks[i].fd6)}
      requires |tracks| == 2 ==> tracks[1 - i].timerId == -1 || tracks[1 - i].timerId != tracks[i].timerId
      ensures TrackShape()
    {
    }

    /** All is in order before track `i` works, which itself need not have begun. */
    ghost predicate OrderBefore(i: nat)
      requires i < |tracks|
      reads this, kernel, xpoll, timers, tracks
    {
      && FdsOk() && TrackShape() && RegsOk() && tracks[i].Linked()
      && (tracks[i].fdRegId >= 0 ==> tracks[i].OwnReg().fd in tracks[i].Fds())
      && (forall k :: 0 <= k < |tracks| && k != i ==> tracks[k].Valid())
    }

    /** Track `i` has worked alone, on the sockets it had. */
    twostate predicate TrackWorked(i: nat)
      requires i < |tracks|
      reads this, kernel, xpoll, timers, tracks
    {
      && unchanged(this) && (forall k :: 0 <= k < |tracks| && k != i ==> unchanged(tracks[k]))
      && tracks[i].fd4 in {NoFd, old(tracks[i].fd4)} && tracks[i].fd6 in {NoFd, old(tracks[i].fd6)}
      && tracks[i].xpoll == xpoll && tracks[i].timers == timers
      && tracks[i].OnlyOwnChanged() && tracks[i].fdRegId >= -1 && tracks[i].timerId >= -1
      && (tracks[i].fdRegId >= 0 ==> tracks[i].OwnReg().fd in tracks[i].Fds())
      && kernel.open == old(kernel.open) && kernel.clock >= old(kernel.clock)
      && LogsFor(old(kernel.log), kernel.log, tracks[i].Own())
    }

    /** What an operation of one track keeps: this object in order, the other track valid and its
        timer as it was, and the registrations of everybody else. */
    twostate lemma StillInOrder(i: nat)
      requires i < |tracks| && TrackWorked(i) && old(OrderBefore(i))
      ensures FdsOk() && TrackShape() && RegsOk() && Others() == old(Others())
      ensures forall k :: 0 <= k < |tracks| && k != i ==> tracks[k].Valid()
      ensures forall k, clock, calls: nat ::
                0 <= k < |tracks| && k != i && calls <= |old(kernel.log)| ==>
                  old(tracks[k].NotDueBefore(clock, calls)) ==> tracks[k].NotDueBefore(clock, calls)
    {
      hide Xpoll.Valid, Timers.Valid, Track.Basics, Track.Resting, Track.Linked, Track.Paced, Track.Timed;
      hide Track.Believed;
      hide Swapped, RegsOk, Others, Track.NotDueBefore;
      if |tracks| == 2 {
        tracks[i].OtherTrackKept(tracks[1 - i]);
      }
      ShapeKept(i);
      OthersKept(i);
      RegsKept(i);
    }

    /** An operation that keeps the delay of a track keeps the head start. */
    twostate lemma HeadStartKept(i: nat)
      requires i < |tracks| && old(HeadStart())
      requires unchanged(this) && forall k :: 0 <= k < |tracks| && k != i ==> unchanged(tracks[k])
      requires tracks[i].notBefore == old(tracks[i].notBefore)
      ensures HeadStart()
    {
    }

    /** The kernel has said last of this socket that its connect has succeeded. */
    ghost predicate ReportedUp(fd: Fd)
      reads kernel`log
    {
      LastAnswer(kernel.log, 0, fd) == Some(0)
    }

    /** One of our sockets that no track uses and nobody has registered. */
    ghost predicate GivenUp(fd: Fd)
      reads this, tracks, xpoll
    {
      && fd in Sockets() && Unregistered(xpoll.regs, fd)
      && (forall t :: t in tracks ==> fd != t.fd4 && fd != t.fd6)
    }

    /** One round of track_get_connected_fd on track `i`, with everything else left as it was. */
    method PollTrack(i: nat, ghost since: nat, ghost calls: nat) returns (r: FdResult)
      requires Valid() && i < |tracks| && tracks[i].state != Finished
      requires since <= kernel.clock && calls <= |kernel.log|
      modifies tracks[i], xpoll, timers, kernel`clock, kernel`log
      ensures LogsFor(old(kernel.log), kernel.log, old(Sockets()))
      ensures Valid() && Others() == old(Others())
      ensures kernel.clock >= old(kernel.clock) && xpoll.bells == old(xpoll.bells)
      ensures timers.timerFdRegId == old(timers.timerFdRegId)
      ensures match r
              case Got(fd) =>
                tracks[i].state == Finished && GivenUp(fd) && ReportedUp(fd)
              case Failed(e) =>
                && (e == EAGAIN <==> tracks[i].state in {InitialDelay, Connecting})
                && (e != EAGAIN ==> tracks[i].state == Bad && HardError(e) && e == tracks[i].badnessReason)
      ensures Extends(old(Tried()), Tried())
      ensures tracks[i].NotDueBefore(since, calls)
      ensures forall k :: 0 <= k < |tracks| && k != i && old(tracks[k].NotDueBefore(since, calls)) ==>
                tracks[k].NotDueBefore(since, calls)
    {
      hide Xpoll.Valid, Timers.Valid, Track.Basics, Track.Resting, Track.Linked, Track.Paced, Track.Timed;
      hide Track.Believed;
      hide Swapped, RegsOk, Others, HeadStart, Track.NotDueBefore, LastAnswer, Track.Silence;
      tracks[i].OwnRegIsOwnSocket();
      tracks[i].OwnIsFds();
      r := tracks[i].GetConnectedFd();
      if r.Got? {
        FurtherBack(kernel.log, 0, tracks[i].since, r.fd);
      }
      tracks[i].NotDueEarlier(old(kernel.clock), |old(kernel.log)|, since, calls);
      StillInOrder(i);
      HeadStartKept(i);
    }

    /** Makes sure that the returned socket is not closed by the destructor. */
    method Release(fd: Fd)
      requires Valid() && GivenUp(fd)
      modifies `fd4, `fd6
      ensures Valid() && Sockets() == old(Sockets()) - {fd} && Others() == old(Others())
      ensures OwnFds() == old(OwnFds()) - {fd}
    {
      hide Xpoll.Valid, Timers.Valid, Track.Basics, Track.Resting, Track.Linked, Track.Paced, Track.Timed;
      hide Track.Believed;
      if fd == fd4 {
        fd4 := NoFd;
      } else {
        assert fd == fd6;
        fd6 := NoFd;
      }
    }

    /** Track `i`, and no other, has handed its socket over. */
    ghost predicate WinnerIs(i: nat)
      reads `tracks, tracks
    {
      && i < |tracks| && tracks[i].state == Finished
      && forall k :: 0 <= k < |tracks| && k != i ==> tracks[k].state != Finished
    }

    lemma TracksDistinct()
      requires Valid()
      ensures forall j, k :: 0 <= j < k < |tracks| ==> tracks[j] != tracks[k]
      ensures forall k :: 0 <= k < |tracks| ==> tracks[k].timers == timers && tracks[k].kernel == kernel
    {
    }

    lemma OthersOpen()
      requires RegsOpen(xpoll.regs, kernel.open)
      ensures RegsOpen(Others(), kernel.open)
    {
    }

    ghost predicate InProgress(t: Track)
      reads t
    {
      t.state in {InitialDelay, Connecting}
    }

    /** Every track is exhausted, the last one for this reason. */
    ghost predicate GaveUp(errno: int)
      reads `tracks, tracks
    {
      && (forall k :: 0 <= k < |tracks| ==> tracks[k].state == Bad)
      && errno == if tracks == [] then ENOENT else tracks[|tracks| - 1].badnessReason
    }

    /** Some track is waiting for its delay to pass or for a connect to finish. */
    ghost predicate AtWork()
      reads `tracks, tracks
    {
      exists k :: 0 <= k < |tracks| && InProgress(tracks[k])
    }

    /** No track is waiting for a timer that had expired at `clock`, or for a connect that the kernel
        has not been asked about since it had been called `calls` times. */
    ghost predicate NotDueBefore(clock: nat, calls: nat)
      reads `tracks, tracks, timers, kernel`log
    {
      forall k :: 0 <= k < |tracks| ==>
        tracks[k].timers == timers && tracks[k].kernel == kernel && tracks[k].NotDueBefore(clock, calls)
    }

    lemma NotDueEarlier(clock: nat, calls: nat, since: nat, from: nat)
      requires NotDueBefore(clock, calls) && since <= clock && from <= calls
      ensures NotDueBefore(since, from)
    {
      forall k | 0 <= k < |tracks| ensures tracks[k].NotDueBefore(since, from) {
        tracks[k].NotDueEarlier(clock, calls, since, from);
      }
    }

    /** The kernel has not reported the socket of any track as connected. */
    ghost predicate NoneUp()
      reads `tracks, tracks, kernel`log
    {
      forall k :: 0 <= k < |tracks| ==> tracks[k].kernel == kernel && tracks[k].Silence(tracks[k].Fds())
    }

    lemma NobodyConnected()
      requires Valid() && forall k :: 0 <= k < |tracks| ==> InProgress(tracks[k]) || tracks[k].state == Bad
      ensures NoneUp()
    {
      hide Xpoll.Valid, Timers.Valid, Track.Basics, Track.Resting, Track.Linked, Track.Paced, Track.Timed, RegsOk;
      forall k | 0 <= k < |tracks| ensures tracks[k].kernel == kernel && tracks[k].Silence(tracks[k].Fds()) {
        assert tracks[k] in tracks && tracks[k].Valid();
      }
    }

    /** The loop of tconnect_get_connected_fd: asks the tracks in turn until one has connected. */
    method PollAll() returns (r: FdResult, ghost winner: nat)
      requires Valid() && Undecided()
      modifies tracks, xpoll, timers, kernel`clock, kernel`log
      ensures LogsFor(old(kernel.log), kernel.log, old(Sockets()))
      ensures Valid() && Others() == old(Others()) && xpoll.bells == old(xpoll.bells)
      ensures timers.timerFdRegId == old(timers.timerFdRegId) && kernel.clock >= old(kernel.clock)
      ensures r.Got? ==> WinnerIs(winner) && GivenUp(r.fd) && ReportedUp(r.fd)
      ensures r.Failed? ==> Undecided()
      ensures r.Failed? ==> (r.errno == EAGAIN <==> AtWork())
      ensures r.Failed? && r.errno != EAGAIN ==>
                HardError(r.errno) && GaveUp(r.errno)
      ensures Extends(old(Tried()), Tried())
      ensures r.Failed? ==> NotDueBefore(old(kernel.clock), |old(kernel.log)|) && NoneUp()
    {
      hide Valid, Others, GivenUp, Track.NotDueBefore, Tried, Extends, LogsFor, Sockets, ReportedUp, NoneUp;
      ghost var since, tried, log := kernel.clock, Tried(), kernel.log;
      ExtendsItself(tried);
      assert LogsFor(log, log, Sockets()) by { LogsNothing(log, Sockets()); }
      TracksDistinct();
      winner := 0;
      var inProgress := false;
      var fatalErrno := ENOENT;
      var i := 0;
      while i < |tracks|
        invariant 0 <= i <= |tracks|
        invariant Valid() && Undecided() && Others() == old(Others()) && xpoll.bells == old(xpoll.bells)
        invariant timers.timerFdRegId == old(timers.timerFdRegId) && kernel.clock >= old(kernel.clock)
        invariant inProgress <==> exists k :: 0 <= k < i && InProgress(tracks[k])
        invariant forall k :: 0 <= k < i ==> InProgress(tracks[k]) || tracks[k].state == Bad
        invariant since <= kernel.clock && forall k :: 0 <= k < i ==> tracks[k].NotDueBefore(since, |log|)
        invariant Extends(tried, Tried()) && LogsFor(log, kernel.log, old(Sockets())) && |log| <= |kernel.log|
        invariant HardError(fatalErrno)
        invariant !inProgress ==> fatalErrno == if i == 0 then ENOENT else tracks[i - 1].badnessReason
      {
        ghost var before, logged := Tried(), kernel.log;
        r := PollTrack(i, since, |log|);
        ExtendsTwice(tried, before, Tried());
        LogsTwice(log, logged, kernel.log, Sockets());
        LogGrows(log, kernel.log, Sockets());
        if r.Got? {
          winner := i;
          return;
        }
        if r.errno == EAGAIN {
          inProgress := true;
        } else {
          fatalErrno := r.errno;
        }
        i := i + 1;
      }
      r := Failed(if inProgress then EAGAIN else fatalErrno);
      NobodyConnected();
    }

    /** tconnect_get_connected_fd: the first track that has connected wins and its socket changes
        owner. Without a winner the answer is EAGAIN exactly when some track is still at work,
        and otherwise the reason of the last track to be exhausted. */
    method GetConnectedFd() returns (r: FdResult, ghost winner: nat)
      requires Valid() && Undecided()
      modifies `fd4, `fd6, tracks, xpoll, timers, kernel`clock, kernel`log
      ensures LogsFor(old(kernel.log), kernel.log, old(Sockets()))
      ensures Valid() && Others() == old(Others()) && xpoll.bells == old(xpoll.bells)
      ensures timers.timerFdRegId == old(timers.timerFdRegId) && kernel.clock >= old(kernel.clock)
      ensures r.Got? ==> r.fd in old(Sockets()) && Sockets() == old(Sockets()) - {r.fd}
      ensures r.Got? ==> r.fd in old(OwnFds()) && OwnFds() == old(OwnFds()) - {r.fd}
      ensures r.Got? ==> WinnerIs(winner) && Unregistered(xpoll.regs, r.fd) && ReportedUp(r.fd)
      ensures r.Failed? ==> Sockets() == old(Sockets()) && OwnFds() == old(OwnFds()) && Undecided()
      ensures r.Failed? ==> (r.errno == EAGAIN <==> AtWork())
      ensures r.Failed? && r.errno != EAGAIN ==>
                HardError(r.errno) && GaveUp(r.errno)
      ensures Extends(old(Tried()), Tried())
      ensures r.Failed? ==> NotDueBefore(old(kernel.clock), |old(kernel.log)|) && NoneUp()
    {
      hide Valid, Others, NotDueBefore, Extends, Tried, Sockets, OwnFds, AtWork, ReportedUp, NoneUp, LogsFor;
      WhatIsOwned();
      r, winner := PollAll();
      if r.Got? {
        Release(r.fd);
      }
    }

    /** tconnect_destroy: every descriptor still owned is closed, every registration and timer removed. */
    method Destroy()
      requires Valid() && RegsOpen(xpoll.regs, kernel.open)
      modifies tracks, xpoll, timers, kernel`open
      ensures xpoll.Valid() && xpoll.bells == old(xpoll.bells)
      ensures xpoll.regs == old(Others())
      ensures kernel.open == old(kernel.open) - old(OwnFds())
      ensures timers.live == map[]
      ensures RegsOpen(xpoll.regs, kernel.open)
    {
      hide Xpoll.Valid, Timers.Valid, Track.Valid, HeadStart, TrackShape, RegsOk, Others;
      OthersOpen();
      var i := 0;
      while i < |tracks|
        invariant 0 <= i <= |tracks|
        invariant Env() && FdsOk() && TrackShape() && RegsOk() && kernel.open == old(kernel.open)
        invariant Others() == old(Others()) && xpoll.bells == old(xpoll.bells)
        invariant timers.timerFdRegId == old(timers.timerFdRegId)
        invariant forall k :: 0 <= k < i ==> tracks[k].fdRegId == -1
        invariant forall k :: i <= k < |tracks| ==> tracks[k].Valid()
      {
        DestroyTrack(i);
        i := i + 1;
      }
      CloseAll();
    }

    /** The end of tconnect_destroy, when all tracks are gone. */
    method CloseAll()
      requires Env() && FdsOk() && RegsOk() && RegsOpen(Others(), kernel.open)
      requires forall k :: 0 <= k < |tracks| ==> tracks[k].fdRegId == -1
      modifies xpoll, timers, kernel`open
      ensures xpoll.Valid() && xpoll.bells == old(xpoll.bells)
      ensures xpoll.regs == old(Others())
      ensures kernel.open == old(kernel.open) - OwnFds()
      ensures timers.live == map[]
      ensures RegsOpen(xpoll.regs, kernel.open)
    {
      hide Xpoll.Valid, Timers.Valid;
      assert OwnIds() == {timers.timerFdRegId};
      kernel.CloseIfValid(fd4);
      kernel.CloseIfValid(fd6);
      timers.Destroy();
      assert kernel.open == old(kernel.open) - OwnFds();
    }

    method DestroyTrack(i: nat)
      requires i < |tracks| && Env() && FdsOk() && TrackShape() && RegsOk()
      requires forall k :: i <= k < |tracks| ==> tracks[k].Valid()
      modifies tracks[i], xpoll, timers
      ensures Env() && FdsOk() && TrackShape() && RegsOk()
      ensures Others() == old(Others()) && xpoll.bells == old(xpoll.bells)
      ensures timers.timerFdRegId == old(timers.timerFdRegId)
      ensures tracks[i].fdRegId == -1 && tracks[i].timerId == -1
      ensures forall k :: i < k < |tracks| ==> tracks[k].Valid()
    {
      hide Xpoll.Valid, Timers.Valid, Track.Basics, Track.Resting, Track.Linked, Track.Paced, Track.Timed;
      hide Track.Believed;
      tracks[i].OwnRegIsOwnSocket();
      label before:
      tracks[i].Destroy();
      if i == 0 && |tracks| == 2 {
        tracks[i].OtherTrackKept@before(tracks[1]);
      }
      OthersKept(i);
      RegsKept(i);
    }

    /** No lost wake-up while connecting: once the timer of a track at work has expired, or the
        socket it is connecting has become writable, the XCM descriptor is readable. */
    lemma TrackWakesUp(i: nat, ready: map<Fd, Events>)
      requires Valid() && i < |tracks| && InProgress(tracks[i])
      requires TimerFdReadable(timers.armed, kernel.clock) ==> timers.timerFd in ready && IN in ready[timers.timerFd]
      ensures tracks[i].timerId in timers.live
      ensures Seconds(kernel.clock) > timers.live[tracks[i].timerId] ==> XcmFdReadable(xpoll.epoll, ready)
      ensures tracks[i].state == Connecting ==> 0 <= tracks[i].ipIdx < |tracks[i].ips|
      ensures tracks[i].Timed()
      ensures tracks[i].state == Connecting && tracks[i].CurrentFd() in ready && OUT in ready[tracks[i].CurrentFd()] ==>
                XcmFdReadable(xpoll.epoll, ready)
    {
      hide Xpoll.Valid, Timers.Valid, Eligible, TriedIdx, TrackShape;
      var t := tracks[i];
      assert t in tracks && t.Valid();
      assert t.kernel == kernel && t.xpoll == xpoll && t.timers == timers by {
        SameParts(t);
      }
      if Seconds(kernel.clock) > timers.live[t.timerId] {
        timers.ExpiredImpliesReadable(t.timerId, kernel.clock);
        xpoll.WhatIsPolled(timers.timerFd, {IN});
        assert IN in xpoll.epoll[timers.timerFd] * ready[timers.timerFd];
      }
      if t.state == Connecting && t.CurrentFd() in ready && OUT in ready[t.CurrentFd()] {
        xpoll.WhatIsPolled(t.CurrentFd(), {OUT});
        assert OUT in xpoll.epoll[t.CurrentFd()] * ready[t.CurrentFd()];
      }
    }

    lemma SameParts(t: Track)
      requires TrackShape() && t in tracks
      ensures t.kernel == kernel && t.xpoll == xpoll && t.timers == timers
    {
    }

    /** The Happy Eyeballs head start: with any IPv6 address in the list, no connect to an IPv4
        address has been issued before 200 ms had passed since the request. */
    lemma NoEarlyIpv4(i: nat, k: nat)
      requires Valid() && algorithm == HappyEyeballs
      requires i < |tracks| && V6 in tracks[i].ips
      requires k < |tracks[i].tried| && tracks[i].tried[k].issuedAt.Some?
      requires 0 <= tracks[i].tried[k].idx < |tracks[i].ips| && tracks[i].ips[tracks[i].tried[k].idx] == V4
      ensures tracks[i].tried[k].issuedAt.value > startedAt + 200_000_000
    {
      hide Xpoll.Valid, Timers.Valid, TrackShape, RegsOk;
      var t := tracks[i];
      assert t in tracks && t.Valid();
      assert TriedIdx(t.tried)[k] == t.tried[k].idx;
      EligibleMember(t.ips, t.has4, t.has6, t.ipIdx + 1, t.tried[k].idx);
    }
  }
}
