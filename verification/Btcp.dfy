/** libxcm/tp/tcp/xcm_tp_btcp.c: the byte-stream TCP connection socket. */
module BtcpTransport {
  import opened KernelModel
  import opened ActiveFd
  import opened XpollTable
  import opened Tracks
  import opened TimerMgr
  import opened TcpConnect
  import opened Dns
  import opened Lower

  const DEFAULT_CONNECT_TIMEOUT := 3.0

  datatype ConnState = Initialized | Resolving | ConnectingTcp | Ready | ClosedByPeer | Unusable

  /** The outcome of parsing the remote address. */
  datatype Remote = Malformed | Name | Address(family: Family)

  /** How a send was answered. Without an established connection the kernel is not asked; otherwise
      the one call made took exactly the bytes reported, or its errno is the answer: EPIPE closes
      the connection and any other but EAGAIN breaks it. */
  ghost predicate SendAnswered(before: seq<SysCall>, log: seq<SysCall>, fd: Fd, buf: seq<Byte>, r: IoResult, p: Phase) {
    || (log == before && !p.Up? && r == Fail(FailureOf(p)))
    || (exists n: nat, errno ::
          && log == before + [SysSend(fd, buf, n, errno)]
          && (errno == 0 ==> r == Done(n) && p == Up)
          && (errno != 0 ==> r == Fail(errno))
          && (errno == EAGAIN ==> p == Up)
          && (errno == EPIPE ==> p == Closed)
          && (errno !in {0, EAGAIN, EPIPE} ==> p == Broken(errno)))
  }

  /** How a receive was answered: with exactly the bytes the one call gave, none of them meaning the
      end of the stream, or with its errno, any but EAGAIN breaking the connection. */
  ghost predicate ReceiveAnswered(before: seq<SysCall>, log: seq<SysCall>, fd: Fd, capacity: nat, r: IoResult,
                                  bytes: seq<Byte>, p: Phase) {
    || (log == before && !p.Up? && bytes == [] && r == if p.Closed? then Done(0) else Fail(FailureOf(p)))
    || (exists errno ::
          && log == before + [SysRecv(fd, capacity, bytes, errno)]
          && (errno == 0 ==> r == Done(|bytes|) && p == if bytes == [] then Closed else Up)
          && (errno != 0 ==> r == Fail(errno))
          && (errno == EAGAIN ==> p == Up)
          && (errno !in {0, EAGAIN} ==> p == Broken(errno)))
  }

  /** How an accept was answered: it fails when accept(2) does, and else with the errno of setting up
      the socket that was given out. */
  ghost predicate AcceptAnswered(before: seq<SysCall>, log: seq<SysCall>, server: Fd, errno: int) {
    || (log == before + [SysAccept(server, NoFd)] && errno != 0)
    || (exists conn :: conn != NoFd && log == before + [SysAccept(server, conn)] + [SysConfigure(conn, errno)])
  }

  /** The order in which states may be passed through. */
  function Rank(s: ConnState): nat {
    match s
    case Initialized => 0
    case Resolving => 1
    case ConnectingTcp => 2
    case Ready => 3
    case ClosedByPeer => 4
    case Unusable => 4
  }

  /** The registrations owned are for the descriptors owned, and nobody else's are. */
  ghost predicate OwnsThese(regs: map<int, FdReg>, open: set<Fd>, own: set<int>, fds: set<Fd>) {
    && own <= regs.Keys && fds <= open
    && (forall id :: id in own ==> regs[id].fd in fds)
    && (forall id :: id in regs && id !in own ==> regs[id].fd !in fds)
  }

  /** Nor does the removal of what is somebody else's. */
  lemma OwnsTheseLess(regs: map<int, FdReg>, open: set<Fd>, own: set<int>, fds: set<Fd>, ids: set<int>, gone: set<Fd>)
    requires OwnsThese(regs, open, own, fds) && own !! ids && fds !! gone
    ensures OwnsThese(regs - ids, open - gone, own, fds)
    ensures forall id :: id in own ==> (regs - ids)[id] == regs[id]
  {
  }

  lemma OwnIdsIn(regs: map<int, FdReg>, open: set<Fd>, own: set<int>, fds: set<Fd>)
    requires OwnsThese(regs, open, own, fds)
    ensures own <= regs.Keys
  {
  }

  /** A registration of somebody else for another descriptor changes nothing about this. */
  lemma OwnsTheseStill(regs: map<int, FdReg>, open: set<Fd>, own: set<int>, fds: set<Fd>, id: int, reg: FdReg)
    requires OwnsThese(regs, open, own, fds) && id !in regs && reg.fd !in fds
    ensures OwnsThese(regs[id := reg], open, own, fds) && id !in own
  {
  }

  class Btcp {
    const kernel: Kernel
    const xpoll: Xpoll

    var state: ConnState
    var fd: Fd
    var fdRegId: int
    var bellRegId: int
    var badnessReason: int
    var query: Query?
    var tconnect: Tconnect?

    var localAddr: bool
    var scopeSet: bool
    var dnsAlgorithm: Algorithm
    var connectTimeout: real
    var condition: set<Condition>

    /** History: the bytes the kernel has taken and given, and how many system calls had been made
        when the descriptor became this socket's. */
    ghost var written: seq<Byte>
    ghost var read: seq<Byte>
    ghost var since: nat
    /** The addresses the connection is to be established with. */
    ghost var targets: seq<Family>

    /** The objects the connection establishment is made of. */
    ghost function TconnectParts(): set<object>
      reads `tconnect, tconnect
    {
      if tconnect == null then {} else {tconnect, tconnect.timers} + (set t | t in tconnect.tracks)
    }

    /** The objects this socket is made of, besides the ones it shares with others. */
    ghost function Parts(): set<object>
      reads `query, `tconnect, tconnect
    {
      (if query == null then {} else {query}) + TconnectParts()
    }

    ghost function QueryIds(): set<int>
      reads `query, query
    {
      if query == null then {} else Valids(query.pipeRegId)
    }

    ghost function TconnectIds(): set<int>
      reads `tconnect, tconnect, TconnectParts()
    {
      if tconnect == null then {} else tconnect.OwnIds()
    }

    ghost function TconnectFds(): set<Fd>
      reads `tconnect, tconnect
    {
      if tconnect == null then {} else tconnect.OwnFds()
    }

    ghost function QueryFds(): set<Fd>
      reads `query
    {
      if query == null then {} else query.OwnFds()
    }

    /** The registrations this socket holds in the poll set. */
    ghost function OwnIds(): set<int>
      reads `fdRegId, `query, query, `tconnect, tconnect, TconnectParts()
    {
      Valids(fdRegId) + QueryIds() + TconnectIds()
    }

    /** The descriptors this socket is responsible for closing. */
    ghost function OwnFds(): set<Fd>
      reads `fd, `query, `tconnect, tconnect
    {
      {fd} - {NoFd} + QueryFds() + TconnectFds()
    }

    /** The registrations, bells and descriptors of everybody else. */
    ghost function OtherRegs(): map<int, FdReg>
      reads xpoll, `fdRegId, `query, query, `tconnect, tconnect, TconnectParts()
    {
      xpoll.regs - OwnIds()
    }

    ghost function OtherBells(): map<int, bool>
      reads `bellRegId, xpoll
    {
      xpoll.bells - {bellRegId}
    }

    ghost function OtherFds(): set<Fd>
      reads kernel, `fd, `query, `tconnect, tconnect
    {
      kernel.open - OwnFds()
    }

    ghost predicate Env()
      reads `bellRegId, kernel, xpoll, xpoll.pool
    {
      && xpoll.Valid() && xpoll.pool.Valid() && RegsOpen(xpoll.regs, kernel.open)
      && bellRegId in xpoll.bells
    }

    ghost predicate FdOk()
      reads `fd, `fdRegId, kernel, xpoll
    {
      && fdRegId >= -1 && (fd == NoFd <==> fdRegId == -1)
      && (fd != NoFd ==>
            && fd.Desc? && fd in kernel.open
            && fdRegId in xpoll.regs && xpoll.regs[fdRegId].fd == fd
            && forall id :: id in xpoll.regs && id != fdRegId ==> xpoll.regs[id].fd != fd)
    }

    ghost predicate QueryOk()
      reads `query, query, kernel, xpoll
    {
      query != null ==> query.kernel == kernel && query.xpoll == xpoll && query.Valid()
    }

    ghost predicate TconnectOk()
      reads `tconnect, tconnect, TconnectParts(), kernel, xpoll, xpoll.pool
    {
      && (tconnect != null ==> tconnect.kernel == kernel && tconnect.xpoll == xpoll && tconnect.Valid())
      && TconnectFds() <= kernel.open && TconnectIds() <= xpoll.regs.Keys
    }

    /** The history is what the kernel has been seen to take and give on this descriptor. */
    ghost predicate HistoryOk()
      reads `fd, `written, `read, `since, kernel`log
    {
      if fd == NoFd then written == [] && read == []
      else
        && since <= |kernel.log|
        && written == TakenFrom(kernel.log, since, fd) && read == GivenTo(kernel.log, since, fd)
    }

    lemma BlankHistory()
      requires HistoryOk() && fd == NoFd
      ensures written == [] && read == []
    {
    }

    lemma NoHistoryYet()
      requires written == [] && read == [] && since == |kernel.log|
      ensures HistoryOk()
    {
    }

    /** Calls on other descriptors leave the history as it is. */
    twostate lemma HistoryStill()
      requires old(HistoryOk()) && unchanged(`fd, `written, `read, `since)
      requires Spares(old(kernel.log), kernel.log, {fd} - {NoFd})
      ensures HistoryOk()
    {
      if fd != NoFd {
        SparedHistory(old(kernel.log), kernel.log, since, fd);
      }
    }

    /** Everything this socket owns is in order and owned once. */
    ghost predicate Core()
      reads `bellRegId, `fd, `fdRegId, `query, query, `tconnect, tconnect, TconnectParts(), kernel, xpoll, xpoll.pool
      reads `written, `read, `since
    {
      && Env() && FdOk() && QueryOk() && TconnectOk() && HistoryOk()
      && QueryFds() !! TconnectFds() && fd !in QueryFds() && fd !in TconnectFds()
      && QueryIds() !! TconnectIds() && fdRegId !in QueryIds() && fdRegId !in TconnectIds()
    }

    /** What each state between calls implies; the run-time assertions of the source are the
        weaker AssertConnSocket below. */
    ghost predicate StateOk()
      reads `state, `fd, `badnessReason, `tconnect, tconnect, TconnectParts()
    {
      match state
      case Initialized => fd == NoFd && tconnect == null
      case Resolving =>
        && fd == NoFd && tconnect != null && tconnect.tracks == []
        && tconnect.fd4 != NoFd && tconnect.fd6 != NoFd
      case ConnectingTcp => fd == NoFd && tconnect != null && tconnect.Undecided()
      case Ready => fd != NoFd && tconnect == null
      case ClosedByPeer => fd != NoFd && tconnect == null
      case Unusable => HardError(badnessReason) && (fd == NoFd || tconnect == null)
    }

    /** A socket that is connecting has a track at work, which has a timer to wake it up. */
    ghost predicate Waiting()
      reads `state, `tconnect, tconnect, TconnectParts()
    {
      state == ConnectingTcp ==> tconnect != null && tconnect.AtWork()
    }

    /** What is still going on could not have been finished at `clock`: no answer of the resolver
        is left unread, no track waits for a timer that had expired, and the kernel has been asked
        about every connect since it had been called `calls` times. */
    ghost predicate Prompt(clock: nat, calls: nat)
      reads `state, `query, query, `tconnect, tconnect, TconnectParts(), kernel`log
    {
      && (state == ConnectingTcp ==>
            tconnect != null && tconnect.kernel == kernel && tconnect.NotDueBefore(clock, calls))
      && (state == Resolving ==> query != null && query.state == Pending)
    }

    /** The connection establishment has the tracks that the addresses and the configuration call for. */
    ghost predicate UnderWay(ips: seq<Family>)
      reads `connectTimeout, `localAddr, `tconnect, tconnect
    {
      && tconnect != null && tconnect.Layout(ips)
      && forall t :: t in tconnect.tracks ==> t.connectTimeout == connectTimeout && t.bindLocal == localAddr
    }

    ghost predicate OnTarget()
      reads `state, `targets, `dnsAlgorithm, `connectTimeout, `localAddr, `tconnect, tconnect
    {
      && (state in {Resolving, ConnectingTcp} ==> tconnect != null && tconnect.algorithm == dnsAlgorithm)
      && (state == ConnectingTcp ==> UnderWay(targets))
    }

    /** A connection comes to be ready because the kernel has reported its socket as connected, and
        unusable because the socket could not be set up, or every track is exhausted, or no track
        could be started. */
    ghost predicate Warranted()
      reads `state, `fd, `badnessReason, `tconnect, tconnect, TconnectParts(), kernel`log
    {
      && (state == Ready ==> ReportedUp())
      && (state == Unusable ==>
            Misconfigured() || (tconnect != null && (tconnect.GaveUp(badnessReason) || tconnect.tracks == [])))
    }

    ghost predicate Valid()
      reads this, kernel, xpoll, xpoll.pool, query, tconnect, Parts()
    {
      && Core() && StateOk() && Waiting() && OnTarget()
      && (state == Resolving <==> query != null)
      && (query != null ==> query.pipeRegId >= 0)
    }

    /** assert_conn_socket */
    predicate AssertConnSocket()
      reads this
    {
      match state
      case Initialized => fd == NoFd
      case Resolving => query != null
      case ConnectingTcp => tconnect != null && fd == NoFd
      case Ready => fd != NoFd
      case Unusable => badnessReason != 0
      case ClosedByPeer => true
    }

    /** The run-time assertions hold in every state between calls. */
    lemma AssertionsHold()
      requires Valid()
      ensures AssertConnSocket()
    {
    }

    /** How the messaging layer sees the state. */
    ghost function PhaseOf(): Phase
      reads this
    {
      match state
      case Initialized => Establishing
      case Resolving => Establishing
      case ConnectingTcp => Establishing
      case Ready => Up
      case ClosedByPeer => Closed
      case Unusable => Broken(badnessReason)
    }

    /** Nothing that belongs to others has changed, and nothing has leaked. */
    twostate predicate SameOthers()
      reads this, kernel, xpoll, tconnect, Parts()
    {
      && OtherRegs() == old(OtherRegs()) && OtherBells() == old(OtherBells()) && bellRegId == old(bellRegId)
      && OtherFds() == old(OtherFds())
      && kernel.clock >= old(kernel.clock) && Spares(old(kernel.log), kernel.log, OtherFds())
    }

    /** States only move forward, and closed and unusable sockets stay as they are. */
    twostate predicate StateForward()
      reads this
    {
      && Rank(old(state)) <= Rank(state)
      && (Rank(old(state)) == 4 ==> state == old(state) && badnessReason == old(badnessReason))
    }

    twostate predicate Contained()
      reads this, kernel, xpoll, tconnect, Parts()
    {
      SameOthers() && StateForward()
    }

    /** Removing registrations and descriptors that are not part of the connection establishment
        leaves it in order. */
    twostate lemma TconnectUndisturbed(gone: set<int>)
      requires old(TconnectOk()) && tconnect == old(tconnect)
      requires tconnect != null ==>
                 && unchanged(tconnect) && unchanged(tconnect.timers)
                 && forall k :: 0 <= k < |tconnect.tracks| ==> unchanged(tconnect.tracks[k])
      requires xpoll.Valid() && kernel.clock >= old(kernel.clock) && TconnectFds() <= kernel.open
      requires xpoll.regs == old(xpoll.regs) - gone && gone !! TconnectIds()
      requires Spares(old(kernel.log), kernel.log, TconnectFds())
      ensures TconnectOk()
      ensures TconnectIds() == old(TconnectIds()) && TconnectFds() == old(TconnectFds())
    {
      hide Xpoll.Valid, Timers.Valid, Track.Valid, Tconnect.HeadStart;
      if tconnect != null {
        assert tconnect.OwnIds() == old(tconnect.OwnIds());
        assert forall id :: id in tconnect.OwnIds() ==> id in old(xpoll.regs);
        assert forall id :: id in old(xpoll.regs) && id !in tconnect.OwnIds() ==>
                 old(xpoll.regs)[id].fd !in tconnect.OwnFds();
        tconnect.StaysValid();
      }
    }

    lemma TconnectWithin()
      requires TconnectOk()
      ensures TconnectFds() <= kernel.open && TconnectIds() <= xpoll.regs.Keys
      ensures NoFd !in TconnectFds() && -1 !in TconnectIds()
    {
      hide Tconnect.Valid, Tconnect.OwnIds, Tconnect.OwnFds;
      if tconnect != null {
        tconnect.WhatIsOwned();
      }
    }

    /** And so does adding a registration for a descriptor that is not its own. */
    twostate lemma TconnectUndisturbedByNew(id: int)
      requires old(TconnectOk()) && tconnect == old(tconnect)
      requires tconnect != null ==>
                 && unchanged(tconnect) && unchanged(tconnect.timers)
                 && forall k :: 0 <= k < |tconnect.tracks| ==> unchanged(tconnect.tracks[k])
      requires xpoll.Valid() && kernel.clock >= old(kernel.clock) && old(kernel.open) <= kernel.open
      requires id !in old(xpoll.regs) && id in xpoll.regs && xpoll.regs == old(xpoll.regs)[id := xpoll.regs[id]]
      requires xpoll.regs[id].fd !in TconnectFds() && Spares(old(kernel.log), kernel.log, TconnectFds())
      ensures TconnectOk()
      ensures TconnectIds() == old(TconnectIds()) && TconnectFds() == old(TconnectFds()) && id !in TconnectIds()
    {
      hide Xpoll.Valid, Timers.Valid, Track.Valid, Tconnect.HeadStart;
      if tconnect != null {
        assert tconnect.OwnIds() == old(tconnect.OwnIds());
        assert forall id :: id in tconnect.OwnIds() ==> id in old(xpoll.regs);
        assert forall id :: id in old(xpoll.regs) && id !in tconnect.OwnIds() ==>
                 old(xpoll.regs)[id].fd !in tconnect.OwnFds();
        tconnect.StaysValid();
      }
    }

    lemma WhatIsOwned()
      requires Core()
      ensures OwnsThese(xpoll.regs, kernel.open, OwnIds(), OwnFds())
    {
      hide Xpoll.Valid, ActiveFdPool.Valid, Tconnect.Valid, Tconnect.OwnIds, Tconnect.OwnFds;
      if tconnect != null {
        tconnect.WhatIsOwned();
      }
    }

    /** The same, as a consequence of Valid. */
    lemma WhatIsOwnedAtRest()
      requires Valid()
      ensures OwnsThese(xpoll.regs, kernel.open, OwnIds(), OwnFds())
      ensures xpoll.Valid() && xpoll.pool.Valid() && RegsOpen(xpoll.regs, kernel.open)
    {
      hide Xpoll.Valid, ActiveFdPool.Valid, FdOk, QueryOk, TconnectOk, StateOk;
      WhatIsOwned();
    }

    /** Nothing of this socket itself has changed. */
    twostate predicate Untouched()
      reads this, query, tconnect, Parts()
    {
      && unchanged(this) && (query != null ==> unchanged(query))
      && (tconnect != null ==>
            && unchanged(tconnect) && unchanged(tconnect.timers)
            && forall k :: 0 <= k < |tconnect.tracks| ==> unchanged(tconnect.tracks[k]))
    }

    twostate lemma OwnsTheSame()
      requires Untouched()
      ensures OwnIds() == old(OwnIds()) && OwnFds() == old(OwnFds())
    {
    }

    twostate lemma StateStill()
      requires Untouched() && old(StateOk()) && old(Waiting()) && old(OnTarget())
      ensures StateOk() && Waiting() && OnTarget()
    {
      hide Tconnect.Layout;
    }

    /** Whatever others do to the poll set and the kernel, as long as they leave the registrations,
        the bell and the descriptors of this socket alone, it stays valid. */
    twostate lemma StaysValid()
      requires old(Valid()) && Untouched()
      requires xpoll.Valid() && xpoll.pool.Valid() && RegsOpen(xpoll.regs, kernel.open) && bellRegId in xpoll.bells
      requires kernel.clock >= old(kernel.clock) && OwnsThese(xpoll.regs, kernel.open, OwnIds(), OwnFds())
      requires forall id :: id in OwnIds() ==> id in old(xpoll.regs) && xpoll.regs[id] == old(xpoll.regs)[id]
      requires Spares(old(kernel.log), kernel.log, OwnFds())
      ensures Valid() && OwnIds() == old(OwnIds())
    {
      hide Xpoll.Valid, ActiveFdPool.Valid, Tconnect.Valid, Tconnect.OwnIds, Tconnect.OwnFds, HistoryOk;
      HistoryStill();
      if tconnect != null {
        TconnectStays();
      }
    }

    /** A new registration for a descriptor of somebody else leaves the socket valid. */
    twostate lemma KeptByNew(id: int)
      requires old(Valid()) && Untouched() && unchanged(xpoll.pool) && unchanged(kernel) && xpoll.Valid()
      requires old(OwnsThese(xpoll.regs, kernel.open, OwnIds(), OwnFds())) && xpoll.bells == old(xpoll.bells)
      requires id !in old(xpoll.regs) && id in xpoll.regs && xpoll.regs == old(xpoll.regs)[id := xpoll.regs[id]]
      requires xpoll.regs[id].fd in kernel.open && xpoll.regs[id].fd !in OwnFds()
      ensures Valid() && id !in OwnIds()
    {
      hide Xpoll.Valid, ActiveFdPool.Valid, OwnsThese, OwnIds, OwnFds, FdOk, QueryOk, TconnectOk, StateOk;
      OwnsTheSame();
      OwnsTheseStill(old(xpoll.regs), kernel.open, OwnIds(), OwnFds(), id, xpoll.regs[id]);
      OwnIdsIn(old(xpoll.regs), kernel.open, OwnIds(), OwnFds());
      StaysValid();
    }

    /** The part of it that concerns the connection establishment. */
    twostate lemma TconnectStays()
      requires old(Core()) && Untouched() && tconnect != null
      requires xpoll.Valid() && kernel.clock >= old(kernel.clock)
      requires OwnsThese(xpoll.regs, kernel.open, OwnIds(), OwnFds())
      requires forall id :: id in OwnIds() ==> id in old(xpoll.regs) && xpoll.regs[id] == old(xpoll.regs)[id]
      requires Spares(old(kernel.log), kernel.log, OwnFds())
      ensures TconnectOk() && TconnectIds() == old(TconnectIds())
    {
      hide Xpoll.Valid, ActiveFdPool.Valid, Timers.Valid, Track.Valid, Tconnect.HeadStart;
      assert tconnect.OwnIds() == old(tconnect.OwnIds());
      tconnect.StaysValid();
    }

    /** Two sockets with poll sets of their own do not disturb each other: whatever the owner of
        another poll set does to the pool and the descriptors it closes, this socket stays valid. */
    twostate lemma Bystander(other: nat)
      requires old(Valid()) && Untouched() && unchanged(xpoll)
      requires xpoll.me != other && OthersKept(old(xpoll.pool.holders), xpoll.pool.holders, other)
      requires xpoll.pool.Valid() && kernel.clock >= old(kernel.clock)
      requires RegsOpen(xpoll.regs, kernel.open) && OwnFds() <= kernel.open
      requires Spares(old(kernel.log), kernel.log, OwnFds())
      ensures Valid()
    {
      hide Xpoll.Valid, ActiveFdPool.Valid, TconnectIds, TconnectFds, HistoryOk, Spares, StateOk, Waiting, OnTarget;
      StateStill();
      SparesFewer(old(kernel.log), kernel.log, OwnFds(), TconnectFds());
      SparesFewer(old(kernel.log), kernel.log, OwnFds(), {fd} - {NoFd});
      HistoryStill();
      xpoll.KeptByOthers(other);
      assert xpoll.regs == old(xpoll.regs) - {};
      TconnectUndisturbed({});
    }

    /** xcm_dns_query_destroy on the query there may be. */
    method DestroyQuery()
      requires xpoll.Valid() && RegsOpen(xpoll.regs, kernel.open) && QueryOk() && TconnectOk()
      requires QueryIds() !! TconnectIds() && QueryFds() !! TconnectFds()
      modifies `query, kernel`open, xpoll
      ensures query == null && TconnectOk()
      ensures xpoll.Valid() && xpoll.bells == old(xpoll.bells) && RegsOpen(xpoll.regs, kernel.open)
      ensures xpoll.regs == old(xpoll.regs) - old(QueryIds())
      ensures kernel.open == old(kernel.open) - old(QueryFds())
    {
      hide Xpoll.Valid, Tconnect.Valid;
      if query != null {
        query.Destroy();
        query := null;
      }
      assert xpoll.regs == old(xpoll.regs) - old(QueryIds());
      TconnectUndisturbed(old(QueryIds()));
    }

    /** tconnect_destroy on the connection establishment there may be. */
    method DestroyTconnect()
      requires xpoll.Valid() && RegsOpen(xpoll.regs, kernel.open) && TconnectOk()
      modifies `tconnect, kernel`open, xpoll, TconnectParts()
      ensures tconnect == null
      ensures xpoll.Valid() && xpoll.bells == old(xpoll.bells) && RegsOpen(xpoll.regs, kernel.open)
      ensures xpoll.regs == old(xpoll.regs) - old(TconnectIds())
      ensures kernel.open == old(kernel.open) - old(TconnectFds())
      ensures old(tconnect) != null ==> old(tconnect).timers.live == map[]
    {
      hide Xpoll.Valid, Tconnect.Valid;
      if tconnect != null {
        tconnect.Destroy();
        tconnect := null;
      }
    }

    /** btcp_init for a connection socket. */
    constructor (kernel: Kernel, xpoll: Xpoll)
      requires xpoll.Valid() && xpoll.pool.Valid() && RegsOpen(xpoll.regs, kernel.open)
      modifies xpoll, xpoll.pool
      ensures Valid() && state == Initialized && this.kernel == kernel && this.xpoll == xpoll && query == null
      ensures xpoll.regs == old(xpoll.regs) && written == [] && read == []
      ensures bellRegId !in old(xpoll.bells) && xpoll.bells == old(xpoll.bells)[bellRegId := false]
      ensures OthersKept(old(xpoll.pool.holders), xpoll.pool.holders, xpoll.me)
    {
      hide Xpoll.Valid;
      this.kernel, this.xpoll := kernel, xpoll;
      state := Initialized;
      fd, fdRegId, badnessReason := NoFd, -1, 0;
      query, tconnect := null, null;
      localAddr, scopeSet, dnsAlgorithm, connectTimeout, condition := false, false, NoAlgorithm, -1.0, {};
      written, read, since, targets := [], [], 0, [];
      bellRegId := -1;
      new;
      bellRegId := xpoll.BellRegAdd(false);
    }

    method DestroyParts()
      requires xpoll.Valid() && RegsOpen(xpoll.regs, kernel.open) && QueryOk() && TconnectOk()
      requires QueryIds() !! TconnectIds() && QueryFds() !! TconnectFds()
      modifies `query, `tconnect, kernel`open, xpoll, Parts()
      ensures xpoll.Valid() && xpoll.bells == old(xpoll.bells) && RegsOpen(xpoll.regs, kernel.open)
      ensures xpoll.regs == old(xpoll.regs) - (old(QueryIds()) + old(TconnectIds()))
      ensures kernel.open == old(kernel.open) - (old(QueryFds()) + old(TconnectFds()))
      ensures old(tconnect) != null ==> old(tconnect).timers.live == map[]
    {
      hide Xpoll.Valid, Tconnect.Valid;
      DestroyQuery();
      DestroyTconnect();
    }

    /** The first part of deinit. */
    method Unregister()
      requires Core()
      modifies xpoll, xpoll.pool
      ensures xpoll.Valid() && xpoll.pool.Valid() && RegsOpen(xpoll.regs, kernel.open) && QueryOk() && TconnectOk()
      ensures xpoll.regs == old(xpoll.regs) - Valids(fdRegId) && xpoll.bells == old(xpoll.bells) - {bellRegId}
      ensures OthersKept(old(xpoll.pool.holders), xpoll.pool.holders, xpoll.me)
    {
      hide Xpoll.Valid, Tconnect.Valid, ActiveFdPool.Valid;
      xpoll.FdRegDelIfValid(fdRegId);
      xpoll.BellRegDel(bellRegId);
      TconnectUndisturbed(Valids(fdRegId));
    }

    /** deinit: takes down, from any state, everything the socket owns and nothing else. */
    method Deinit()
      requires Core()
      modifies this, kernel`open, xpoll, xpoll.pool, Parts()
      ensures xpoll.Valid() && xpoll.pool.Valid() && RegsOpen(xpoll.regs, kernel.open)
      ensures xpoll.regs == old(OtherRegs()) && xpoll.bells == old(OtherBells())
      ensures kernel.open == old(OtherFds())
      ensures old(tconnect) != null ==> old(tconnect).timers.live == map[]
      ensures OthersKept(old(xpoll.pool.holders), xpoll.pool.holders, xpoll.me)
    {
      hide Xpoll.Valid, ActiveFdPool.Valid, QueryIds, TconnectIds, QueryFds, TconnectFds, QueryOk, TconnectOk;
      Unregister();
      DestroyParts();
      kernel.CloseIfValid(fd);
      fd := NoFd;
    }

    /** The kernel has said last of the socket that its connect has succeeded. */
    ghost predicate ReportedUp()
      reads `fd, kernel`log
    {
      LastAnswer(kernel.log, 0, fd) == Some(0)
    }

    /** A socket has just come from the connection establishment and is not registered yet. */
    ghost predicate JustHanded()
      reads `bellRegId, `fd, `fdRegId, `query, query, `tconnect, tconnect, TconnectParts(), kernel, xpoll, xpoll.pool
      reads `written, `read, `since
    {
      && HistoryOk()
      && Env() && QueryOk() && TconnectOk() && tconnect != null
      && QueryFds() !! TconnectFds() && fd !in QueryFds() && fd !in TconnectFds() && QueryIds() == {}
      && fd.Desc? && fd in kernel.open && Unregistered(xpoll.regs, fd) && fdRegId == -1
    }

    /** Only the connection establishment has worked, on its own registrations. */
    twostate lemma TconnectWorked()
      requires old(Env()) && old(QueryOk()) && old(TconnectOk())
      requires tconnect != null && tconnect == old(tconnect) && tconnect.xpoll == xpoll && tconnect.kernel == kernel
      requires query == old(query) && (query != null ==> unchanged(query)) && QueryIds() == {}
      requires fdRegId == old(fdRegId) == -1 && bellRegId == old(bellRegId)
      requires kernel.open == old(kernel.open) && xpoll.bells == old(xpoll.bells) && unchanged(xpoll.pool)
      requires tconnect.Valid() && tconnect.Others() == old(tconnect.Others())
      requires tconnect.OwnFds() <= old(tconnect.OwnFds()) && old(tconnect.OwnFds()) !! QueryFds()
      ensures Env() && QueryOk() && TconnectOk() && OtherRegs() == old(OtherRegs()) && OtherBells() == old(OtherBells())
    {
      hide Xpoll.Valid, Tconnect.Valid, ActiveFdPool.Valid, Tconnect.OwnIds, Tconnect.OwnFds;
      tconnect.WhatIsOwned();
      var others := tconnect.Others();
      forall id | id in xpoll.regs && id !in tconnect.OwnIds()
        ensures id in old(xpoll.regs) && xpoll.regs[id] == old(xpoll.regs)[id]
      {
        assert id in others && others[id] == xpoll.regs[id];
      }
      assert OwnIds() == tconnect.OwnIds();
      assert old(OwnIds()) == old(tconnect.OwnIds());
    }

    /** The tconnect_get_connected_fd call of try_finish_connect. */
    method AskTconnect() returns (r: FdResult)
      requires Core() && StateOk() && state == ConnectingTcp && QueryIds() == {}
      modifies kernel`clock, kernel`log, xpoll, TconnectParts()
      ensures tconnect != null && tconnect.kernel == kernel && Parts() == old(Parts()) && QueryIds() == {}
      ensures Env() && QueryOk() && TconnectOk()
      ensures OtherRegs() == old(OtherRegs()) && OtherBells() == old(OtherBells()) && kernel.clock >= old(kernel.clock)
      ensures LogsFor(old(kernel.log), kernel.log, old(TconnectFds())) && (old(OnTarget()) ==> OnTarget())
      ensures match r
              case Got(fd) =>
                && fd.Desc? && fd in old(TconnectFds()) && TconnectFds() == old(TconnectFds()) - {fd}
                && Unregistered(xpoll.regs, fd) && LastAnswer(kernel.log, 0, fd) == Some(0)
              case Failed(e) =>
                && TconnectFds() == old(TconnectFds()) && tconnect.Undecided() && (e == EAGAIN || HardError(e))
                && (e == EAGAIN <==> tconnect.AtWork()) && tconnect.NotDueBefore(old(kernel.clock), |old(kernel.log)|)
                && (e != EAGAIN ==> tconnect.GaveUp(e))
    {
      hide Xpoll.Valid, Tconnect.Valid, ActiveFdPool.Valid, Tconnect.OwnIds, QueryOk;
      hide Tconnect.Others, Tconnect.OwnFds, Tconnect.Sockets, OtherRegs, OtherBells, RegsOpen;
      ghost var winner;
      tconnect.WhatIsOwned();
      ghost var sockets := tconnect.Sockets();
      r, winner := tconnect.GetConnectedFd();
      assert sockets <= old(TconnectFds());
      TconnectWorked();
    }

    /** Asks the connection establishment for its result; a socket that is handed over changes
        owner. */
    method PollConnect() returns (r: FdResult)
      requires Core() && StateOk() && state == ConnectingTcp && QueryIds() == {}
      modifies `fd, `since, kernel`clock, kernel`log, xpoll, TconnectParts()
      ensures Parts() == old(Parts()) && QueryIds() == {} && Contained()
      ensures r.Got? ==> JustHanded() && fd == r.fd && ReportedUp()
      ensures r.Failed? ==> Core() && fd == NoFd && (r.errno == EAGAIN || HardError(r.errno))
      ensures r.Failed? ==> tconnect != null && tconnect.kernel == kernel && tconnect.Undecided()
      ensures r.Failed? ==> (r.errno == EAGAIN <==> tconnect.AtWork())
      ensures r.Failed? ==> tconnect.NotDueBefore(old(kernel.clock), |old(kernel.log)|)
      ensures r.Failed? && r.errno != EAGAIN ==> tconnect.GaveUp(r.errno)
      ensures tconnect != null && (old(OnTarget()) ==> OnTarget())
    {
      hide Xpoll.Valid, ActiveFdPool.Valid, QueryOk, TconnectOk, TconnectIds, TconnectFds, QueryFds, LastAnswer;
      hide OtherRegs, OtherBells, RegsOpen, OnTarget, Tconnect.GaveUp, Tconnect.AtWork, Tconnect.NotDueBefore;
      assert this !in TconnectParts();
      TconnectWithin();
      r := AskTconnect();
      TconnectWithin();
      ghost var regs, bells := OtherRegs(), OtherBells();
      if r.Got? {
        TakeFd(r.fd);
      }
      assert OtherRegs() == regs && OtherBells() == bells;
      assert OwnFds() == old(OwnFds());
    }

    /** The socket that was handed over becomes the connection's. */
    method TakeFd(newFd: Fd)
      requires Env() && QueryOk() && TconnectOk() && tconnect != null && HistoryOk() && fd == NoFd && fdRegId == -1
      requires QueryFds() !! TconnectFds() && newFd !in QueryFds() && newFd !in TconnectFds() && QueryIds() == {}
      requires newFd.Desc? && newFd in kernel.open && Unregistered(xpoll.regs, newFd)
      modifies `fd, `since
      ensures JustHanded() && fd == newFd
      ensures OtherRegs() == old(OtherRegs()) && OtherBells() == old(OtherBells())
    {
      hide Xpoll.Valid, ActiveFdPool.Valid, QueryOk, TconnectOk, TconnectIds, TconnectFds, QueryFds, HistoryOk;
      hide OtherRegs, OtherBells, RegsOpen, Env, QueryIds;
      BlankHistory();
      assert this !in TconnectParts();
      fd := newFd;
      since := |kernel.log|;
      NoHistoryYet();
    }

    /** Registers the socket that was handed over. */
    method Adopt()
      requires JustHanded()
      modifies `fdRegId, xpoll
      ensures Core() && fdRegId >= 0 && SameOthers()
      ensures xpoll.regs[fdRegId] == FdReg(fd, {})
    {
      hide Xpoll.Valid, Tconnect.Valid, ActiveFdPool.Valid, TconnectIds, TconnectFds, TconnectOk;
      TconnectWithin();
      fdRegId := xpoll.FdRegAdd(fd, {});
      TconnectUndisturbedByNew(fdRegId);
      assert OtherRegs() == old(OtherRegs());
    }

    /** tconnect_destroy once the socket is registered. */
    method DropTconnect()
      requires Core() && fd != NoFd
      modifies `tconnect, kernel`open, xpoll, TconnectParts()
      ensures Core() && tconnect == null && SameOthers()
      ensures query == old(query) && Parts() <= old(Parts())
    {
      hide Xpoll.Valid, Tconnect.Valid, ActiveFdPool.Valid, Tconnect.OwnIds, Tconnect.OwnFds, Query.OwnFds;
      ghost var ids, fds := TconnectIds(), TconnectFds();
      DestroyTconnect();
      assert xpoll.regs == old(xpoll.regs) - ids && kernel.open == old(kernel.open) - fds;
      assert OtherRegs() == old(OtherRegs());
      assert OtherFds() == old(OtherFds());
    }

    /** tcp_opts_effectuate on the socket. */
    method ConfigureSocket() returns (errno: int)
      requires Core() && fd != NoFd
      modifies kernel`log
      ensures Core() && SameOthers() && (errno == 0 || HardError(errno))
      ensures kernel.log == old(kernel.log) + [SysConfigure(fd, errno)]
      ensures old(ReportedUp()) ==> ReportedUp()
    {
      hide Xpoll.Valid, ActiveFdPool.Valid, Tconnect.Valid, TconnectIds, TconnectFds, TakenFrom, GivenTo, LastAnswer;
      TconnectWithin();
      errno := kernel.Configure(fd);
      LoggedOne(old(kernel.log), SysConfigure(fd, errno), since, fd);
      LoggedOne(old(kernel.log), SysConfigure(fd, errno), 0, fd);
      assert xpoll.regs == old(xpoll.regs) - {};
      TconnectUndisturbed({});
    }

    /** The success branch of try_finish_connect, up to the destruction of the tconnect. */
    method Promote()
      requires JustHanded() && state == ConnectingTcp && ReportedUp()
      modifies `state, `fdRegId, `badnessReason, xpoll, kernel`log
      ensures Core() && SameOthers() && fd != NoFd && ReportedUp()
      ensures state == Ready || (state == Unusable && HardError(badnessReason) && Misconfigured())
    {
      hide Xpoll.Valid, ActiveFdPool.Valid, Core, OtherRegs, OtherBells, OtherFds, RegsOpen, TconnectOk, QueryOk;
      Adopt();
      assert this !in TconnectParts();
      ghost var regs, bells, fds := OtherRegs(), OtherBells(), OtherFds();
      var changed := *;
      var errno := 0;
      if changed {
        errno := ConfigureSocket();
      }
      if errno != 0 {
        state := Unusable;
        badnessReason := errno;
      } else {
        state := Ready;
      }
      assert OtherRegs() == regs && OtherBells() == bells && OtherFds() == fds;
    }

    /** The last system call was one to set up the socket, and failed for the reason at hand. */
    ghost predicate Misconfigured()
      reads `fd, `badnessReason, kernel`log
    {
      kernel.log != [] && kernel.log[|kernel.log| - 1] == SysConfigure(fd, badnessReason)
    }

    /** The success branch of try_finish_connect. */
    method Succeed()
      requires JustHanded() && state == ConnectingTcp && ReportedUp() && QueryIds() == {}
      modifies `state, `fdRegId, `badnessReason, `tconnect, kernel`open, kernel`log, xpoll, TconnectParts()
      ensures Core() && StateOk() && state in {Ready, Unusable} && query == old(query) && QueryIds() == {}
      ensures Contained() && Parts() <= old(Parts()) && Warranted()
    {
      hide Xpoll.Valid, ActiveFdPool.Valid, Core, OtherRegs, OtherBells, OtherFds, RegsOpen, TconnectOk, QueryOk;
      hide JustHanded, Tconnect.GaveUp, LastAnswer;
      Promote();
      DropTconnect();
    }

    /** try_finish_connect */
    method TryFinishConnect()
      requires Core() && StateOk() && state == ConnectingTcp && QueryIds() == {} && OnTarget()
      modifies `state, `fd, `since, `fdRegId, `badnessReason, `tconnect, kernel, xpoll, TconnectParts()
      ensures Core() && StateOk() && state in {ConnectingTcp, Ready, Unusable} && query == old(query)
      ensures QueryIds() == {}
      ensures Contained() && Parts() <= old(Parts())
      ensures Waiting() && Prompt(old(kernel.clock), |old(kernel.log)|)
      ensures OnTarget() && Warranted()
    {
      hide Xpoll.Valid, ActiveFdPool.Valid, Core, OtherRegs, OtherBells, OtherFds, RegsOpen, TconnectOk, QueryOk;
      hide JustHanded, Warranted, Tconnect.GaveUp, Tconnect.AtWork, Tconnect.NotDueBefore, UnderWay, Spares, ReportedUp;
      ghost var clock := kernel.clock;
      var r := PollConnect();
      ghost var log := kernel.log;
      if r.Got? {
        Succeed();
        NothingWaits();
        SparesTwice(old(kernel.log), log, kernel.log, OtherFds());
      } else if r.errno != EAGAIN {
        MarkUnusable(r.errno);
        AllExhausted();
        SparesTwice(old(kernel.log), log, kernel.log, OtherFds());
      } else {
        StillWaiting(clock, |old(kernel.log)|);
      }
    }

    lemma AllExhausted()
      requires state == Unusable && tconnect != null && tconnect.GaveUp(badnessReason)
      ensures OnTarget() && Warranted() && Waiting() && forall clock, calls :: Prompt(clock, calls)
    {
    }

    lemma StillWaiting(clock: nat, calls: nat)
      requires state == ConnectingTcp && tconnect != null && tconnect.kernel == kernel
      requires tconnect.AtWork() && tconnect.NotDueBefore(clock, calls)
      ensures Warranted() && Waiting() && Prompt(clock, calls)
    {
    }

    /** The tconnect_connect call of begin_connect. */
    method StartTconnect(ips: seq<Family>) returns (errno: int)
      requires Core() && state == ConnectingTcp && fd == NoFd && QueryIds() == {} && ips != []
      requires tconnect != null && tconnect.tracks == [] && tconnect.fd4 != NoFd && tconnect.fd6 != NoFd
      modifies kernel`clock, kernel`log, xpoll, TconnectParts()
      ensures tconnect != null && tconnect.Undecided() && QueryIds() == {} && Core() && SameOthers()
      ensures fresh(Parts() - old(Parts()))
      ensures errno == 0 || HardError(errno)
      ensures if errno == 0 then UnderWay(ips) && tconnect.Planned(ips) else tconnect.tracks == []
    {
      hide Xpoll.Valid, Tconnect.Valid, ActiveFdPool.Valid, Tconnect.OwnIds, QueryOk;
      hide Tconnect.Others, OtherRegs, OtherBells, RegsOpen, Tconnect.Planned, Tconnect.Layout;
      tconnect.WhatIsOwned();
      errno := tconnect.Connect(ips, scopeSet, connectTimeout, localAddr);
      TconnectWorked();
      tconnect.WhatIsOwned();
      assert OwnFds() == old(OwnFds());
    }

    /** Sets the state to bad, for a reason. */
    method MarkUnusable(errno: int)
      requires Core() && HardError(errno) && Rank(state) < 4
      modifies `state, `badnessReason
      ensures Core() && state == Unusable && badnessReason == errno && Contained()
    {
      hide Xpoll.Valid, ActiveFdPool.Valid, Core, OtherRegs, OtherBells, OtherFds;
      assert this !in TconnectParts();
      state := Unusable;
      badnessReason := errno;
    }

    /** The part of begin_connect up to the tconnect_connect call. */
    method Initiate(ips: seq<Family>) returns (errno: int)
      requires Core() && state == ConnectingTcp && fd == NoFd && QueryIds() == {} && ips != []
      requires tconnect != null && tconnect.tracks == [] && tconnect.fd4 != NoFd && tconnect.fd6 != NoFd
      modifies kernel`clock, kernel`log, xpoll, TconnectParts()
      ensures tconnect != null && tconnect.Undecided() && QueryIds() == {} && Core() && SameOthers()
      ensures fresh(Parts() - old(Parts()))
      ensures errno == 0 || HardError(errno)
      ensures if errno == 0 then UnderWay(ips) && tconnect.Planned(ips) else tconnect.tracks == []
    {
      hide Xpoll.Valid, ActiveFdPool.Valid, Core, OtherRegs, OtherBells, OtherFds, RegsOpen, TconnectOk, QueryOk;
      errno := 0;
      if localAddr {
        errno := ResolveLocal();
      }
      if errno == 0 {
        errno := StartTconnect(ips);
      }
    }

    lemma PromptEarlier(clock: nat, calls: nat, since: nat, from: nat)
      requires Prompt(clock, calls) && since <= clock && from <= calls
      ensures Prompt(since, from)
    {
      hide Tconnect.NotDueBefore;
      if state == ConnectingTcp {
        tconnect.NotDueEarlier(clock, calls, since, from);
      }
    }

    lemma PartsAreOthers()
      ensures this !in Parts() && this !in TconnectParts()
    {
    }

    lemma NothingStarted()
      requires state == Unusable && tconnect != null && tconnect.tracks == []
      ensures OnTarget() && Warranted()
    {
    }

    lemma IsOnTarget()
      requires state == ConnectingTcp && UnderWay(targets) && tconnect != null && tconnect.algorithm == dnsAlgorithm
      ensures OnTarget()
    {
    }

    lemma NothingWaits()
      requires state !in {Resolving, ConnectingTcp}
      ensures Waiting() && forall clock, calls :: Prompt(clock, calls)
    {
    }

    /** begin_connect */
    method BeginConnect(ips: seq<Family>)
      requires Core() && state == ConnectingTcp && fd == NoFd && QueryIds() == {} && ips != []
      requires tconnect != null && tconnect.tracks == [] && tconnect.fd4 != NoFd && tconnect.fd6 != NoFd
      requires tconnect.algorithm == dnsAlgorithm
      modifies `targets, `state, `fd, `since, `fdRegId, `badnessReason, `tconnect, kernel, xpoll, TconnectParts()
      ensures Core() && StateOk() && state in {ConnectingTcp, Ready, Unusable} && query == old(query)
      ensures QueryIds() == {}
      ensures Contained() && fresh(Parts() - old(Parts()))
      ensures Waiting() && Prompt(old(kernel.clock), |old(kernel.log)|)
      ensures OnTarget() && Warranted() && targets == ips
    {
      hide Xpoll.Valid, ActiveFdPool.Valid, Core, OtherRegs, OtherBells, OtherFds, RegsOpen, TconnectOk, QueryOk;
      hide JustHanded, Waiting, Prompt, OnTarget, Warranted, UnderWay, Tconnect.Planned, Spares;
      PartsAreOthers();
      targets := ips;
      var errno := Initiate(ips);
      ghost var clock, log := kernel.clock, kernel.log;
      Proceed(errno);
      SparesGrows(old(kernel.log), log, OtherFds());
      PromptEarlier(clock, |log|, old(kernel.clock), |old(kernel.log)|);
      SparesTwice(old(kernel.log), log, kernel.log, OtherFds());
    }

    /** begin_connect once tconnect_connect has been called, or something before it has failed. */
    method Proceed(errno: int)
      requires Core() && state == ConnectingTcp && fd == NoFd && QueryIds() == {} && (errno == 0 || HardError(errno))
      requires tconnect != null && tconnect.Undecided() && tconnect.algorithm == dnsAlgorithm
      requires if errno == 0 then UnderWay(targets) else tconnect.tracks == []
      modifies `state, `fd, `since, `fdRegId, `badnessReason, `tconnect, kernel, xpoll, TconnectParts()
      ensures Core() && StateOk() && state in {ConnectingTcp, Ready, Unusable} && query == old(query)
      ensures QueryIds() == {} && Contained() && Parts() <= old(Parts())
      ensures Waiting() && Prompt(old(kernel.clock), |old(kernel.log)|) && OnTarget() && Warranted()
    {
      hide Xpoll.Valid, ActiveFdPool.Valid, Core, OtherRegs, OtherBells, OtherFds, RegsOpen, TconnectOk, QueryOk;
      hide JustHanded, Waiting, Prompt, OnTarget, Warranted, UnderWay, Tconnect.Planned;
      if errno != 0 {
        MarkUnusable(errno);
        NothingWaits();
        NothingStarted();
      } else {
        IsOnTarget();
        TryFinishConnect();
      }
    }

    /** Parsing and resolving the local address, which may fail. */
    method ResolveLocal() returns (errno: int)
      ensures errno == 0 || HardError(errno)
    {
      errno := *;
      if errno == EAGAIN {
        errno := ENOENT;
      }
    }

    /** xcm_dns_query_process and xcm_dns_query_result. */
    method FetchResult() returns (r: QueryResult)
      requires Valid() && state == Resolving
      modifies xpoll, query
      ensures Core() && SameOthers()
      ensures match r
              case Ips(ips) => ips != [] && QueryIds() == {}
              case QueryError(e) => query.pipeRegId >= 0 && (e == EAGAIN || HardError(e))
      ensures r == QueryError(EAGAIN) ==> query.state == Pending
      ensures match query.state
              case Pending => r == QueryError(EAGAIN)
              case NotFound => r == QueryError(ENOENT)
              case Resolved(ips) => r == Ips(ips)
      ensures query.polls == old(query.polls) + 1
    {
      hide Xpoll.Valid, ActiveFdPool.Valid, Tconnect.Valid, Tconnect.OwnIds, Tconnect.OwnFds;
      query.Process();
      ghost var ids := QueryIds();
      r := query.Result();
      if r.Ips? {
        TconnectUndisturbed(ids);
        assert OtherRegs() == old(OtherRegs());
      } else {
        assert xpoll.regs == old(xpoll.regs) - {};
        TconnectUndisturbed({});
      }
    }

    /** xcm_dns_query_destroy in try_finish_resolution. */
    method DropQuery()
      requires Core()
      modifies `query, kernel`open, xpoll
      ensures Core() && SameOthers() && query == null
    {
      hide Xpoll.Valid, ActiveFdPool.Valid, Tconnect.Valid, Tconnect.OwnIds, Tconnect.OwnFds, Query.OwnFds;
      DestroyQuery();
      assert OtherRegs() == old(OtherRegs());
      assert OtherFds() == old(OtherFds());
    }

    /** try_finish_resolution */
    method TryFinishResolution()
      requires Valid() && state == Resolving
      modifies `targets, `state, `fd, `since, `fdRegId, `badnessReason, `tconnect, `query, kernel, xpoll, Parts()
      ensures Valid() && state in {Resolving, ConnectingTcp, Ready, Unusable}
      ensures Contained() && fresh(Parts() - old(Parts()))
      ensures Prompt(old(kernel.clock), |old(kernel.log)|)
      ensures match old(query).state
              case Pending => state == Resolving
              case NotFound => state == Unusable && badnessReason == ENOENT
              case Resolved(ips) => state != Resolving && targets == ips
      ensures Warranted() && old(query).polls == old(query.polls) + 1
    {
      hide Xpoll.Valid, ActiveFdPool.Valid, Core, OtherRegs, OtherBells, OtherFds;
      var r := FetchResult();
      if r != QueryError(EAGAIN) {
        Conclude(r);
      }
    }

    /** try_finish_resolution once there is an answer. */
    method Conclude(r: QueryResult)
      requires Core() && StateOk() && state == Resolving && OnTarget() && r != QueryError(EAGAIN)
      requires match r case Ips(ips) => ips != [] && QueryIds() == {} case QueryError(e) => HardError(e)
      modifies `targets, `state, `fd, `since, `fdRegId, `badnessReason, `tconnect, `query, kernel, xpoll
      modifies TconnectParts()
      ensures Valid() && state in {ConnectingTcp, Ready, Unusable}
      ensures Contained() && fresh(Parts() - old(Parts()))
      ensures Prompt(old(kernel.clock), |old(kernel.log)|)
      ensures Warranted()
      ensures match r case Ips(ips) => targets == ips case QueryError(e) => state == Unusable && badnessReason == e
    {
      hide Xpoll.Valid, ActiveFdPool.Valid, Core, OtherRegs, OtherBells, OtherFds, Tconnect.AtWork;
      hide Tconnect.NotDueBefore, OnTarget, Warranted, Spares;
      ActOn(r);
      ghost var log := kernel.log;
      DropQuery();
      SparesTwice(old(kernel.log), log, kernel.log, OtherFds());
    }

    /** What try_finish_resolution does with the answer, before it lets go of the query. */
    method ActOn(r: QueryResult)
      requires Core() && StateOk() && state == Resolving && OnTarget() && r != QueryError(EAGAIN)
      requires match r case Ips(ips) => ips != [] && QueryIds() == {} case QueryError(e) => HardError(e)
      modifies `targets, `state, `fd, `since, `fdRegId, `badnessReason, `tconnect, kernel, xpoll, TconnectParts()
      ensures Core() && StateOk() && state in {ConnectingTcp, Ready, Unusable} && query == old(query)
      ensures Contained() && fresh(Parts() - old(Parts()))
      ensures Waiting() && Prompt(old(kernel.clock), |old(kernel.log)|)
      ensures OnTarget() && Warranted()
      ensures match r case Ips(ips) => targets == ips case QueryError(e) => state == Unusable && badnessReason == e
    {
      hide Xpoll.Valid, ActiveFdPool.Valid, Core, OtherRegs, OtherBells, OtherFds, Waiting, Prompt;
      if r.QueryError? {
        MarkUnusable(r.errno);
        NothingWaits();
      } else {
        LeaveResolving(r.ips);
      }
    }

    /** The success branch of try_finish_resolution. */
    method LeaveResolving(ips: seq<Family>)
      requires Core() && StateOk() && state == Resolving && OnTarget() && QueryIds() == {} && ips != []
      modifies `targets, `state, `fd, `since, `fdRegId, `badnessReason, `tconnect, kernel, xpoll, TconnectParts()
      ensures Core() && StateOk() && state in {ConnectingTcp, Ready, Unusable} && query == old(query)
      ensures Contained() && fresh(Parts() - old(Parts()))
      ensures Waiting() && Prompt(old(kernel.clock), |old(kernel.log)|)
      ensures OnTarget() && Warranted() && targets == ips
    {
      hide Xpoll.Valid, ActiveFdPool.Valid, Core, OtherRegs, OtherBells, OtherFds, Waiting, Prompt;
      assert this !in TconnectParts();
      state := ConnectingTcp;
      BeginConnect(ips);
    }

    /** try_establish */
    method TryEstablish()
      requires Valid()
      modifies `targets, `state, `fd, `since, `fdRegId, `badnessReason, `tconnect, `query, kernel, xpoll, Parts()
      ensures Valid() && Contained() && fresh(Parts() - old(Parts()))
      ensures Prompt(old(kernel.clock), |old(kernel.log)|)
      ensures old(state) !in {Resolving, ConnectingTcp} ==> state == old(state)
      ensures old(state) in {Resolving, ConnectingTcp} ==> state in {Resolving, ConnectingTcp, Ready, Unusable}
      ensures old(state) in {Resolving, ConnectingTcp} ==> Warranted()
      ensures old(state) != Resolving ==> targets == old(targets)
    {
      hide Xpoll.Valid, ActiveFdPool.Valid, Core, OtherRegs, OtherBells, OtherFds;
      match state {
        case Resolving =>
          TryFinishResolution();
        case ConnectingTcp =>
          TryFinishConnect();
        case Initialized =>
        case Ready =>
        case ClosedByPeer =>
        case Unusable =>
      }
    }

    /** btcp_close: nothing of the socket is left in the poll set or in the descriptor table. */
    method Close()
      requires Valid()
      modifies this, kernel`open, xpoll, xpoll.pool, Parts()
      ensures xpoll.Valid() && xpoll.pool.Valid() && RegsOpen(xpoll.regs, kernel.open)
      ensures xpoll.regs == old(OtherRegs()) && xpoll.bells == old(OtherBells()) && kernel.open == old(OtherFds())
      ensures old(tconnect) != null ==> old(tconnect).timers.live == map[]
      ensures OthersKept(old(xpoll.pool.holders), xpoll.pool.holders, xpoll.me)
    {
      AssertionsHold();
      Deinit();
    }

    /** The tconnect_create call of btcp_connect. */
    method CreateTconnect()
      requires Core() && state == Initialized && fd == NoFd && tconnect == null && query == null
      modifies `tconnect, kernel`open, xpoll
      ensures Core() && SameOthers() && query == null && fresh(Parts())
      ensures tconnect != null ==> tconnect.tracks == [] && tconnect.fd4 != NoFd && tconnect.fd6 != NoFd
      ensures tconnect != null ==> tconnect.algorithm == dnsAlgorithm
    {
      hide Xpoll.Valid, ActiveFdPool.Valid, Tconnect.Valid, Tconnect.OwnIds;
      assert OwnIds() == {} && OwnFds() == {};
      assert OtherRegs() == xpoll.regs;
      tconnect := Tconnect.Create(dnsAlgorithm, kernel, xpoll);
      if tconnect != null {
        tconnect.WhatIsOwned();
        assert OwnFds() == tconnect.OwnFds() && OwnIds() == tconnect.OwnIds();
      }
      assert OtherRegs() == old(xpoll.regs);
      assert OtherFds() == old(kernel.open);
    }

    /** The xcm_dns_resolve call of btcp_connect. */
    method StartQuery()
      requires Core() && fd == NoFd && tconnect != null && query == null
      modifies `query, kernel`open, xpoll
      ensures Core() && SameOthers() && (query != null ==> fresh(query) && query.pipeRegId >= 0)
    {
      hide Xpoll.Valid, ActiveFdPool.Valid, Tconnect.Valid, TconnectIds, TconnectFds, TconnectOk;
      TconnectWithin();
      query := Query.Resolve(kernel, xpoll);
      if query != null {
        TconnectUndisturbedByNew(query.pipeRegId);
      } else {
        assert xpoll.regs == old(xpoll.regs) - {};
        TconnectUndisturbed({});
      }
      assert OtherRegs() == old(OtherRegs());
      assert OtherFds() == old(OtherFds());
    }

    /** conf_dns_algorithm and conf_tcp_connect_timeout: what was set, or else the default. */
    ghost predicate Configured(algorithm: Algorithm, timeout: real)
      reads `dnsAlgorithm, `connectTimeout
    {
      && dnsAlgorithm == (if algorithm == NoAlgorithm then Single else algorithm)
      && connectTimeout == (if timeout < 0.0 then 3.0 else timeout)
    }

    /** The part of btcp_connect in which the state leaves `Initialized`. On failure (errno not 0)
        the socket still owns whatever it had obtained. */
    method Launch(remote: Remote) returns (errno: int)
      requires Valid() && state == Initialized
      modifies `state, `fd, `since, `fdRegId, `badnessReason, `tconnect, `query, `targets,
               `dnsAlgorithm, `connectTimeout, kernel, xpoll
      ensures Core() && SameOthers() && fresh(Parts())
      ensures errno == 0 ==> Valid() && state in {Resolving, ConnectingTcp, Ready, Unusable}
      ensures errno == 0 || HardError(errno)
      ensures errno == 0 ==> Configured(old(dnsAlgorithm), old(connectTimeout))
      ensures errno == 0 && remote.Address? ==> targets == [remote.family] && state != Resolving
      ensures errno == 0 && remote == Name ==> state == Resolving
      ensures remote == Malformed ==> errno == EINVAL
    {
      hide Xpoll.Valid, ActiveFdPool.Valid, Core, OtherRegs, OtherBells, OtherFds, Waiting, OnTarget;
      if remote == Malformed {
        return EINVAL;
      }
      assert TconnectParts() == {};
      if dnsAlgorithm == NoAlgorithm {
        dnsAlgorithm := Single;
      }
      if connectTimeout < 0.0 {
        connectTimeout := DEFAULT_CONNECT_TIMEOUT;
      }
      CreateTconnect();
      if tconnect == null {
        errno := ErrnoOf();
        return;
      }
      errno := Depart(remote);
    }

    /** Some errno of a call that failed for good. */
    method ErrnoOf() returns (errno: int)
      ensures HardError(errno)
    {
      errno :| HardError(errno) by {
        assert HardError(ENOENT);
      }
    }

    /** btcp_connect once there is a tconnect. */
    method Depart(remote: Remote) returns (errno: int)
      requires Core() && state == Initialized && fd == NoFd && query == null && remote != Malformed
      requires tconnect != null && tconnect.tracks == [] && tconnect.fd4 != NoFd && tconnect.fd6 != NoFd
      requires tconnect.algorithm == dnsAlgorithm
      modifies `targets, `state, `fd, `since, `fdRegId, `badnessReason, `tconnect, `query, kernel, xpoll, Parts()
      ensures Core() && SameOthers() && fresh(Parts() - old(Parts()))
      ensures errno == 0 ==> Valid() && state in {Resolving, ConnectingTcp, Ready, Unusable}
      ensures errno == 0 || HardError(errno)
      ensures remote.Address? ==> targets == [remote.family] && state != Resolving
      ensures remote == Name && errno == 0 ==> state == Resolving
    {
      hide Xpoll.Valid, ActiveFdPool.Valid, Core, OtherRegs, OtherBells, OtherFds;
      assert this !in TconnectParts();
      if remote == Name {
        state := Resolving;
        StartQuery();
        if query == null {
          errno := ErrnoOf();
          return;
        }
      } else {
        state := ConnectingTcp;
        BeginConnect([remote.family]);
      }
      errno := 0;
    }

    /** btcp_connect up to its error handling. */
    method Establish(remote: Remote) returns (errno: int)
      requires Valid() && state == Initialized
      modifies `state, `fd, `since, `fdRegId, `badnessReason, `tconnect, `query, `targets,
               `dnsAlgorithm, `connectTimeout, kernel, xpoll
      ensures Core() && SameOthers() && fresh(Parts())
      ensures if errno == 0 then Valid() && Usable(PhaseOf()) && state != Initialized else HardError(errno)
      ensures errno == 0 ==> Configured(old(dnsAlgorithm), old(connectTimeout))
      ensures errno == 0 && remote.Address? ==> targets == [remote.family]
      ensures remote == Malformed ==> errno == EINVAL
    {
      hide Xpoll.Valid, ActiveFdPool.Valid, Core, OtherRegs, OtherBells, OtherFds, OnTarget, Warranted, Waiting, Prompt;
      hide Spares;
      errno := Launch(remote);
      ghost var log := kernel.log;
      if errno == 0 {
        TryEstablish();
        SparesTwice(old(kernel.log), log, kernel.log, OtherFds());
        if state == Unusable {
          errno := badnessReason;
        }
      }
    }

    /** btcp_connect: after a failed call nothing of the socket is left anywhere. */
    method Connect(remote: Remote) returns (errno: int)
      requires Valid() && state == Initialized
      modifies this, kernel, xpoll, xpoll.pool
      ensures OthersKept(old(xpoll.pool.holders), xpoll.pool.holders, xpoll.me)
      ensures errno == 0 ==> Valid() && Usable(PhaseOf()) && state != Initialized && SameOthers() && fresh(Parts())
      ensures errno == 0 ==> Configured(old(dnsAlgorithm), old(connectTimeout))
      ensures errno == 0 ==> written == old(written) && read == old(read)
      ensures errno != 0 ==>
                && HardError(errno) && Spares(old(kernel.log), kernel.log, kernel.open)
                && xpoll.Valid() && xpoll.pool.Valid() && RegsOpen(xpoll.regs, kernel.open)
                && xpoll.regs == old(OtherRegs()) && xpoll.bells == old(OtherBells()) && kernel.open == old(OtherFds())
      ensures errno == 0 && remote.Address? ==> targets == [remote.family]
      ensures remote == Malformed ==> errno == EINVAL
    {
      hide Xpoll.Valid, ActiveFdPool.Valid, Core, OtherRegs, OtherBells, OtherFds, OnTarget, Waiting, Spares;
      hide StateOk, RegsOpen;
      errno := Establish(remote);
      if errno != 0 {
        Deinit();
      }
    }

    /** The socket that accept(2) has given out becomes the connection's, and is registered. */
    method TakeAndRegister(connFd: Fd)
      requires Core() && fd == NoFd && tconnect == null && query == null
      requires connFd.Desc? && connFd in kernel.open && Unregistered(xpoll.regs, connFd)
      modifies `fd, `fdRegId, `since, xpoll
      ensures Core() && fd == connFd
      ensures OtherRegs() == old(OtherRegs()) && OtherBells() == old(OtherBells())
    {
      hide Xpoll.Valid, ActiveFdPool.Valid, HistoryOk;
      BlankHistory();
      assert OwnIds() == {};
      fd := connFd;
      since := |kernel.log|;
      NoHistoryYet();
      fdRegId := xpoll.FdRegAdd(connFd, {});
      assert OwnIds() == {fdRegId};
      assert OtherRegs() == old(OtherRegs());
    }

    /** The part of btcp_accept after accept(2) has given out `connFd`. */
    method TakeAccepted(connFd: Fd)
      requires Core() && state == Initialized && fd == NoFd && tconnect == null && query == null
      requires connFd.Desc? && connFd in kernel.open && Unregistered(xpoll.regs, connFd)
      modifies `state, `fd, `fdRegId, `since, xpoll
      ensures Valid() && state == Ready && fd == connFd && query == null && Parts() == {}
      ensures OtherRegs() == old(OtherRegs()) && OtherBells() == old(OtherBells())
    {
      hide Xpoll.Valid, ActiveFdPool.Valid, Core, OtherRegs, OtherBells;
      TakeAndRegister(connFd);
      assert TconnectParts() == {};
      state := Ready;
    }

    /** btcp_accept, on the connection socket's side; `serverFd` is the listening socket. */
    method Accept(serverFd: Fd) returns (errno: int)
      requires Valid() && state == Initialized && serverFd in kernel.open
      modifies this, kernel`open, kernel`log, xpoll, xpoll.pool
      ensures OthersKept(old(xpoll.pool.holders), xpoll.pool.holders, xpoll.me)
      ensures errno == 0 ==> Valid() && state == Ready && SameOthers() && Parts() == {}
      ensures errno == 0 ==> written == old(written) && read == old(read)
      ensures errno != 0 ==>
                && xpoll.Valid() && xpoll.pool.Valid() && RegsOpen(xpoll.regs, kernel.open)
                && xpoll.regs == old(OtherRegs()) && xpoll.bells == old(OtherBells()) && kernel.open == old(OtherFds())
      ensures if old(localAddr || dnsAlgorithm != NoAlgorithm || connectTimeout >= 0.0) then errno == EACCES
              else AcceptAnswered(old(kernel.log), kernel.log, serverFd, errno)
      ensures errno == 0 ==> |kernel.log| > 0 && kernel.log[|kernel.log| - 1] == SysConfigure(fd, 0)
    {
      hide Xpoll.Valid, ActiveFdPool.Valid, TakenFrom, GivenTo;
      if localAddr || dnsAlgorithm != NoAlgorithm || connectTimeout >= 0.0 {
        Deinit();
        return EACCES;
      }
      assert OwnFds() == {};
      var connFd := kernel.Accept(serverFd);
      if connFd == NoFd {
        Deinit();
        errno := *;
        if errno == 0 {
          errno := EAGAIN;
        }
        return;
      }
      errno := kernel.Configure(connFd);
      if errno != 0 {
        kernel.Close(connFd);
        assert kernel.open == old(kernel.open);
        Deinit();
        return;
      }
      TakeAccepted(connFd);
      assert OwnFds() == {connFd};
    }

    /** Moves an established connection to the state that the answer of the kernel calls for. */
    method Settle(next: ConnState, reason: int)
      requires Valid() && state == Ready && next in {Ready, ClosedByPeer, Unusable}
      requires next == Unusable ==> HardError(reason)
      modifies `state, `badnessReason
      ensures Valid() && state == next && (next == Unusable ==> badnessReason == reason) && Contained()
    {
      hide Xpoll.Valid, ActiveFdPool.Valid, Core, OtherRegs, OtherBells, OtherFds;
      assert TconnectParts() == {};
      state := next;
      if next == Unusable {
        badnessReason := reason;
      }
    }

    /** The send(2) call of btcp_send. */
    method TransferOut(buf: seq<Byte>) returns (n: nat, errno: int)
      requires Valid() && state == Ready
      modifies `written, kernel`log
      ensures Valid() && SameOthers() && Parts() == old(Parts()) && state == Ready
      ensures n <= |buf| && (errno == 0 && buf != [] ==> n > 0)
      ensures kernel.log == old(kernel.log) + [SysSend(fd, buf, n, errno)]
      ensures written == old(written) + if errno == 0 then buf[..n] else []
    {
      hide Xpoll.Valid, ActiveFdPool.Valid, TakenFrom, GivenTo;
      n, errno := kernel.Send(fd, buf);
      LoggedOne(old(kernel.log), SysSend(fd, buf, n, errno), since, fd);
      written := written + if errno == 0 then buf[..n] else [];
    }

    /** What btcp_send makes of the answer. */
    method SendReady(buf: seq<Byte>) returns (r: IoResult)
      requires Valid() && state == Ready
      modifies `state, `badnessReason, `written, kernel`log
      ensures Valid() && Contained() && Parts() == old(Parts()) && state != Initialized
      ensures SendRel(Up, |buf|, PhaseOf(), r)
      ensures written == old(written) + if r.Done? then buf[..r.n] else []
      ensures SendAnswered(old(kernel.log), kernel.log, fd, buf, r, PhaseOf())
    {
      hide Xpoll.Valid, ActiveFdPool.Valid, Core, OtherRegs, OtherBells, OtherFds;
      assert TconnectParts() == {};
      var n, errno := TransferOut(buf);
      assert TconnectParts() == {};
      if errno == 0 {
        r := Done(n);
      } else {
        if errno == EPIPE {
          Settle(ClosedByPeer, 0);
        } else if errno != EAGAIN {
          Settle(Unusable, errno);
        }
        r := Fail(errno);
      }
      assert kernel.log == old(kernel.log) + [SysSend(fd, buf, n, errno)];
    }

    /** btcp_send; `before` is the log when the state had been brought up to date. */
    method Send(buf: seq<Byte>) returns (r: IoResult, ghost before: seq<SysCall>)
      requires Valid() && state != Initialized
      modifies `state, `fd, `since, `fdRegId, `badnessReason, `tconnect, `query, `targets, `written, kernel, xpoll
      modifies Parts()
      ensures Valid() && Contained() && fresh(Parts() - old(Parts()))
      ensures SendRel(old(PhaseOf()), |buf|, PhaseOf(), r)
      ensures written == old(written) + if r.Done? then buf[..r.n] else []
      ensures old(kernel.log) <= before && SendAnswered(before, kernel.log, fd, buf, r, PhaseOf())
    {
      hide Xpoll.Valid, ActiveFdPool.Valid, Core, OtherRegs, OtherBells, OtherFds, Waiting, Prompt;
      hide OnTarget, Warranted, Spares;
      TryEstablish();
      before := kernel.log;
      SparesNothing(before, OtherFds());
      SparesGrows(old(kernel.log), before, OtherFds());
      match state {
        case Unusable =>
          r := Fail(badnessReason);
        case ClosedByPeer =>
          r := Fail(EPIPE);
        case Resolving =>
          r := Fail(EAGAIN);
        case ConnectingTcp =>
          r := Fail(EAGAIN);
        case Ready =>
          r := SendReady(buf);
        case Initialized =>
          assert false;
      }
      SparesTwice(old(kernel.log), before, kernel.log, OtherFds());
    }

    lemma FdOfReady()
      requires Valid() && state == Ready
      ensures fd in kernel.open && fdRegId in xpoll.regs && xpoll.regs[fdRegId].fd == fd
    {
    }

    /** The recv(2) call of btcp_receive. */
    method TransferIn(capacity: nat) returns (bytes: seq<Byte>, errno: int)
      requires Valid() && state == Ready
      modifies `read, kernel`log
      ensures Valid() && SameOthers() && Parts() == old(Parts()) && state == Ready
      ensures |bytes| <= capacity && (errno != 0 ==> bytes == [])
      ensures kernel.log == old(kernel.log) + [SysRecv(fd, capacity, bytes, errno)]
      ensures read == old(read) + bytes
    {
      hide Xpoll.Valid, ActiveFdPool.Valid, TakenFrom, GivenTo;
      bytes, errno := kernel.Receive(fd, capacity);
      LoggedOne(old(kernel.log), SysRecv(fd, capacity, bytes, errno), since, fd);
      read := read + bytes;
    }

    /** What btcp_receive makes of the answer. */
    method ReceiveReady(capacity: nat) returns (r: IoResult, bytes: seq<Byte>)
      requires Valid() && state == Ready
      modifies `state, `badnessReason, `read, kernel`log
      ensures Valid() && Contained() && Parts() == old(Parts()) && state != Initialized
      ensures |bytes| == (if r.Done? then r.n else 0) && read == old(read) + bytes
      ensures ReceiveRel(Up, capacity, PhaseOf(), r)
      ensures ReceiveAnswered(old(kernel.log), kernel.log, fd, capacity, r, bytes, PhaseOf())
    {
      hide Xpoll.Valid, ActiveFdPool.Valid, Core, OtherRegs, OtherBells, OtherFds;
      assert TconnectParts() == {};
      var errno;
      bytes, errno := TransferIn(capacity);
      assert TconnectParts() == {};
      if errno != 0 {
        if errno != EAGAIN {
          Settle(Unusable, errno);
        }
        r := Fail(errno);
      } else {
        if bytes == [] {
          Settle(ClosedByPeer, 0);
        }
        r := Done(|bytes|);
      }
      assert kernel.log == old(kernel.log) + [SysRecv(fd, capacity, bytes, errno)];
    }

    /** btcp_receive; `before` is the log when the state had been brought up to date. */
    method Receive(capacity: nat) returns (r: IoResult, bytes: seq<Byte>, ghost before: seq<SysCall>)
      requires Valid() && state != Initialized
      modifies `state, `fd, `since, `fdRegId, `badnessReason, `tconnect, `query, `targets, `read, kernel, xpoll, Parts()
      ensures Valid() && Contained() && fresh(Parts() - old(Parts()))
      ensures |bytes| == (if r.Done? then r.n else 0) && read == old(read) + bytes
      ensures ReceiveRel(old(PhaseOf()), capacity, PhaseOf(), r)
      ensures old(kernel.log) <= before && ReceiveAnswered(before, kernel.log, fd, capacity, r, bytes, PhaseOf())
    {
      hide Xpoll.Valid, ActiveFdPool.Valid, Core, OtherRegs, OtherBells, OtherFds, Waiting, Prompt;
      hide OnTarget, Warranted, Spares;
      TryEstablish();
      before := kernel.log;
      SparesNothing(before, OtherFds());
      SparesGrows(old(kernel.log), before, OtherFds());
      bytes := [];
      match state {
        case Unusable =>
          r := Fail(badnessReason);
        case ClosedByPeer =>
          r := Done(0);
        case Resolving =>
          r := Fail(EAGAIN);
        case ConnectingTcp =>
          r := Fail(EAGAIN);
        case Ready =>
          r, bytes := ReceiveReady(capacity);
        case Initialized =>
          assert false;
      }
      SparesTwice(old(kernel.log), before, kernel.log, OtherFds());
    }

    /** btcp_finish */
    method Finish() returns (r: IoResult)
      requires Valid() && state != Initialized
      modifies `state, `fd, `since, `fdRegId, `badnessReason, `tconnect, `query, `targets, kernel, xpoll, Parts()
      ensures Valid() && Contained() && fresh(Parts() - old(Parts()))
      ensures Prompt(old(kernel.clock), |old(kernel.log)|)
      ensures FinishRel(old(PhaseOf()), PhaseOf(), r)
    {
      hide Xpoll.Valid, ActiveFdPool.Valid, Core, OtherRegs, OtherBells, OtherFds, Waiting, Prompt;
      TryEstablish();
      match state {
        case Resolving =>
          r := Fail(EAGAIN);
        case ConnectingTcp =>
          r := Fail(EAGAIN);
        case Ready =>
          r := Done(0);
        case Unusable =>
          r := Fail(badnessReason);
        case ClosedByPeer =>
          r := Fail(EPIPE);
        case Initialized =>
          assert false;
      }
    }

    /** The bell of the socket. */
    method Ring(ringing: bool)
      requires Valid()
      modifies xpoll, xpoll.pool
      ensures OthersKept(old(xpoll.pool.holders), xpoll.pool.holders, xpoll.me)
      ensures Valid() && xpoll.regs == old(xpoll.regs) && xpoll.bells == old(xpoll.bells)[bellRegId := ringing]
      ensures OtherRegs() == old(OtherRegs()) && OtherBells() == old(OtherBells())
    {
      hide Xpoll.Valid, ActiveFdPool.Valid, TconnectIds, TconnectFds;
      xpoll.BellRegMod(bellRegId, ringing);
      assert xpoll.regs == old(xpoll.regs) - {};
      TconnectUndisturbed({});
    }

    /** What the poll set watches the established connection for. */
    method Watch(event: Events)
      requires Valid() && state == Ready
      modifies xpoll
      ensures Valid() && xpoll.regs == old(xpoll.regs)[fdRegId := FdReg(fd, event)] && xpoll.bells == old(xpoll.bells)
      ensures OtherRegs() == old(OtherRegs()) && OtherBells() == old(OtherBells())
    {
      hide Xpoll.Valid, ActiveFdPool.Valid;
      xpoll.FdRegMod(fdRegId, event);
    }

    /** The events the poll set watches the socket for. */
    ghost function Interest(): Events
      reads `fdRegId, xpoll
    {
      if fdRegId in xpoll.regs then xpoll.regs[fdRegId].event else {}
    }

    /** conn_update */
    method Update()
      requires Valid() && state != Initialized
      modifies xpoll, xpoll.pool
      ensures OthersKept(old(xpoll.pool.holders), xpoll.pool.holders, xpoll.me)
      ensures Valid() && OtherRegs() == old(OtherRegs()) && OtherBells() == old(OtherBells())
      ensures UpdateRel(PhaseOf(), xpoll.bells[bellRegId])
      ensures DirectRel(PhaseOf(), condition, Interest(), xpoll.bells[bellRegId])
      ensures state == Resolving && query.state != Pending ==> xpoll.bells[bellRegId]
    {
      hide Xpoll.Valid, ActiveFdPool.Valid, Core, OtherRegs, OtherBells;
      var ready := match state
        case Resolving => query.state != Pending
        case ClosedByPeer => true
        case Unusable => true
        case _ => false;
      BellIsThere();
      Ring(ready);
      if !ready && state == Ready {
        Watch(EventsOf(condition));
      }
      BellIsThere();
    }

    lemma BellIsThere()
      requires Core()
      ensures bellRegId in xpoll.bells
    {
    }

    /** What the relations of Update mean to the application: with the update done, a dead
        connection, and an established one that is ready for what is awaited, make the XCM
        descriptor readable. The eventfd behind the bells is always readable. */
    lemma UpdateWakesUp(ready: map<Fd, Events>)
      requires Valid() && state != Initialized
      requires UpdateRel(PhaseOf(), xpoll.bells[bellRegId])
      requires DirectRel(PhaseOf(), condition, Interest(), xpoll.bells[bellRegId])
      requires xpoll.activeFd != NoFd ==> xpoll.activeFd in ready && IN in ready[xpoll.activeFd]
      ensures !Usable(PhaseOf()) ==> XcmFdReadable(xpoll.epoll, ready)
      ensures PhaseOf().Up? && fd in ready && Receivable in condition && IN in ready[fd] ==>
                XcmFdReadable(xpoll.epoll, ready)
      ensures PhaseOf().Up? && fd in ready && Sendable in condition && OUT in ready[fd] ==>
                XcmFdReadable(xpoll.epoll, ready)
    {
      hide Tconnect.Valid, TconnectOk, QueryOk, HistoryOk, OnTarget, XcmFdReadable;
      if !Usable(PhaseOf()) {
        assert xpoll.bells[bellRegId] && SomeRinging(xpoll.bells);
        xpoll.WhatIsPolled(xpoll.activeFd, {IN});
        MakesReadable(xpoll.epoll, ready, xpoll.activeFd, IN);
      } else if PhaseOf().Up? && Interest() != {} {
        assert xpoll.regs[fdRegId] == FdReg(fd, Interest());
        xpoll.WhatIsPolled(fd, Interest());
        if fd in ready && IN in ready[fd] && IN in Interest() {
          MakesReadable(xpoll.epoll, ready, fd, IN);
        }
        if fd in ready && OUT in ready[fd] && OUT in Interest() {
          MakesReadable(xpoll.epoll, ready, fd, OUT);
        }
      }
    }

    /** While connecting, some track has a live timer, and once that has expired, or the socket of a
        track has become writable, the XCM descriptor is readable. */
    lemma ConnectingWakesUp(ready: map<Fd, Events>)
      requires Valid() && state == ConnectingTcp
      requires TimerFdReadable(tconnect.timers.armed, kernel.clock) ==>
                 tconnect.timers.timerFd in ready && IN in ready[tconnect.timers.timerFd]
      ensures exists k :: 0 <= k < |tconnect.tracks| && WokenBy(tconnect.tracks[k], ready)
    {
      hide Core, Tconnect.Valid;
      var k :| 0 <= k < |tconnect.tracks| && tconnect.InProgress(tconnect.tracks[k]);
      TconnectIsValid();
      tconnect.TrackWakesUp(k, ready);
    }

    /** While resolving, the resolver makes the XCM descriptor readable by writing to its pipe. */
    lemma ResolvingWakesUp(ready: map<Fd, Events>)
      requires Valid() && state == Resolving && query.readFd in ready && IN in ready[query.readFd]
      ensures XcmFdReadable(xpoll.epoll, ready)
    {
      hide Tconnect.Valid, TconnectOk;
      xpoll.WhatIsPolled(query.readFd, {IN});
      assert IN in xpoll.epoll[query.readFd] * ready[query.readFd];
    }

    lemma TconnectIsValid()
      requires Core() && tconnect != null
      ensures tconnect.Valid() && tconnect.kernel == kernel && tconnect.xpoll == xpoll
    {
    }

    /** The track is at work, and nothing it waits for goes unnoticed. */
    ghost predicate WokenBy(t: Track, ready: map<Fd, Events>)
      requires tconnect != null
      reads this, kernel, xpoll, tconnect, tconnect.timers, t
    {
      && t.timerId in tconnect.timers.live
      && (Seconds(kernel.clock) > tconnect.timers.live[t.timerId] ==> XcmFdReadable(xpoll.epoll, ready))
      && (t.state == InitialDelay ||
          (t.state == Connecting && 0 <= t.ipIdx < |t.ips| &&
           (t.CurrentFd() in ready && OUT in ready[t.CurrentFd()] ==> XcmFdReadable(xpoll.epoll, ready))))
    }
  }
}
