/** libxcm/tp/common/xcm_tp.c: a socket as the core calls it, with the control interface that shares
    its poll set. */
module TpSocket {
  import opened KernelModel
  import opened ActiveFd
  import opened XpollTable
  import opened Lower
  import opened BtcpTransport
  import opened Control

  const MAX_SKIPPED_CTL_CALLS := 256
  const MAX_WAKEUPS_PER_CTL_CHECK := 4

  /** How a call ended, as far as the control interface is concerned. */
  datatype Outcome = Success | Temporary | Permanent

  function OutcomeOf(r: IoResult): Outcome {
    if r.Done? then Success else if r.errno == EAGAIN then Temporary else Permanent
  }

  /** A receive that finds the end of the stream counts as one that failed for good. */
  function ReceiveOutcome(r: IoResult): Outcome {
    if r == Done(0) then Permanent else OutcomeOf(r)
  }

  /** What a call adds to the count of those in which the control interface was not served. */
  function Weight(o: Outcome): nat {
    match o
    case Success => 1
    case Temporary => MAX_SKIPPED_CTL_CALLS / MAX_WAKEUPS_PER_CTL_CHECK
    case Permanent => 0
  }

  function TotalWeight(os: seq<Outcome>): nat {
    if os == [] then 0 else Weight(os[0]) + TotalWeight(os[1..])
  }

  predicate Serves(skipped: nat, o: Outcome) {
    o != Permanent && skipped + Weight(o) > MAX_SKIPPED_CTL_CALLS
  }

  function NextSkipped(skipped: nat, o: Outcome): nat {
    if Serves(skipped, o) then 0 else skipped + Weight(o)
  }

  /** The control interface is not served in any of these calls. */
  predicate NeverServed(skipped: nat, os: seq<Outcome>)
    decreases |os|
  {
    os != [] ==> !Serves(skipped, os[0]) && NeverServed(NextSkipped(skipped, os[0]), os[1..])
  }

  /** The control interface goes unserved over a series of calls exactly as long as their weights
      stay within the limit: at most 256 successful calls, or four that have to be tried again. */
  lemma {:induction false} ServedInTime(skipped: nat, os: seq<Outcome>)
    requires skipped <= MAX_SKIPPED_CTL_CALLS
    ensures NeverServed(skipped, os) <==> skipped + TotalWeight(os) <= MAX_SKIPPED_CTL_CALLS
    decreases |os|
  {
    if os != [] && !Serves(skipped, os[0]) {
      ServedInTime(NextSkipped(skipped, os[0]), os[1..]);
    }
  }

  /** What is left when two owners are set aside, in either order. */
  lemma Without(regs: map<int, FdReg>, own: set<int>, cs: seq<Client>, serverId: int)
    ensures regs - (own + ClientIds(cs) + {serverId}) == OtherRegs(cs, regs, serverId) - own
    ensures regs - (own + ClientIds(cs) + {serverId}) == regs - own - (ClientIds(cs) + {serverId})
  {
  }

  lemma WithoutFds(open: set<Fd>, own: set<Fd>, cs: seq<Client>, server: Fd)
    ensures open - (own + ClientFds(cs) + {server}) == open - ClientFds(cs) - (own + {server})
    ensures open - (own + ClientFds(cs) + {server}) == open - own - (ClientFds(cs) + {server})
  {
  }

  /** In numbers: 256 successful calls in a row may pass without service, or four that have to be
      tried again, and no more. */
  lemma ScheduleInNumbers(n: nat)
    ensures NeverServed(0, seq(n, _ => Success)) <==> n <= 256
    ensures NeverServed(0, seq(n, _ => Temporary)) <==> n <= 4
    ensures NeverServed(0, seq(n, _ => Permanent))
  {
    ServedInTime(0, seq(n, _ => Success));
    ServedInTime(0, seq(n, _ => Temporary));
    ServedInTime(0, seq(n, _ => Permanent));
    WeightOfMany(n, Success);
    WeightOfMany(n, Temporary);
    WeightOfMany(n, Permanent);
  }

  lemma {:induction false} WeightOfMany(n: nat, o: Outcome)
    ensures TotalWeight(seq(n, _ => o)) == n * Weight(o)
  {
    if n > 0 {
      assert seq(n, _ => o)[1..] == seq(n - 1, _ => o);
      WeightOfMany(n - 1, o);
    }
  }

  class Socket {
    const btcp: Btcp
    const ctl: Ctl
    const autoUpdate: bool
    var skippedCtlCalls: nat

    /** The socket and its control interface are in order and own different things in the same
        poll set. */
    ghost predicate InOrder()
      reads btcp, btcp.kernel, btcp.xpoll, btcp.xpoll.pool, btcp.query, btcp.tconnect, btcp.Parts()
      reads ctl, ctl.clients, ctl.kernel, ctl.xpoll, ctl.xpoll.pool
    {
      btcp.Valid() && ctl.Valid() && Apart()
    }

    ghost predicate Valid()
      reads this, btcp, btcp.kernel, btcp.xpoll, btcp.xpoll.pool, btcp.query, btcp.tconnect, btcp.Parts()
      reads ctl, ctl.clients, ctl.kernel, ctl.xpoll, ctl.xpoll.pool
    {
      InOrder() && skippedCtlCalls <= MAX_SKIPPED_CTL_CALLS
    }

    ghost predicate Apart()
      requires ctl.TableOk()
      reads btcp, btcp.query, btcp.tconnect, btcp.Parts(), ctl, ctl.clients
    {
      && ctl.kernel == btcp.kernel && ctl.xpoll == btcp.xpoll
      && btcp.OwnIds() !! ClientIds(ctl.Live()) + {ctl.serverFdRegId}
      && btcp.OwnFds() !! ClientFds(ctl.Live()) + {ctl.serverFd}
    }

    /** xcm_tp_socket_enable_ctl on a socket that has been connected or accepted, with the listening
        socket of its control interface. */
    constructor (btcp: Btcp, serverFd: Fd, autoUpdate: bool)
      requires btcp.Valid() && serverFd.Desc? && serverFd in btcp.kernel.open && serverFd !in btcp.OwnFds()
      requires Unregistered(btcp.xpoll.regs, serverFd)
      modifies btcp.xpoll
      ensures Valid() && this.btcp == btcp && this.autoUpdate == autoUpdate && fresh(ctl) && fresh(ctl.clients)
      ensures ctl.serverFd == serverFd && ctl.numClients == 0 && skippedCtlCalls == 0
    {
      hide Btcp.Valid, Xpoll.Valid, ActiveFdPool.Valid, Btcp.OwnIds, Btcp.OwnFds, OwnsThese, TableInv, RegsOpen;
      hide Btcp.Parts, Btcp.TconnectParts;
      btcp.WhatIsOwnedAtRest();
      this.btcp, this.autoUpdate := btcp, autoUpdate;
      ctl := new Ctl(btcp.kernel, btcp.xpoll, serverFd);
      skippedCtlCalls := 0;
      new;
      btcp.KeptByNew(ctl.serverFdRegId);
    }

    /** What the control interface does leaves the socket in order. */
    twostate lemma BtcpKept()
      requires old(InOrder()) && ctl.Valid() && ctl.SameOthers() && btcp.Untouched()
      requires old(OwnsThese(btcp.xpoll.regs, btcp.kernel.open, btcp.OwnIds(), btcp.OwnFds()))
      requires unchanged(btcp.xpoll.pool) && btcp.kernel.clock == old(btcp.kernel.clock)
      ensures btcp.Valid() && Apart()
    {
      hide Xpoll.Valid, ActiveFdPool.Valid, OtherRegs, ClientIds, ClientFds, Btcp.OwnIds, Btcp.OwnFds;
      hide Btcp.FdOk, Btcp.QueryOk, Btcp.TconnectOk, Btcp.StateOk, ClientsOk;
      btcp.OwnsTheSame();
      ClientsKeepOthers(old(ctl.Live()), old(btcp.xpoll.regs), old(btcp.kernel.open), ctl.serverFd, ctl.serverFdRegId,
                        ctl.Live(), btcp.xpoll.regs, btcp.kernel.open, btcp.OwnIds(), btcp.OwnFds());
      SparesFewer(old(btcp.kernel.log), btcp.kernel.log,
                  btcp.kernel.open - ClientFds(ctl.Live()) - {ctl.serverFd}, btcp.OwnFds());
      btcp.StaysValid();
    }

    /** What the socket does leaves the control interface in order. */
    twostate lemma CtlKept()
      requires old(InOrder()) && btcp.Valid() && unchanged(ctl) && unchanged(ctl.clients)
      requires btcp.OtherRegs() == old(btcp.OtherRegs()) && btcp.OtherFds() == old(btcp.OtherFds())
      ensures ctl.Valid() && Apart()
    {
      hide Xpoll.Valid, ActiveFdPool.Valid, TableInv, ClientIds, ClientFds;
      btcp.WhatIsOwned();
      OthersKeepTable(ctl.Live(), old(btcp.xpoll.regs), old(btcp.kernel.open), ctl.serverFd, ctl.serverFdRegId,
                      btcp.xpoll.regs, btcp.kernel.open, old(btcp.OwnIds()), btcp.OwnIds(),
                      old(btcp.OwnFds()), btcp.OwnFds());
    }

    /** Everything this socket and its control interface own in the poll set and the kernel. */
    ghost function OwnIds(): set<int>
      requires ctl.TableOk()
      reads btcp, btcp.query, btcp.tconnect, btcp.Parts(), ctl, ctl.clients
    {
      btcp.OwnIds() + ClientIds(ctl.Live()) + {ctl.serverFdRegId}
    }

    ghost function OwnFds(): set<Fd>
      requires ctl.TableOk()
      reads btcp, btcp.query, btcp.tconnect, btcp.Parts(), ctl, ctl.clients
    {
      btcp.OwnFds() + ClientFds(ctl.Live()) + {ctl.serverFd}
    }

    /** Nothing that belongs to others has changed, and nothing has leaked. */
    twostate predicate SameOthers()
      requires old(ctl.TableOk()) && ctl.TableOk()
      reads btcp, btcp.kernel, btcp.xpoll, btcp.query, btcp.tconnect, btcp.Parts(), ctl, ctl.clients
    {
      && btcp.xpoll.regs - OwnIds() == old(btcp.xpoll.regs - OwnIds())
      && btcp.OtherBells() == old(btcp.OtherBells())
      && btcp.kernel.open - OwnFds() == old(btcp.kernel.open - OwnFds())
      && Spares(old(btcp.kernel.log), btcp.kernel.log, btcp.kernel.open - OwnFds())
    }

    /** The control interface has been served: every client there was has been attended to, and the
        server descriptor too, unless there is no room for another client. */
    twostate predicate CtlServed()
      requires old(ctl.TableOk())
      reads btcp.kernel`log, ctl, ctl.clients
    {
      && AttendedBut(old(ClientFds(ctl.Live())), old(btcp.kernel.log), btcp.kernel.log, {})
      && (ctl.numClients == MAX_CLIENTS || Heard(old(btcp.kernel.log), btcp.kernel.log, ctl.serverFd))
    }

    /** do_ctl */
    method DoCtl()
      requires InOrder()
      modifies ctl, ctl.clients, btcp.xpoll, btcp.kernel`open, btcp.kernel`log
      ensures InOrder() && SameOthers() && btcp.Untouched() && CtlServed()
    {
      hide Xpoll.Valid, ActiveFdPool.Valid, Btcp.OwnIds, Btcp.OwnFds, TableInv;
      hide Btcp.FdOk, Btcp.QueryOk, Btcp.TconnectOk, Btcp.StateOk;
      btcp.WhatIsOwned();
      Without(btcp.xpoll.regs, btcp.OwnIds(), ctl.Live(), ctl.serverFdRegId);
      WithoutFds(btcp.kernel.open, btcp.OwnFds(), ctl.Live(), ctl.serverFd);
      ctl.Process();
      BtcpKept();
      SparesFewer(old(btcp.kernel.log), btcp.kernel.log,
                  btcp.kernel.open - ClientFds(ctl.Live()) - {ctl.serverFd}, btcp.kernel.open - OwnFds());
      btcp.OwnsTheSame();
      Without(btcp.xpoll.regs, btcp.OwnIds(), ctl.Live(), ctl.serverFdRegId);
      WithoutFds(btcp.kernel.open, btcp.OwnFds(), ctl.Live(), ctl.serverFd);
    }

    /** What a call that ended with this answer has made of the counter. */
    ghost predicate Weighed(before: nat, r: IoResult)
      reads `skippedCtlCalls
    {
      match r
      case Done(_) => skippedCtlCalls == if before + 1 > 256 then 0 else before + 1
      case Fail(e) =>
        skippedCtlCalls == if e != EAGAIN then before else if before + 64 > 256 then 0 else before + 64
    }

    /** consider_ctl */
    method ConsiderCtl(o: Outcome)
      requires Valid()
      modifies `skippedCtlCalls, ctl, ctl.clients, btcp.xpoll, btcp.kernel`open, btcp.kernel`log
      ensures Valid() && SameOthers() && btcp.Untouched()
      ensures skippedCtlCalls == NextSkipped(old(skippedCtlCalls), o)
      ensures if Serves(old(skippedCtlCalls), o) then CtlServed() else btcp.kernel.log == old(btcp.kernel.log)
    {
      hide InOrder, OwnIds, OwnFds, Btcp.OtherBells, AttendedBut, Heard, ClientFds;
      assert this !in btcp.Parts();
      if o != Permanent {
        skippedCtlCalls := skippedCtlCalls + Weight(o);
        if skippedCtlCalls > MAX_SKIPPED_CTL_CALLS {
          DoCtl();
          skippedCtlCalls := 0;
        }
      }
    }

    /** What an update leaves behind: see UpdateRel and DirectRel. */
    ghost predicate Polled()
      reads btcp, btcp.xpoll
    {
      && btcp.bellRegId in btcp.xpoll.bells
      && UpdateRel(btcp.PhaseOf(), btcp.xpoll.bells[btcp.bellRegId])
      && DirectRel(btcp.PhaseOf(), btcp.condition, btcp.Interest(), btcp.xpoll.bells[btcp.bellRegId])
    }

    /** The socket has worked, and everything is still in order. */
    twostate lemma StillInOrder()
      requires old(InOrder()) && btcp.Valid() && unchanged(ctl) && unchanged(ctl.clients)
      requires btcp.OtherRegs() == old(btcp.OtherRegs()) && btcp.OtherFds() == old(btcp.OtherFds())
      requires btcp.OtherBells() == old(btcp.OtherBells())
      requires Spares(old(btcp.kernel.log), btcp.kernel.log, btcp.OtherFds())
      ensures InOrder() && SameOthers()
    {
      hide Xpoll.Valid, ActiveFdPool.Valid, TableInv, ClientIds, ClientFds, Btcp.OwnIds, Btcp.OwnFds;
      hide Btcp.FdOk, Btcp.QueryOk, Btcp.TconnectOk, Btcp.StateOk;
      CtlKept();
      Without(old(btcp.xpoll.regs), old(btcp.OwnIds()), ctl.Live(), ctl.serverFdRegId);
      Without(btcp.xpoll.regs, btcp.OwnIds(), ctl.Live(), ctl.serverFdRegId);
      WithoutFds(old(btcp.kernel.open), old(btcp.OwnFds()), ctl.Live(), ctl.serverFd);
      WithoutFds(btcp.kernel.open, btcp.OwnFds(), ctl.Live(), ctl.serverFd);
      SparesFewer(old(btcp.kernel.log), btcp.kernel.log, btcp.OtherFds(), btcp.kernel.open - OwnFds());
    }

    /** xcm_tp_socket_update */
    method Update()
      requires InOrder() && btcp.state != Initialized
      modifies btcp.xpoll, btcp.xpoll.pool
      ensures InOrder() && SameOthers() && btcp.Untouched() && Polled()
      ensures OthersKept(old(btcp.xpoll.pool.holders), btcp.xpoll.pool.holders, btcp.xpoll.me)
    {
      hide Xpoll.Valid, ActiveFdPool.Valid, Btcp.Core, Btcp.OtherRegs, Btcp.OtherBells, Btcp.OwnFds, Apart, TableInv;
      btcp.Update();
      btcp.BellIsThere();
      StillInOrder();
    }

    /** consider_auto_update */
    method ConsiderAutoUpdate()
      requires InOrder() && btcp.state != Initialized
      modifies btcp.xpoll, btcp.xpoll.pool
      ensures InOrder() && SameOthers() && btcp.Untouched() && (autoUpdate ==> Polled())
      ensures OthersKept(old(btcp.xpoll.pool.holders), btcp.xpoll.pool.holders, btcp.xpoll.me)
    {
      hide InOrder, Polled, OwnIds, OwnFds, Btcp.OtherBells;
      if autoUpdate {
        Update();
      }
    }

    lemma PartsAreOthers()
      ensures this !in btcp.Parts() && btcp.xpoll.pool !in btcp.Parts()
      ensures ctl !in btcp.Parts() && ctl.clients !in btcp.Parts()
    {
    }

    /** The transport's send, receive and finish, after which the control interface is still in order. */
    method SendBelow(buf: seq<Byte>) returns (r: IoResult, ghost before: seq<SysCall>)
      requires InOrder() && btcp.state != Initialized
      modifies btcp, btcp.kernel, btcp.xpoll, btcp.Parts()
      ensures InOrder() && SameOthers() && fresh(btcp.Parts() - old(btcp.Parts())) && btcp.state != Initialized
      ensures skippedCtlCalls == old(skippedCtlCalls) && unchanged(btcp.xpoll.pool)
      ensures SendRel(old(btcp.PhaseOf()), |buf|, btcp.PhaseOf(), r)
      ensures btcp.written == old(btcp.written) + if r.Done? then buf[..r.n] else []
      ensures old(btcp.kernel.log) <= before
      ensures SendAnswered(before, btcp.kernel.log, btcp.fd, buf, r, btcp.PhaseOf())
    {
      hide Xpoll.Valid, ActiveFdPool.Valid, Btcp.Core, Btcp.OtherRegs, Btcp.OtherFds, Btcp.OtherBells, Apart, TableInv;
      hide Btcp.Parts, Btcp.TconnectParts;
      PartsAreOthers();
      r, before := btcp.Send(buf);
      StillInOrder();
    }

    method ReceiveBelow(capacity: nat) returns (r: IoResult, bytes: seq<Byte>, ghost before: seq<SysCall>)
      requires InOrder() && btcp.state != Initialized
      modifies btcp, btcp.kernel, btcp.xpoll, btcp.Parts()
      ensures InOrder() && SameOthers() && fresh(btcp.Parts() - old(btcp.Parts())) && btcp.state != Initialized
      ensures skippedCtlCalls == old(skippedCtlCalls) && unchanged(btcp.xpoll.pool)
      ensures ReceiveRel(old(btcp.PhaseOf()), capacity, btcp.PhaseOf(), r)
      ensures |bytes| == (if r.Done? then r.n else 0) && btcp.read == old(btcp.read) + bytes
      ensures old(btcp.kernel.log) <= before
      ensures ReceiveAnswered(before, btcp.kernel.log, btcp.fd, capacity, r, bytes, btcp.PhaseOf())
    {
      hide Xpoll.Valid, ActiveFdPool.Valid, Btcp.Core, Btcp.OtherRegs, Btcp.OtherFds, Btcp.OtherBells, Apart, TableInv;
      hide Btcp.Parts, Btcp.TconnectParts;
      PartsAreOthers();
      r, bytes, before := btcp.Receive(capacity);
      StillInOrder();
    }

    method FinishBelow() returns (r: IoResult)
      requires InOrder() && btcp.state != Initialized
      modifies btcp, btcp.kernel, btcp.xpoll, btcp.Parts()
      ensures InOrder() && SameOthers() && fresh(btcp.Parts() - old(btcp.Parts())) && btcp.state != Initialized
      ensures skippedCtlCalls == old(skippedCtlCalls) && unchanged(btcp.xpoll.pool)
      ensures FinishRel(old(btcp.PhaseOf()), btcp.PhaseOf(), r)
    {
      hide Xpoll.Valid, ActiveFdPool.Valid, Btcp.Core, Btcp.OtherRegs, Btcp.OtherFds, Btcp.OtherBells, Apart, TableInv;
      hide Btcp.Parts, Btcp.TconnectParts;
      PartsAreOthers();
      r := btcp.Finish();
      StillInOrder();
    }

    /** What follows every call: the control interface is considered, and the poll set updated. */
    method Conclude(o: Outcome)
      requires Valid() && btcp.state != Initialized
      modifies `skippedCtlCalls, btcp.kernel`open, btcp.kernel`log, btcp.xpoll, btcp.xpoll.pool, ctl, ctl.clients
      ensures Valid() && SameOthers() && btcp.Untouched() && (autoUpdate ==> Polled())
      ensures btcp.Parts() == old(btcp.Parts()) && btcp.PhaseOf() == old(btcp.PhaseOf())
      ensures OthersKept(old(btcp.xpoll.pool.holders), btcp.xpoll.pool.holders, btcp.xpoll.me)
      ensures skippedCtlCalls == NextSkipped(old(skippedCtlCalls), o)
      ensures if Serves(old(skippedCtlCalls), o) then CtlServed() else btcp.kernel.log == old(btcp.kernel.log)
    {
      hide InOrder, Polled, OwnIds, OwnFds, Btcp.OtherBells, OthersKept;
      ConsiderCtl(o);
      ConsiderAutoUpdate();
    }

    /** xcm_tp_socket_send */
    method Send(buf: seq<Byte>) returns (r: IoResult, ghost before: seq<SysCall>, ghost after: seq<SysCall>)
      requires Valid() && btcp.state != Initialized
      modifies `skippedCtlCalls, btcp, btcp.kernel, btcp.xpoll, btcp.xpoll.pool, btcp.Parts(), ctl, ctl.clients
      ensures Valid() && SameOthers() && fresh(btcp.Parts() - old(btcp.Parts())) && (autoUpdate ==> Polled())
      ensures OthersKept(old(btcp.xpoll.pool.holders), btcp.xpoll.pool.holders, btcp.xpoll.me)
      ensures SendRel(old(btcp.PhaseOf()), |buf|, btcp.PhaseOf(), r)
      ensures btcp.written == old(btcp.written) + if r.Done? then buf[..r.n] else []
      ensures skippedCtlCalls == NextSkipped(old(skippedCtlCalls), OutcomeOf(r)) && Weighed(old(skippedCtlCalls), r)
      ensures old(btcp.kernel.log) <= before && after <= btcp.kernel.log
      ensures SendAnswered(before, after, btcp.fd, buf, r, btcp.PhaseOf())
    {
      hide InOrder, Polled, OwnIds, OwnFds, Btcp.OtherBells, OthersKept, Btcp.Parts, Btcp.PhaseOf;
      hide SendRel, ReceiveRel, FinishRel;
      r, before := SendBelow(buf);
      after := btcp.kernel.log;
      Conclude(OutcomeOf(r));
    }

    /** xcm_tp_socket_receive */
    method Receive(capacity: nat) returns (r: IoResult, bytes: seq<Byte>,
                                           ghost before: seq<SysCall>, ghost after: seq<SysCall>)
      requires Valid() && btcp.state != Initialized
      modifies `skippedCtlCalls, btcp, btcp.kernel, btcp.xpoll, btcp.xpoll.pool, btcp.Parts(), ctl, ctl.clients
      ensures Valid() && SameOthers() && fresh(btcp.Parts() - old(btcp.Parts())) && (autoUpdate ==> Polled())
      ensures OthersKept(old(btcp.xpoll.pool.holders), btcp.xpoll.pool.holders, btcp.xpoll.me)
      ensures ReceiveRel(old(btcp.PhaseOf()), capacity, btcp.PhaseOf(), r)
      ensures |bytes| == (if r.Done? then r.n else 0) && btcp.read == old(btcp.read) + bytes
      ensures skippedCtlCalls == NextSkipped(old(skippedCtlCalls), ReceiveOutcome(r))
      ensures if r == Done(0) then skippedCtlCalls == old(skippedCtlCalls) else Weighed(old(skippedCtlCalls), r)
      ensures old(btcp.kernel.log) <= before && after <= btcp.kernel.log
      ensures ReceiveAnswered(before, after, btcp.fd, capacity, r, bytes, btcp.PhaseOf())
    {
      hide InOrder, Polled, OwnIds, OwnFds, Btcp.OtherBells, OthersKept, Btcp.Parts, Btcp.PhaseOf;
      hide SendRel, ReceiveRel, FinishRel;
      r, bytes, before := ReceiveBelow(capacity);
      after := btcp.kernel.log;
      Conclude(ReceiveOutcome(r));
    }

    /** xcm_tp_socket_finish */
    method Finish() returns (r: IoResult)
      requires Valid() && btcp.state != Initialized
      modifies `skippedCtlCalls, btcp, btcp.kernel, btcp.xpoll, btcp.xpoll.pool, btcp.Parts(), ctl, ctl.clients
      ensures Valid() && SameOthers() && fresh(btcp.Parts() - old(btcp.Parts())) && (autoUpdate ==> Polled())
      ensures OthersKept(old(btcp.xpoll.pool.holders), btcp.xpoll.pool.holders, btcp.xpoll.me)
      ensures FinishRel(old(btcp.PhaseOf()), btcp.PhaseOf(), r)
      ensures skippedCtlCalls == NextSkipped(old(skippedCtlCalls), OutcomeOf(r)) && Weighed(old(skippedCtlCalls), r)
    {
      hide InOrder, Polled, OwnIds, OwnFds, Btcp.OtherBells, OthersKept, Btcp.Parts, Btcp.PhaseOf;
      hide SendRel, ReceiveRel, FinishRel;
      r := FinishBelow();
      Conclude(OutcomeOf(r));
    }

    /** ctl_destroy leaves the socket in order. */
    method DestroyCtl()
      requires InOrder()
      modifies ctl, ctl.clients, btcp.xpoll, btcp.kernel`open
      ensures btcp.Valid() && btcp.Untouched() && btcp.xpoll.bells == old(btcp.xpoll.bells)
      ensures btcp.xpoll.regs == old(OtherRegs(ctl.Live(), btcp.xpoll.regs, ctl.serverFdRegId))
      ensures btcp.kernel.open == old(btcp.kernel.open - ClientFds(ctl.Live()) - {ctl.serverFd})
    {
      hide Xpoll.Valid, ActiveFdPool.Valid, Btcp.OwnIds, Btcp.OwnFds, OwnsThese, TableInv, ClientIds, ClientFds;
      hide Btcp.FdOk, Btcp.QueryOk, Btcp.TconnectOk, Btcp.StateOk;
      btcp.WhatIsOwned();
      ghost var ids, fds := ClientIds(ctl.Live()) + {ctl.serverFdRegId}, ClientFds(ctl.Live()) + {ctl.serverFd};
      OwnsTheseLess(btcp.xpoll.regs, btcp.kernel.open, btcp.OwnIds(), btcp.OwnFds(), ids, fds);
      OwnIdsIn(btcp.xpoll.regs, btcp.kernel.open, btcp.OwnIds(), btcp.OwnFds());
      ctl.Destroy();
      btcp.OwnsTheSame();
      assert btcp.xpoll.regs == old(btcp.xpoll.regs) - ids;
      assert btcp.kernel.open == old(btcp.kernel.open) - fds;
      btcp.StaysValid();
    }

    /** xcm_tp_socket_close: nothing of the socket or its control interface is left anywhere. */
    method Close()
      requires Valid()
      modifies btcp, btcp.kernel`open, btcp.xpoll, btcp.xpoll.pool, btcp.Parts(), ctl, ctl.clients
      ensures btcp.xpoll.Valid() && btcp.xpoll.pool.Valid() && RegsOpen(btcp.xpoll.regs, btcp.kernel.open)
      ensures btcp.xpoll.regs == old(btcp.xpoll.regs - OwnIds()) && btcp.xpoll.bells == old(btcp.OtherBells())
      ensures btcp.kernel.open == old(btcp.kernel.open - OwnFds())
      ensures OthersKept(old(btcp.xpoll.pool.holders), btcp.xpoll.pool.holders, btcp.xpoll.me)
    {
      hide Xpoll.Valid, ActiveFdPool.Valid, Btcp.OwnIds, Btcp.OwnFds, TableInv, ClientIds, ClientFds, Control.OtherRegs;
      hide Btcp.Core, Btcp.StateOk, Btcp.Waiting, RegsOpen;
      Without(btcp.xpoll.regs, btcp.OwnIds(), ctl.Live(), ctl.serverFdRegId);
      WithoutFds(btcp.kernel.open, btcp.OwnFds(), ctl.Live(), ctl.serverFd);
      DestroyCtl();
      btcp.OwnsTheSame();
      btcp.Close();
    }
  }
}
