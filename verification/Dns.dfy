/** libxcm/tp/dns: a name resolution in progress, its answer left to an oracle, with the pipe it
    registers in the poll set until the answer has been fetched. */
module Dns {
  import opened KernelModel
  import opened XpollTable

  const MAX_RESULT_SIZE := 32

  datatype QueryState = Pending | NotFound | Resolved(ips: seq<Family>)

  datatype QueryResult = Ips(ips: seq<Family>) | QueryError(errno: int)

  class Query {
    const kernel: Kernel
    const xpoll: Xpoll
    const readFd: Fd
    const writeFd: Fd
    var pipeRegId: int
    var state: QueryState
    /** How often the resolver has been asked whether it is done. */
    ghost var polls: nat

    ghost function OwnFds(): set<Fd> {
      {readFd, writeFd}
    }

    ghost predicate Valid()
      reads this, xpoll, kernel
    {
      && readFd.Desc? && writeFd.Desc? && readFd != writeFd && OwnFds() <= kernel.open
      && pipeRegId >= -1
      && (pipeRegId >= 0 ==> pipeRegId in xpoll.regs && xpoll.regs[pipeRegId] == FdReg(readFd, {IN}))
      && (forall id :: id in xpoll.regs && xpoll.regs[id].fd in OwnFds() ==> pipeRegId >= 0 && id == pipeRegId)
      && (state.Resolved? ==> 1 <= |state.ips| <= MAX_RESULT_SIZE)
    }

    constructor (kernel: Kernel, xpoll: Xpoll, readFd: Fd, writeFd: Fd)
      requires xpoll.Valid() && readFd.Desc? && writeFd.Desc? && readFd != writeFd && {readFd, writeFd} <= kernel.open
      requires Unregistered(xpoll.regs, readFd) && Unregistered(xpoll.regs, writeFd)
      modifies xpoll
      ensures this.kernel == kernel && this.xpoll == xpoll && this.readFd == readFd && this.writeFd == writeFd
      ensures Valid() && xpoll.Valid() && xpoll.bells == old(xpoll.bells) && pipeRegId >= 0
      ensures pipeRegId !in old(xpoll.regs) && xpoll.regs == old(xpoll.regs)[pipeRegId := FdReg(readFd, {IN})]
    {
      hide Xpoll.Valid;
      this.kernel, this.xpoll, this.readFd, this.writeFd := kernel, xpoll, readFd, writeFd;
      state := Pending;
      polls := 0;
      pipeRegId := -1;
      new;
      pipeRegId := xpoll.FdRegAdd(readFd, {IN});
    }

    /** xcm_dns_query_process: the resolver may have come up with an answer. */
    method Process()
      requires Valid()
      modifies `state, `polls
      ensures Valid() && polls == old(polls) + 1
      ensures old(state) != Pending ==> state == old(state)
    {
      polls := polls + 1;
      if state == Pending {
        var found: seq<Family> := *;
        if 1 <= |found| <= MAX_RESULT_SIZE {
          state := Resolved(found);
        } else if |found| > MAX_RESULT_SIZE {
          state := NotFound;
        }
      }
    }

    /** xcm_dns_query_result: fetching the addresses ends the interest in the pipe. */
    method Result() returns (r: QueryResult)
      requires Valid() && xpoll.Valid() && pipeRegId >= 0
      modifies `pipeRegId, xpoll
      ensures Valid() && xpoll.Valid() && xpoll.bells == old(xpoll.bells)
      ensures match state
              case Pending => r == QueryError(EAGAIN)
              case NotFound => r == QueryError(ENOENT)
              case Resolved(ips) => r == Ips(ips)
      ensures r.Ips? ==> pipeRegId == -1 && xpoll.regs == old(xpoll.regs) - {old(pipeRegId)}
      ensures !r.Ips? ==> pipeRegId == old(pipeRegId) && xpoll.regs == old(xpoll.regs)
    {
      hide Xpoll.Valid;
      match state {
        case Pending =>
          r := QueryError(EAGAIN);
        case NotFound =>
          r := QueryError(ENOENT);
        case Resolved(ips) =>
          xpoll.FdRegDel(pipeRegId);
          pipeRegId := -1;
          r := Ips(ips);
      }
    }

    /** xcm_dns_query_destroy */
    method Destroy()
      requires Valid() && xpoll.Valid()
      modifies xpoll, kernel`open
      ensures xpoll.Valid() && xpoll.bells == old(xpoll.bells)
      ensures xpoll.regs == if pipeRegId >= 0 then old(xpoll.regs) - {pipeRegId} else old(xpoll.regs)
      ensures kernel.open == old(kernel.open) - OwnFds()
    {
      hide Xpoll.Valid;
      xpoll.FdRegDelIfValid(pipeRegId);
      kernel.Close(readFd);
      kernel.Close(writeFd);
    }

    /** xcm_dns_resolve: NULL when no pipe could be had or the query could not be initiated. */
    static method Resolve(kernel: Kernel, xpoll: Xpoll) returns (q: Query?)
      requires xpoll.Valid() && RegsOpen(xpoll.regs, kernel.open)
      modifies xpoll, kernel`open
      ensures xpoll.Valid() && xpoll.bells == old(xpoll.bells)
      ensures RegsOpen(xpoll.regs, kernel.open)
      ensures q == null ==> xpoll.regs == old(xpoll.regs) && kernel.open == old(kernel.open)
      ensures q != null ==>
                && fresh(q) && q.Valid() && q.kernel == kernel && q.xpoll == xpoll && q.pipeRegId >= 0
                && q.pipeRegId !in old(xpoll.regs)
                && xpoll.regs == old(xpoll.regs)[q.pipeRegId := FdReg(q.readFd, {IN})]
                && q.OwnFds() !! old(kernel.open) && kernel.open == old(kernel.open) + q.OwnFds()
    {
      hide Xpoll.Valid;
      var readFd := kernel.OpenDesc();
      var writeFd := kernel.OpenDesc();
      if readFd == NoFd || writeFd == NoFd {
        kernel.CloseIfValid(readFd);
        kernel.CloseIfValid(writeFd);
        assert kernel.open == old(kernel.open);
        return null;
      }
      q := new Query(kernel, xpoll, readFd, writeFd);
      var initiated := *;
      if !initiated {
        q.Destroy();
        assert kernel.open == old(kernel.open);
        assert xpoll.regs == old(xpoll.regs);
        return null;
      }
    }
  }
}
