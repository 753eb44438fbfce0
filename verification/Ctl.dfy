/** libxcm/ctl/ctl.c: the table of control clients of a socket. The contents of requests and
    responses are not modelled. */
module Control {
  import opened KernelModel
  import opened XpollTable

  const MAX_CLIENTS := 2

  /** sizeof(struct ctl_proto_msg); any positive size will do. */
  const MSG_SIZE := 1

  datatype Client = Client(fd: Fd, fdRegId: int, isResponsePending: bool)

  function ClientEvent(c: Client): Events {
    if c.isResponsePending then {OUT} else {IN}
  }

  /** The clients hold distinct open descriptors, each registered; `loose` is a client whose event
      need not match its pending flag (-1 for none). */
  ghost predicate ClientsOk(cs: seq<Client>, regs: map<int, FdReg>, open: set<Fd>, loose: int) {
    && (forall i, j :: 0 <= i < j < |cs| ==> cs[i].fd != cs[j].fd)
    && (forall i :: 0 <= i < |cs| ==>
          && cs[i].fd.Desc? && cs[i].fd in open
          && cs[i].fdRegId in regs && regs[cs[i].fdRegId].fd == cs[i].fd
          && (i != loose ==> regs[cs[i].fdRegId].event == ClientEvent(cs[i])))
  }

  ghost function ClientFds(cs: seq<Client>): set<Fd> {
    set i | 0 <= i < |cs| :: cs[i].fd
  }

  ghost function ClientIds(cs: seq<Client>): set<int> {
    set i | 0 <= i < |cs| :: cs[i].fdRegId
  }

  /** Swap-removal: the last client takes the place of the removed one. */
  function Removed(cs: seq<Client>, i: nat): seq<Client>
    requires i < |cs|
  {
    if i == |cs| - 1 then cs[..i] else cs[..|cs| - 1][i := cs[|cs| - 1]]
  }

  /** Swap-removal removes exactly one client, and the others stay in order. */
  lemma RemovedClients(cs: seq<Client>, regs: map<int, FdReg>, open: set<Fd>, i: nat)
    requires i < |cs| && ClientsOk(cs, regs, open, i)
    ensures var r := Removed(cs, i);
            && |r| == |cs| - 1
            && ClientFds(r) == ClientFds(cs) - {cs[i].fd} && ClientIds(r) == ClientIds(cs) - {cs[i].fdRegId}
            && ClientsOk(r, regs - {cs[i].fdRegId}, open - {cs[i].fd}, -1)
  {
  }

  ghost predicate TableInv(cs: seq<Client>, regs: map<int, FdReg>, open: set<Fd>, server: Fd, serverId: int,
                           loose: int) {
    && |cs| <= MAX_CLIENTS && RegsOpen(regs, open)
    && server.Desc? && server in open && serverId in regs
    && regs[serverId] == FdReg(server, if |cs| < MAX_CLIENTS then {IN} else {})
    && ClientsOk(cs, regs, open, loose) && server !in ClientFds(cs)
    && (forall id :: id in regs && regs[id].fd in ClientFds(cs) ==> id in ClientIds(cs))
  }

  /** The registrations that are not the control interface's. */
  ghost function OtherRegs(cs: seq<Client>, regs: map<int, FdReg>, serverId: int): map<int, FdReg> {
    regs - ClientIds(cs) - {serverId}
  }

  lemma RemoveKeepsTable(cs: seq<Client>, regs: map<int, FdReg>, open: set<Fd>, server: Fd, serverId: int, i: nat)
    requires TableInv(cs, regs, open, server, serverId, i) && i < |cs|
    ensures var r := Removed(cs, i);
            var regs' := (regs - {cs[i].fdRegId})[serverId := FdReg(server, {IN})];
            && TableInv(r, regs', open - {cs[i].fd}, server, serverId, -1)
            && OtherRegs(r, regs', serverId) == OtherRegs(cs, regs, serverId)
            && open - {cs[i].fd} - ClientFds(r) == open - ClientFds(cs)
  {
  }

  lemma AcceptKeepsTable(cs: seq<Client>, regs: map<int, FdReg>, open: set<Fd>, server: Fd, serverId: int, fd: Fd,
                         id: int)
    requires TableInv(cs, regs, open, server, serverId, -1) && |cs| < MAX_CLIENTS
    requires fd.Desc? && fd !in open && id !in regs
    ensures var cs' := cs + [Client(fd, id, false)];
            var serverReg := FdReg(server, if |cs'| < MAX_CLIENTS then {IN} else {});
            var regs' := regs[id := FdReg(fd, {IN})][serverId := serverReg];
            && TableInv(cs', regs', open + {fd}, server, serverId, -1)
            && OtherRegs(cs', regs', serverId) == OtherRegs(cs, regs, serverId)
            && open + {fd} - ClientFds(cs') == open - ClientFds(cs)
  {
    var cs' := cs + [Client(fd, id, false)];
    assert forall k :: 0 <= k < |cs| ==> cs'[k] == cs[k];
    assert cs'[|cs|] == Client(fd, id, false);
    assert ClientFds(cs') == ClientFds(cs) + {fd};
    assert ClientIds(cs') == ClientIds(cs) + {id};
    assert serverId !in ClientIds(cs);
  }

  /** A client whose flag and event change together, or whose event alone changes (`loose`). */
  lemma PollKeepsTable(cs: seq<Client>, regs: map<int, FdReg>, open: set<Fd>, server: Fd, serverId: int,
                       i: nat, pending: bool, event: Events)
    requires TableInv(cs, regs, open, server, serverId, -1) && i < |cs|
    ensures var c := cs[i].(isResponsePending := pending);
            var regs' := regs[c.fdRegId := FdReg(c.fd, event)];
            && TableInv(cs[i := c], regs', open, server, serverId, if event == ClientEvent(c) then -1 else i)
            && OtherRegs(cs[i := c], regs', serverId) == OtherRegs(cs, regs, serverId)
            && ClientFds(cs[i := c]) == ClientFds(cs)
  {
    var cs' := cs[i := cs[i].(isResponsePending := pending)];
    assert forall k :: 0 <= k < |cs| ==> cs'[k].fd == cs[k].fd && cs'[k].fdRegId == cs[k].fdRegId;
    assert ClientFds(cs') == ClientFds(cs);
    assert ClientIds(cs') == ClientIds(cs);
    assert cs[i].fdRegId in ClientIds(cs) && serverId !in ClientIds(cs);
  }

  /** Another owner of registrations `own` and descriptors `fds` in the same poll set, who changes
      only these, does not disturb the table. */
  lemma OthersKeepTable(cs: seq<Client>, regs: map<int, FdReg>, open: set<Fd>, server: Fd, serverId: int,
                        regs': map<int, FdReg>, open': set<Fd>, own: set<int>, own': set<int>,
                        fds: set<Fd>, fds': set<Fd>)
    requires TableInv(cs, regs, open, server, serverId, -1) && RegsOpen(regs', open')
    requires regs' - own' == regs - own && open' - fds' == open - fds
    requires own !! ClientIds(cs) + {serverId} && fds !! ClientFds(cs) + {server}
    requires forall id :: id in own' && id in regs' ==> regs'[id].fd in fds'
    ensures TableInv(cs, regs', open', server, serverId, -1)
    ensures own' !! ClientIds(cs) + {serverId} && fds' !! ClientFds(cs) + {server}
  {
    assert forall id :: id in regs && id !in own ==> id in regs - own && id in regs' - own';
    assert forall id :: id in regs' && id !in own' ==> id in regs' - own' && id in regs - own;
    assert forall fd :: fd in open && fd !in fds ==> fd in open - fds && fd in open' - fds';
    assert forall k :: 0 <= k < |cs| ==> cs[k].fd in ClientFds(cs) && cs[k].fdRegId in ClientIds(cs);
  }

  /** Conversely, changes of the clients alone do not disturb the other owner. */
  lemma ClientsKeepOthers(cs: seq<Client>, regs: map<int, FdReg>, open: set<Fd>, server: Fd, serverId: int,
                          cs': seq<Client>, regs': map<int, FdReg>, open': set<Fd>, own: set<int>, fds: set<Fd>)
    requires TableInv(cs, regs, open, server, serverId, -1) && TableInv(cs', regs', open', server, serverId, -1)
    requires OtherRegs(cs', regs', serverId) == OtherRegs(cs, regs, serverId)
    requires open' - ClientFds(cs') == open - ClientFds(cs)
    requires own <= regs.Keys && own !! ClientIds(cs) + {serverId}
    requires fds <= open && fds !! ClientFds(cs) + {server}
    requires forall id :: id in regs && id !in own ==> regs[id].fd !in fds
    ensures own <= regs'.Keys && own !! ClientIds(cs') + {serverId}
    ensures fds <= open' && fds !! ClientFds(cs') + {server}
    ensures forall id :: id in own ==> regs'[id] == regs[id]
    ensures forall id :: id in regs' && id !in own ==> regs'[id].fd !in fds
  {
    var others := OtherRegs(cs, regs, serverId);
    assert forall id :: id in own ==> id in others && others[id] == regs[id];
    assert forall id :: id in others ==> id in regs' && regs'[id] == others[id];
    assert forall fd :: fd in fds ==> fd in open - ClientFds(cs) && fd in open' - ClientFds(cs');
    forall id | id in regs' && id !in own ensures regs'[id].fd !in fds {
      if id in ClientIds(cs') {
        var k :| 0 <= k < |cs'| && cs'[k].fdRegId == id;
        assert cs'[k].fd in ClientFds(cs');
      } else if id != serverId {
        assert id in OtherRegs(cs', regs', serverId) && id in others;
      }
    }
  }

  /** What becomes of a client, given the answer of the kernel to the one call made for it: a
      response is sent when one is pending, and a request is read otherwise; the client is to be
      removed when the call failed for good, or the request was short or not understood. */
  ghost predicate Served(c: Client, e: SysCall, c': Client, ok: bool) {
    && e.fd == c.fd && c'.fd == c.fd && c'.fdRegId == c.fdRegId
    && if c.isResponsePending then
         && e.SysSend? && |e.buf| == MSG_SIZE
         && ok == (e.errno == 0 || e.errno == EAGAIN) && c'.isResponsePending == (e.errno != 0)
       else
         && e.SysRecv? && e.capacity == MSG_SIZE
         && (e.errno == EAGAIN ==> ok && c' == c)
         && (e.errno != 0 && e.errno != EAGAIN ==> !ok && c' == c)
         && (e.errno == 0 && |e.bytes| != MSG_SIZE ==> !ok)
         && (e.errno == 0 ==> c'.isResponsePending == ok)
  }

  /** Of these clients, those not in `rest` have been attended to. */
  ghost predicate AttendedBut(fds: set<Fd>, before: seq<SysCall>, after: seq<SysCall>, rest: set<Fd>) {
    before <= after && forall fd :: fd in fds ==> fd in rest || Heard(before, after, fd)
  }

  lemma AttendedOneMore(cs: seq<Client>, i: nat, fds: set<Fd>, a: seq<SysCall>, b: seq<SysCall>, c: seq<SysCall>)
    requires i < |cs| && AttendedBut(fds, a, b, ClientFds(cs[i..])) && b <= c && Heard(b, c, cs[i].fd)
    ensures AttendedBut(fds, a, c, ClientFds(cs[i + 1..]))
    ensures AttendedBut(fds, a, c, ClientFds(cs) - {cs[i].fd})
  {
    forall fd | fd in fds
      ensures Heard(a, c, fd) || (fd in ClientFds(cs[i + 1..]) && fd in ClientFds(cs) - {cs[i].fd})
    {
      if Heard(a, b, fd) {
        HeardStill(a, a, b, c, fd);
      } else {
        var k :| 0 <= k < |cs[i..]| && cs[i..][k].fd == fd;
        if fd == cs[i].fd {
          HeardStill(a, b, c, c, fd);
        } else {
          assert cs[i + 1..][k - 1].fd == fd && cs[i + k].fd == fd;
        }
      }
    }
  }

  /** All that were left have been attended to in the meantime. */
  lemma AttendedAll(fds: set<Fd>, a: seq<SysCall>, b: seq<SysCall>, c: seq<SysCall>, rest: set<Fd>)
    requires AttendedBut(fds, a, b, rest) && AttendedBut(rest, b, c, {})
    ensures AttendedBut(fds, a, c, {})
  {
    forall fd | fd in fds ensures Heard(a, c, fd) {
      if fd in rest {
        HeardStill(a, b, c, c, fd);
      } else {
        HeardStill(a, a, b, c, fd);
      }
    }
  }

  /** The server descriptor has been polled, a client accepted if it was ready, and one has been
      added exactly when there was one. */
  ghost predicate Accepted(before: seq<SysCall>, after: seq<SysCall>, server: Fd, added: bool) {
    || (after == before + [SysPoll(server, false)] && !added)
    || (exists fd :: after == before + [SysPoll(server, true)] + [SysAccept(server, fd)] && (added <==> fd != NoFd))
  }

  lemma NoneAttended(cs: seq<Client>, log: seq<SysCall>)
    ensures AttendedBut(ClientFds(cs), log, log, ClientFds(cs[0..]))
  {
    assert cs[0..] == cs;
  }

  lemma AttendedLater(fds: set<Fd>, a: seq<SysCall>, b: seq<SysCall>, c: seq<SysCall>, rest: set<Fd>)
    requires AttendedBut(fds, a, b, {}) && b <= c
    ensures AttendedBut(fds, a, c, rest)
  {
    forall fd | fd in fds ensures Heard(a, c, fd) {
      HeardStill(a, a, b, c, fd);
    }
  }

  lemma ServerHeard(before: seq<SysCall>, after: seq<SysCall>, server: Fd)
    requires exists added :: Accepted(before, after, server, added)
    ensures Heard(before, after, server)
  {
    assert after[|before|].fd == server;
  }

  lemma HeardNow(log: seq<SysCall>, e: SysCall, after: seq<SysCall>)
    requires log + [e] <= after
    ensures Heard(log, after, e.fd)
  {
    assert (log + [e])[|log|] == e;
    assert after[|log|] == e;
  }

  /** Changing the flag of a client changes none of the descriptors. */
  lemma SameFdsFrom(cs: seq<Client>, i: nat, c: Client, from: nat)
    requires i < |cs| && c.fd == cs[i].fd && from <= |cs|
    ensures ClientFds(cs[i := c][from..]) == ClientFds(cs[from..])
    ensures ClientFds(cs[i := c]) == ClientFds(cs)
  {
    var cs' := cs[i := c];
    assert forall k :: 0 <= k < |cs| ==> cs'[k].fd == cs[k].fd;
    assert forall k :: 0 <= k < |cs| - from ==> cs'[from..][k].fd == cs[from..][k].fd;
  }

  class Ctl {
    const kernel: Kernel
    const xpoll: Xpoll
    const serverFd: Fd
    var serverFdRegId: int
    const clients: array<Client>
    var numClients: nat

    ghost predicate TableOk()
      reads this, clients
    {
      clients.Length == MAX_CLIENTS && numClients <= MAX_CLIENTS
    }

    ghost function Live(): seq<Client>
      requires TableOk()
      reads this, clients
    {
      clients[..numClients]
    }

    /** The table is in order, except that the event of client `loose` may not match its flag. */
    ghost predicate ValidBut(loose: int)
      reads this, clients, kernel, xpoll, xpoll.pool
    {
      TableOk() && xpoll.Valid() && TableInv(Live(), xpoll.regs, kernel.open, serverFd, serverFdRegId, loose)
    }

    /** Live slots hold distinct registered descriptors, polled for output exactly when a response
        is pending, and the server descriptor is polled exactly when there is room. */
    ghost predicate Valid()
      reads this, clients, kernel, xpoll, xpoll.pool
    {
      ValidBut(-1)
    }

    /** Registrations and descriptors that are not the clients' have not changed. */
    twostate predicate SameOthers()
      requires old(TableOk()) && TableOk()
      reads this, clients, xpoll, kernel
    {
      && serverFdRegId == old(serverFdRegId) && xpoll.bells == old(xpoll.bells)
      && OtherRegs(Live(), xpoll.regs, serverFdRegId) == OtherRegs(old(Live()), old(xpoll.regs), serverFdRegId)
      && kernel.open - ClientFds(Live()) == old(kernel.open) - ClientFds(old(Live()))
      && Spares(old(kernel.log), kernel.log, kernel.open - ClientFds(Live()) - {serverFd})
    }

    /** ctl_create, after create_ux has given out the listening socket. */
    constructor (kernel: Kernel, xpoll: Xpoll, serverFd: Fd)
      requires xpoll.Valid() && RegsOpen(xpoll.regs, kernel.open)
      requires serverFd.Desc? && serverFd in kernel.open && Unregistered(xpoll.regs, serverFd)
      modifies xpoll
      ensures Valid() && numClients == 0 && this.kernel == kernel && this.xpoll == xpoll && this.serverFd == serverFd
      ensures fresh(clients) && xpoll.bells == old(xpoll.bells) && serverFdRegId !in old(xpoll.regs)
      ensures xpoll.regs == old(xpoll.regs)[serverFdRegId := FdReg(serverFd, {IN})]
    {
      hide Xpoll.Valid;
      this.kernel, this.xpoll, this.serverFd := kernel, xpoll, serverFd;
      clients := new Client[MAX_CLIENTS](_ => Client(NoFd, -1, false));
      numClients := 0;
      new;
      serverFdRegId := xpoll.FdRegAdd(serverFd, {IN});
    }

    /** remove_client */
    method RemoveClient(i: nat)
      requires TableOk() && i < numClients && ValidBut(i)
      modifies `numClients, clients, xpoll, kernel`open
      ensures Valid() && numClients == old(numClients) - 1 && Live() == Removed(old(Live()), i)
      ensures SameOthers() && ClientFds(Live()) == ClientFds(old(Live())) - {old(Live())[i].fd}
    {
      hide Xpoll.Valid, ClientsOk, RegsOpen, OtherRegs, ClientFds, ClientIds;
      var client := clients[i];
      ghost var live, regs := Live(), xpoll.regs;
      WhereClientIs(live, regs, kernel.open, serverFd, serverFdRegId, i, i);
      RemoveKeepsTable(live, regs, kernel.open, serverFd, serverFdRegId, i);
      RemovedClients(live, regs, kernel.open, i);
      xpoll.FdRegDel(client.fdRegId);
      kernel.Close(client.fd);
      var last := numClients - 1;
      if i != last {
        clients[i] := clients[last];
      }
      if numClients == MAX_CLIENTS {
        xpoll.FdRegMod(serverFdRegId, {IN});
      }
      numClients := numClients - 1;
      assert Live() == Removed(live, i);
      assert xpoll.regs == (regs - {client.fdRegId})[serverFdRegId := FdReg(serverFd, {IN})];
    }

    /** Sets the pending flag of a client and the event of its registration. */
    method SetClient(i: nat, pending: bool, event: Events)
      requires Valid() && i < numClients
      modifies clients, xpoll
      ensures TableOk() && SameOthers()
      ensures Live() == old(Live())[i := old(Live())[i].(isResponsePending := pending)]
      ensures ValidBut(if event == (if pending then {OUT} else {IN}) then -1 else i)
    {
      hide Xpoll.Valid, ClientsOk, RegsOpen, OtherRegs, ClientFds, ClientIds;
      ghost var live, regs := Live(), xpoll.regs;
      WhereClientIs(live, regs, kernel.open, serverFd, serverFdRegId, i, -1);
      PollKeepsTable(live, regs, kernel.open, serverFd, serverFdRegId, i, pending, event);
      clients[i] := clients[i].(isResponsePending := pending);
      xpoll.FdRegMod(clients[i].fdRegId, event);
      assert Live() == live[i := live[i].(isResponsePending := pending)];
    }

    /** process_client: false stands for the source's -1, after which the client is removed. */
    method ProcessClient(i: nat) returns (ok: bool, ghost e: SysCall)
      requires Valid() && i < numClients
      modifies clients, xpoll, kernel`log
      ensures TableOk() && SameOthers() && if ok then Valid() else ValidBut(i)
      ensures kernel.log == old(kernel.log) + [e] && Live() == old(Live())[i := Live()[i]]
      ensures Served(old(Live())[i], e, Live()[i], ok)
    {
      hide Xpoll.Valid, TableInv, OtherRegs, ClientFds;
      FdOfClient(i);
      if clients[i].isResponsePending {
        var response := seq(MSG_SIZE, _ => 0);
        var n, errno := kernel.Send(clients[i].fd, response);
        e := SysSend(clients[i].fd, response, n, errno);
        if errno != 0 {
          Loosen(i);
          return errno == EAGAIN, e;
        }
        SetClient(i, false, {IN});
      } else {
        var msg, errno := kernel.Receive(clients[i].fd, MSG_SIZE);
        e := SysRecv(clients[i].fd, MSG_SIZE, msg, errno);
        if errno != 0 {
          Loosen(i);
          return errno == EAGAIN, e;
        }
        if |msg| != MSG_SIZE {
          Loosen(i);
          return false, e;
        }
        var known := *;
        if !known {
          SetClient(i, false, {OUT});
          return false, e;
        }
        SetClient(i, true, {OUT});
      }
      ok := true;
    }

    lemma Loosen(i: nat)
      requires Valid() && i < numClients
      ensures ValidBut(i)
    {
    }

    lemma FdOfClient(i: nat)
      requires Valid() && i < numClients
      ensures clients[i].fd in kernel.open && clients[i].fd in ClientFds(Live())
    {
      assert Live()[i] == clients[i];
    }

    /** accept_client */
    method AcceptClient()
      requires Valid() && numClients < MAX_CLIENTS
      modifies `numClients, clients, xpoll, kernel`open, kernel`log
      ensures Valid() && SameOthers() && old(numClients) <= numClients <= old(numClients) + 1
      ensures Accepted(old(kernel.log), kernel.log, serverFd, numClients > old(numClients))
    {
      hide Xpoll.Valid, ClientsOk, OtherRegs, ClientFds, ClientIds;
      ghost var live, regs, open := Live(), xpoll.regs, kernel.open;
      var readable := kernel.Poll(serverFd);
      if !readable {
        return;
      }
      var fd := kernel.Accept(serverFd);
      if fd == NoFd {
        return;
      }
      var id := xpoll.FdRegAdd(fd, {IN});
      AcceptKeepsTable(live, regs, open, serverFd, serverFdRegId, fd, id);
      clients[numClients] := Client(fd, id, false);
      numClients := numClients + 1;
      if numClients == MAX_CLIENTS {
        xpoll.FdRegMod(serverFdRegId, {});
      }
      assert Live() == live + [Client(fd, id, false)];
      ghost var serverReg := FdReg(serverFd, if numClients < MAX_CLIENTS then {IN} else {});
      assert xpoll.regs == regs[id := FdReg(fd, {IN})][serverFdRegId := serverReg];
    }

    /** ctl_process: it terminates although it restarts itself after every removal, because each
        restart begins with fewer clients and ends with at most one more than it began with. Every
        client there is gets attended to, and so does the server descriptor when there is room. */
    method Process()
      requires Valid()
      modifies `numClients, clients, xpoll, kernel`open, kernel`log
      ensures Valid() && SameOthers()
      ensures numClients <= old(numClients) + 1 && numClients <= MAX_CLIENTS
      ensures AttendedBut(old(ClientFds(Live())), old(kernel.log), kernel.log, {})
      ensures numClients == MAX_CLIENTS || Heard(old(kernel.log), kernel.log, serverFd)
      decreases numClients
    {
      hide Xpoll.Valid, TableInv, OtherRegs, ClientFds, AttendedBut, Heard, Spares;
      ghost var entered, first, log := numClients, ClientFds(Live()), kernel.log;
      ghost var others := kernel.open - ClientFds(Live()) - {serverFd};
      NoneAttended(Live(), log);
      SparesNothing(log, others);
      var i := 0;
      while i < numClients
        invariant Valid() && SameOthers() && numClients <= entered && log <= kernel.log
        invariant others == kernel.open - ClientFds(Live()) - {serverFd} && Spares(log, kernel.log, others)
        invariant AttendedBut(first, log, kernel.log, Rest(i))
        decreases entered - i
      {
        ghost var cs, before := Live(), kernel.log;
        var ok;
        ghost var e;
        ok, e := ProcessClient(i);
        HeardNow(before, e, kernel.log);
        AttendedOneMore(cs, i, first, log, before, kernel.log);
        SameFdsFrom(cs, i, Live()[i], i + 1);
        SparesTwice(log, before, kernel.log, others);
        if !ok {
          ghost var mid := kernel.log;
          RemoveClient(i);
          Process();
          AttendedAll(first, log, mid, kernel.log, ClientFds(cs) - {cs[i].fd});
          AttendedLater(first, log, kernel.log, kernel.log, Rest(i + 1));
          SparesTwice(log, mid, kernel.log, others);
        }
        i := i + 1;
      }
      NoRest();
      if numClients < MAX_CLIENTS {
        ghost var before := kernel.log;
        AcceptClient();
        AttendedLater(first, log, before, kernel.log, {});
        ServerHeard(before, kernel.log, serverFd);
        HeardStill(log, before, kernel.log, kernel.log, serverFd);
        SparesTwice(log, before, kernel.log, others);
      }
    }

    /** The clients from index `i` on. */
    ghost function Rest(i: nat): set<Fd>
      requires TableOk()
      reads this, clients
    {
      if i <= numClients then ClientFds(Live()[i..]) else {}
    }

    lemma NoRest()
      requires TableOk()
      ensures forall i: nat :: i >= numClients ==> Rest(i) == {}
    {
    }

    /** ctl_destroy */
    method Destroy()
      requires Valid()
      modifies `numClients, clients, xpoll, kernel`open
      ensures xpoll.Valid() && xpoll.bells == old(xpoll.bells)
      ensures xpoll.regs == OtherRegs(old(Live()), old(xpoll.regs), serverFdRegId)
      ensures kernel.open == old(kernel.open) - ClientFds(old(Live())) - {serverFd}
      ensures RegsOpen(xpoll.regs, kernel.open)
    {
      hide Xpoll.Valid, ClientsOk;
      while numClients > 0
        invariant Valid() && SameOthers()
      {
        Loosen(0);
        RemoveClient(0);
      }
      assert ClientIds(Live()) == {} && ClientFds(Live()) == {};
      assert OtherRegs(Live(), xpoll.regs, serverFdRegId) == xpoll.regs - {serverFdRegId};
      forall id | id in xpoll.regs && id != serverFdRegId ensures xpoll.regs[id].fd != serverFd {
        xpoll.RegisteredOnce(id, serverFdRegId);
      }
      xpoll.FdRegDel(serverFdRegId);
      kernel.Close(serverFd);
    }
  }

  lemma WhereClientIs(cs: seq<Client>, regs: map<int, FdReg>, open: set<Fd>, server: Fd, serverId: int, i: nat,
                      loose: int)
    requires i < |cs| && TableInv(cs, regs, open, server, serverId, loose)
    ensures cs[i].fdRegId in regs && cs[i].fd in open && cs[i].fdRegId != serverId && regs[cs[i].fdRegId].fd == cs[i].fd
  {
  }
}
