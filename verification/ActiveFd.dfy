/** libxcm/tp/common/active_fd.c: the process-wide pool of always-readable eventfds, each
    shared by at most MAX_USERS_PER_FD users. */
module ActiveFd {
  import opened KernelModel

  const MAX_USERS_PER_FD := 100

  datatype Entry = Entry(fd: Fd, cnt: int)

  /** The pool, who holds what (the users are the xpoll instances), and the eventfds the
      kernel has open. */
  datatype Pool = Pool(entries: seq<Entry>, holders: map<nat, Fd>, open: set<Fd>)

  ghost function HoldersOf(holders: map<nat, Fd>, fd: Fd): set<nat> {
    set o | o in holders && holders[o] == fd
  }

  ghost predicate Distinct(entries: seq<Entry>) {
    forall i, j :: 0 <= i < j < |entries| ==> entries[i].fd != entries[j].fd
  }

  ghost function Fds(entries: seq<Entry>): set<Fd> {
    set i | 0 <= i < |entries| :: entries[i].fd
  }

  ghost predicate EntryOk(e: Entry, holders: map<nat, Fd>) {
    && e.fd.Eventfd?
    && 1 <= e.cnt <= MAX_USERS_PER_FD
    && e.cnt == |HoldersOf(holders, e.fd)|
  }

  /** What the pool promises between calls: every count is within 1..100 and equals the number
      of current holders, every holder's descriptor is in the pool, and the open eventfds are
      exactly the pooled ones. */
  ghost predicate PoolInv(p: Pool) {
    && Distinct(p.entries)
    && (forall i :: 0 <= i < |p.entries| ==> EntryOk(p.entries[i], p.holders))
    && p.holders.Values <= p.open
    && p.open == Fds(p.entries)
  }

  predicate HasRoom(e: Entry) {
    e.cnt < MAX_USERS_PER_FD
  }

  /** Index of the first entry satisfying `f`, or the length when there is none. */
  function FirstIndex(entries: seq<Entry>, f: Entry -> bool): (i: nat)
    ensures i <= |entries|
    ensures i < |entries| ==> f(entries[i])
    ensures forall j :: 0 <= j < i ==> !f(entries[j])
  {
    if entries == [] then 0
    else if f(entries[0]) then 0
    else
      var r := FirstIndex(entries[1..], f);
      assert forall j :: 0 < j < r + 1 ==> !f(entries[j]) by {
        forall j | 0 < j < r + 1 ensures !f(entries[j]) { assert entries[j] == entries[1..][j - 1]; }
      }
      r + 1
  }

  datatype PoolOp = Get(user: nat) | Put(user: nat)

  /** `user` takes a descriptor: the first entry with room is shared, otherwise a new eventfd is opened. */
  ghost predicate GetStep(p: Pool, user: nat, p': Pool) {
    && user !in p.holders
    && user in p'.holders
    && var fd := p'.holders[user];
       var i := FirstIndex(p.entries, HasRoom);
       && p'.holders == p.holders[user := fd]
       && if i < |p.entries| then
            && fd == p.entries[i].fd
            && p'.entries == p.entries[i := Entry(fd, p.entries[i].cnt + 1)]
            && p'.open == p.open
          else
            && fd.Eventfd? && fd !in p.open
            && p'.entries == [Entry(fd, 1)] + p.entries
            && p'.open == p.open + {fd}
  }

  /** `user` returns its descriptor, which is closed when the count reaches zero. */
  ghost predicate PutStep(p: Pool, user: nat, p': Pool) {
    && user in p.holders
    && var fd := p.holders[user];
       var i := FirstIndex(p.entries, (e: Entry) => e.fd == fd);
       && i < |p.entries|
       && p'.holders == p.holders - {user}
       && if p.entries[i].cnt == 1 then
            p'.entries == p.entries[..i] + p.entries[i + 1..] && p'.open == p.open - {fd}
          else
            p'.entries == p.entries[i := Entry(fd, p.entries[i].cnt - 1)] && p'.open == p.open
  }

  ghost predicate PoolStep(p: Pool, op: PoolOp, p': Pool) {
    match op
    case Get(user) => GetStep(p, user, p')
    case Put(user) => PutStep(p, user, p')
  }

  lemma HoldersAdded(holders: map<nat, Fd>, user: nat, fd: Fd, other: Fd)
    requires user !in holders
    ensures |HoldersOf(holders[user := fd], other)| == |HoldersOf(holders, other)| + if other == fd then 1 else 0
  {
    var h := HoldersOf(holders, other);
    assert HoldersOf(holders[user := fd], other) == if other == fd then h + {user} else h;
  }

  lemma HoldersRemoved(holders: map<nat, Fd>, user: nat, other: Fd)
    requires user in holders
    ensures |HoldersOf(holders - {user}, other)| ==
            |HoldersOf(holders, other)| - if other == holders[user] then 1 else 0
  {
    var h := HoldersOf(holders, other);
    assert HoldersOf(holders - {user}, other) == if other == holders[user] then h - {user} else h;
  }

  lemma NoHolders(holders: map<nat, Fd>, fd: Fd)
    requires |HoldersOf(holders, fd)| == 0
    ensures forall o :: o in holders ==> holders[o] != fd
  {
    forall o | o in holders ensures holders[o] != fd {
      assert HoldersOf(holders, fd) == {};
      assert o !in HoldersOf(holders, fd);
    }
  }

  lemma NotPooled(p: Pool, fd: Fd)
    requires p.holders.Values <= p.open && fd !in p.open
    ensures HoldersOf(p.holders, fd) == {}
  {
  }

  lemma FdsRecounted(entries: seq<Entry>, i: nat, cnt: int)
    requires i < |entries|
    ensures Fds(entries[i := Entry(entries[i].fd, cnt)]) == Fds(entries)
  {
    var after := entries[i := Entry(entries[i].fd, cnt)];
    assert forall k :: 0 <= k < |entries| ==> after[k].fd == entries[k].fd;
  }

  lemma FdsPrepended(e: Entry, entries: seq<Entry>)
    ensures Fds([e] + entries) == {e.fd} + Fds(entries)
  {
    var after := [e] + entries;
    assert after[0] == e;
    assert forall k :: 0 <= k < |entries| ==> after[k + 1] == entries[k];
  }

  lemma FdsRemoved(entries: seq<Entry>, i: nat)
    requires i < |entries| && Distinct(entries)
    ensures Fds(entries[..i] + entries[i + 1..]) == Fds(entries) - {entries[i].fd}
  {
    var after := entries[..i] + entries[i + 1..];
    assert forall k :: 0 <= k < i ==> after[k] == entries[k];
    assert forall k :: i < k < |entries| ==> after[k - 1] == entries[k];
  }

  lemma GetKeepsInv(p: Pool, user: nat, p': Pool)
    requires PoolInv(p) && GetStep(p, user, p')
    ensures PoolInv(p')
  {
    var fd := p'.holders[user];
    var i := FirstIndex(p.entries, HasRoom);
    if i == |p.entries| {
      FdsPrepended(Entry(fd, 1), p.entries);
      NotPooled(p, fd);
    } else {
      FdsRecounted(p.entries, i, p.entries[i].cnt + 1);
    }
    forall k | 0 <= k < |p'.entries| ensures EntryOk(p'.entries[k], p'.holders) {
      HoldersAdded(p.holders, user, fd, p'.entries[k].fd);
    }
  }

  lemma PutKeepsInv(p: Pool, user: nat, p': Pool)
    requires PoolInv(p) && PutStep(p, user, p')
    ensures PoolInv(p')
  {
    var fd := p.holders[user];
    var i := FirstIndex(p.entries, (e: Entry) => e.fd == fd);
    assert p'.holders.Values <= p.holders.Values;
    forall k | 0 <= k < |p'.entries| ensures EntryOk(p'.entries[k], p'.holders) {
      HoldersRemoved(p.holders, user, p'.entries[k].fd);
    }
    if p.entries[i].cnt == 1 {
      FdsRemoved(p.entries, i);
      HoldersRemoved(p.holders, user, fd);
      NoHolders(p'.holders, fd);
    } else {
      FdsRecounted(p.entries, i, p.entries[i].cnt - 1);
    }
  }

  ghost predicate PoolRun(states: seq<Pool>, ops: seq<PoolOp>) {
    && |states| == |ops| + 1
    && forall k :: 0 <= k < |ops| ==> PoolStep(states[k], ops[k], states[k + 1])
  }

  /** Over every interleaving of gets and puts by any number of users, starting from the empty
      pool, the pool invariant holds and each user that took a descriptor and did not yet return
      it still holds an open one. */
  lemma {:induction false} EveryRunKeepsPool(states: seq<Pool>, ops: seq<PoolOp>, k: nat)
    requires PoolRun(states, ops) && k < |states|
    requires states[0] == Pool([], map[], {})
    ensures PoolInv(states[k])
    ensures forall e :: e in states[k].entries ==> 1 <= e.cnt <= 100
    ensures forall o :: o in states[k].holders ==> states[k].holders[o] in states[k].open
  {
    if k > 0 {
      EveryRunKeepsPool(states, ops, k - 1);
      match ops[k - 1]
      case Get(user) => GetKeepsInv(states[k - 1], user, states[k]);
      case Put(user) => PutKeepsInv(states[k - 1], user, states[k]);
    }
  }

  /** A put closes the descriptor exactly when no other user holds it. */
  lemma ClosedByLastHolder(p: Pool, user: nat, p': Pool)
    requires PoolInv(p) && PutStep(p, user, p')
    ensures p.holders[user] !in p'.open <==> HoldersOf(p.holders, p.holders[user]) == {user}
  {
    var fd := p.holders[user];
    var h := HoldersOf(p.holders, fd);
    var i := FirstIndex(p.entries, (e: Entry) => e.fd == fd);
    assert EntryOk(p.entries[i], p.holders);
    assert user in h;
    assert |h| == |h - {user}| + 1;
    assert fd in p.open;
  }

  class ActiveFdPool {
    var entries: seq<Entry>
    var eventfds: set<Fd>
    ghost var holders: map<nat, Fd>

    ghost function View(): Pool
      reads this
    {
      Pool(entries, holders, eventfds)
    }

    ghost predicate Valid()
      reads this
    {
      PoolInv(View())
    }

    constructor ()
      ensures Valid() && View() == Pool([], map[], {})
    {
      entries := [];
      eventfds := {};
      holders := map[];
    }

    /** eventfd(2), assumed to succeed. */
    method OpenEventfd() returns (fd: Fd)
      modifies `eventfds
      ensures fd.Eventfd? && fd !in old(eventfds) && eventfds == old(eventfds) + {fd}
    {
      FreshEventfd(eventfds);
      fd :| fd.Eventfd? && fd !in eventfds;
      eventfds := eventfds + {fd};
    }

    /** active_fd_get */
    method Take(ghost user: nat) returns (fd: Fd)
      requires Valid() && user !in holders
      modifies this
      ensures Valid() && GetStep(old(View()), user, View())
      ensures fd == holders[user] && fd.Eventfd?
    {
      ghost var before := View();
      var i := 0;
      while i < |entries| && entries[i].cnt >= MAX_USERS_PER_FD
        invariant 0 <= i <= |entries|
        invariant forall j :: 0 <= j < i ==> !HasRoom(entries[j])
      {
        i := i + 1;
      }
      assert i == FirstIndex(entries, HasRoom);
      if i < |entries| {
        fd := entries[i].fd;
        entries := entries[i := entries[i].(cnt := entries[i].cnt + 1)];
      } else {
        fd := OpenEventfd();
        entries := [Entry(fd, 1)] + entries;
      }
      holders := holders[user := fd];
      GetKeepsInv(before, user, View());
    }

    /** active_fd_put: the search for the entry never runs off the list. */
    method Return(ghost user: nat, fd: Fd)
      requires Valid() && user in holders && holders[user] == fd
      modifies this
      ensures Valid() && PutStep(old(View()), user, View())
    {
      ghost var before := View();
      assert fd in Fds(entries);
      ghost var at :| 0 <= at < |entries| && entries[at].fd == fd;
      var i := 0;
      while i < |entries| && entries[i].fd != fd
        invariant 0 <= i <= at
        invariant forall j :: 0 <= j < i ==> entries[j].fd != fd
      {
        i := i + 1;
      }
      assert i < |entries|;
      assert i == FirstIndex(entries, (e: Entry) => e.fd == fd);
      entries := entries[i := entries[i].(cnt := entries[i].cnt - 1)];
      if entries[i].cnt == 0 {
        entries := entries[..i] + entries[i + 1..];
        eventfds := eventfds - {fd};
      }
      holders := holders - {user};
      PutKeepsInv(before, user, View());
    }
  }

  ghost function Above(s: set<Fd>): (n: nat)
    ensures forall fd :: fd in s && fd.Eventfd? ==> fd.n < n
  {
    if s == {} then 0
    else
      var fd :| fd in s;
      var n := Above(s - {fd});
      if fd.Eventfd? && fd.n >= n then fd.n + 1 else n
  }

  lemma FreshEventfd(s: set<Fd>)
    ensures exists fd: Fd :: fd.Eventfd? && fd !in s
  {
    assert Eventfd(Above(s)) !in s;
  }
}
