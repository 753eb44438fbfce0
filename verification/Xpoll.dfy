/** libxcm/core/xpoll.c: one epoll instance, a growable table of descriptor registrations, and
    a table of software "bells" that share one always-readable descriptor. */
module XpollTable {
  import opened KernelModel
  import opened ActiveFd

  type Events = set<EpollEvent>

  datatype FdReg = FdReg(fd: Fd, event: Events)
  datatype BellReg = BellReg(free: bool, ringing: bool)

  /** Number of occupied slots. */
  function UsedSlots(slots: seq<FdReg>): nat {
    if slots == [] then 0 else UsedSlots(slots[1..]) + if slots[0].fd == NoFd then 0 else 1
  }

  /** Number of bells in use. */
  function LiveBells(slots: seq<BellReg>): nat {
    if slots == [] then 0 else LiveBells(slots[1..]) + if slots[0].free then 0 else 1
  }

  function NextCapacity(capacity: nat): nat {
    (capacity + 1) * 2
  }

  const FREE_SLOT := FdReg(NoFd, {})
  const FREE_BELL := BellReg(true, false)

  lemma {:induction false} UsedSlotsUpdate(slots: seq<FdReg>, i: nat, reg: FdReg)
    requires i < |slots|
    ensures UsedSlots(slots[i := reg]) ==
            UsedSlots(slots) - (if slots[i].fd == NoFd then 0 else 1) + (if reg.fd == NoFd then 0 else 1)
  {
    if i == 0 {
      assert slots[i := reg][1..] == slots[1..];
    } else {
      assert slots[i := reg][1..] == slots[1..][i - 1 := reg];
      UsedSlotsUpdate(slots[1..], i - 1, reg);
    }
  }

  lemma {:induction false} UsedSlotsGrow(slots: seq<FdReg>, more: seq<FdReg>)
    requires forall k :: 0 <= k < |more| ==> more[k].fd == NoFd
    ensures UsedSlots(slots + more) == UsedSlots(slots) && (slots == [] ==> UsedSlots(more) == 0)
  {
    if slots == [] {
      assert slots + more == more;
      if more != [] {
        UsedSlotsGrow([], more[1..]);
        assert [] + more[1..] == more[1..];
      }
    } else {
      assert (slots + more)[1..] == slots[1..] + more;
      UsedSlotsGrow(slots[1..], more);
    }
  }

  /** A free slot exists whenever the count is below the capacity. */
  lemma {:induction false} FreeSlotExists(slots: seq<FdReg>)
    ensures UsedSlots(slots) <= |slots|
    ensures UsedSlots(slots) < |slots| <==> exists i :: 0 <= i < |slots| && slots[i].fd == NoFd
  {
    if slots != [] {
      FreeSlotExists(slots[1..]);
      assert forall i :: 0 < i < |slots| ==> slots[i] == slots[1..][i - 1];
    }
  }

  lemma {:induction false} LiveBellsUpdate(slots: seq<BellReg>, i: nat, reg: BellReg)
    requires i < |slots|
    ensures LiveBells(slots[i := reg]) ==
            LiveBells(slots) - (if slots[i].free then 0 else 1) + (if reg.free then 0 else 1)
  {
    if i == 0 {
      assert slots[i := reg][1..] == slots[1..];
    } else {
      assert slots[i := reg][1..] == slots[1..][i - 1 := reg];
      LiveBellsUpdate(slots[1..], i - 1, reg);
    }
  }

  lemma {:induction false} LiveBellsGrow(slots: seq<BellReg>, more: seq<BellReg>)
    requires forall k :: 0 <= k < |more| ==> more[k].free
    ensures LiveBells(slots + more) == LiveBells(slots) && (slots == [] ==> LiveBells(more) == 0)
  {
    if slots == [] {
      assert slots + more == more;
      if more != [] {
        LiveBellsGrow([], more[1..]);
        assert [] + more[1..] == more[1..];
      }
    } else {
      assert (slots + more)[1..] == slots[1..] + more;
      LiveBellsGrow(slots[1..], more);
    }
  }

  lemma {:induction false} FreeBellExists(slots: seq<BellReg>)
    ensures LiveBells(slots) <= |slots|
    ensures LiveBells(slots) < |slots| <==> exists i :: 0 <= i < |slots| && slots[i].free
    ensures LiveBells(slots) == 0 <==> forall i :: 0 <= i < |slots| ==> slots[i].free
  {
    if slots != [] {
      FreeBellExists(slots[1..]);
      assert forall i :: 0 < i < |slots| ==> slots[i] == slots[1..][i - 1];
    }
  }

  /** Descriptors in the table are distinct, and the epoll instance watches exactly the
      registrations with a non-empty event. */
  ghost predicate TableMatchesEpoll(slots: seq<FdReg>, epoll: map<Fd, Events>) {
    && (forall i, j :: 0 <= i < j < |slots| && slots[i].fd != NoFd ==> slots[i].fd != slots[j].fd)
    && (forall i :: 0 <= i < |slots| && slots[i].fd != NoFd ==>
          if slots[i].event == {} then slots[i].fd !in epoll
          else slots[i].fd in epoll && epoll[slots[i].fd] == slots[i].event)
    && (forall fd :: fd in epoll ==> fd in SlotFds(slots))
  }

  ghost function SlotFds(slots: seq<FdReg>): set<Fd> {
    set i | 0 <= i < |slots| && slots[i].fd != NoFd :: slots[i].fd
  }

  /** The registrations made by the users of the instance, by id. */
  ghost function UserRegs(slots: seq<FdReg>): map<int, FdReg> {
    map i | 0 <= i < |slots| && slots[i].fd.Desc? :: slots[i]
  }

  ghost function BellMap(slots: seq<BellReg>): map<int, bool> {
    map i | 0 <= i < |slots| && !slots[i].free :: slots[i].ringing
  }

  /** Every descriptor registered by the users is an open one. */
  ghost predicate RegsOpen(regs: map<int, FdReg>, open: set<Fd>) {
    forall id :: id in regs ==> regs[id].fd in open
  }

  ghost predicate Unregistered(regs: map<int, FdReg>, fd: Fd) {
    forall id :: id in regs ==> regs[id].fd != fd
  }

  /** A table in which one user has given up id `lost` (if not negative) and obtained `got` (likewise). */
  ghost function Swapped<V>(m: map<int, V>, lost: int, got: int, v: V): map<int, V> {
    var less := if lost >= 0 then m - {lost} else m;
    if got >= 0 then less[got := v] else less
  }

  ghost predicate SomeRinging(bells: map<int, bool>) {
    exists id :: id in bells && bells[id]
  }

  /** The XCM descriptor, an epoll instance, is readable when some watched descriptor is ready
      for something it is watched for. */
  ghost predicate XcmFdReadable(epoll: map<Fd, Events>, ready: map<Fd, Events>) {
    exists fd :: fd in epoll && fd in ready && epoll[fd] * ready[fd] != {}
  }

  lemma MakesReadable(epoll: map<Fd, Events>, ready: map<Fd, Events>, fd: Fd, e: EpollEvent)
    requires fd in epoll && fd in ready && e in epoll[fd] && e in ready[fd]
    ensures XcmFdReadable(epoll, ready)
  {
    assert e in epoll[fd] * ready[fd];
  }

  class Xpoll {
    const pool: ActiveFdPool
    ghost const me: nat

    var epoll: map<Fd, Events>

    var fdRegs: seq<FdReg>
    var numFdRegs: nat

    var activeFd: Fd
    var activeFdRegId: int
    var bellRegs: seq<BellReg>
    var numBellRegs: nat

    /** What the users of this instance see: their registrations and their bells, by id. */
    ghost var regs: map<int, FdReg>
    ghost var bells: map<int, bool>

    ghost predicate TableOk()
      reads this
    {
      && numFdRegs == UsedSlots(fdRegs)
      && TableMatchesEpoll(fdRegs, epoll)
      && regs == UserRegs(fdRegs)
    }

    ghost predicate BellsOk()
      reads this
    {
      && numBellRegs == LiveBells(bellRegs)
      && bells == BellMap(bellRegs)
    }

    /** The active descriptor, when there is one, is the only eventfd in the table. */
    ghost predicate ActiveSlotOk()
      reads this
    {
      && (activeFd != NoFd ==>
            activeFd.Eventfd? && 0 <= activeFdRegId < |fdRegs| && fdRegs[activeFdRegId].fd == activeFd)
      && (forall i :: 0 <= i < |fdRegs| && fdRegs[i].fd.Eventfd? ==> activeFd != NoFd && i == activeFdRegId)
    }

    /** The active descriptor is held exactly when this instance is a user of the pool. */
    ghost predicate HoldOk()
      reads this, pool
    {
      && (activeFd == NoFd <==> me !in pool.holders)
      && (activeFd != NoFd ==> pool.holders[me] == activeFd)
    }

    ghost predicate ActiveOk()
      reads this, pool
    {
      ActiveSlotOk() && HoldOk()
    }

    /** An active descriptor is held exactly when a bell exists, and its event is EPOLLIN
        exactly when some bell is ringing. */
    ghost predicate Valid()
      reads this, pool
    {
      && TableOk() && BellsOk() && ActiveOk()
      && (activeFd != NoFd <==> bells != map[])
      && (activeFd != NoFd ==> fdRegs[activeFdRegId].event == if SomeRinging(bells) then {IN} else {})
    }

    /** xpoll_create */
    constructor (pool: ActiveFdPool, ghost me: nat)
      requires me !in pool.holders
      ensures Valid() && this.pool == pool && this.me == me
      ensures regs == map[] && bells == map[] && epoll == map[]
    {
      this.pool := pool;
      this.me := me;
      epoll := map[];
      fdRegs, numFdRegs := [], 0;
      activeFd, activeFdRegId := NoFd, -1;
      bellRegs, numBellRegs := [], 0;
      regs, bells := map[], map[];
    }

    /** epoll_ctl(2): ADD needs an absent descriptor, MOD and DEL a present one. */
    method EpollAdd(fd: Fd, event: Events)
      requires fd != NoFd && event != {} && fd !in epoll
      modifies `epoll
      ensures epoll == old(epoll)[fd := event]
    {
      epoll := epoll[fd := event];
    }

    method EpollMod(fd: Fd, event: Events)
      requires fd != NoFd && event != {} && fd in epoll
      modifies `epoll
      ensures epoll == old(epoll)[fd := event]
    {
      epoll := epoll[fd := event];
    }

    method EpollDel(fd: Fd)
      requires fd in epoll
      modifies `epoll
      ensures epoll == old(epoll) - {fd}
    {
      epoll := epoll - {fd};
    }

    /** find_fd */
    method FindFd(fd: Fd) returns (idx: int)
      ensures idx == -1 ==> forall i :: 0 <= i < |fdRegs| ==> fdRegs[i].fd != fd
      ensures idx != -1 ==> 0 <= idx < |fdRegs| && fdRegs[idx].fd == fd
    {
      for i := 0 to |fdRegs|
        invariant forall j :: 0 <= j < i ==> fdRegs[j].fd != fd
      {
        if fdRegs[i].fd == fd {
          return i;
        }
      }
      return -1;
    }

    /** allocate_fd_reg_idx: a slot that is free now, in a table whose other slots are unchanged. */
    method AllocateFdRegIdx() returns (idx: nat)
      requires TableOk()
      modifies `fdRegs, `numFdRegs
      ensures idx < |fdRegs| && fdRegs[idx].fd == NoFd
      ensures old(fdRegs) <= fdRegs
      ensures forall i :: |old(fdRegs)| <= i < |fdRegs| ==> fdRegs[i].fd == NoFd
      ensures numFdRegs == UsedSlots(fdRegs) + 1
    {
      FreeSlotExists(fdRegs);
      if numFdRegs == |fdRegs| {
        idx := |fdRegs|;
        var more := seq(NextCapacity(|fdRegs|) - |fdRegs|, _ => FREE_SLOT);
        UsedSlotsGrow(fdRegs, more);
        fdRegs := fdRegs + more;
      } else {
        idx := FindFd(NoFd);
      }
      numFdRegs := numFdRegs + 1;
    }

    /** reg_epoll_mod: brings the epoll instance and one slot to a new event. */
    method RegEpollMod(idx: nat, event: Events)
      requires idx < |fdRegs| && fdRegs[idx].fd != NoFd
      requires TableMatchesEpoll(fdRegs, epoll)
      modifies `fdRegs, `epoll
      ensures fdRegs == old(fdRegs)[idx := FdReg(old(fdRegs)[idx].fd, event)]
      ensures TableMatchesEpoll(fdRegs, epoll)
      ensures fdRegs[idx].fd in epoll <==> event != {}
    {
      var reg := fdRegs[idx];
      if reg.event == event {
        return;
      }
      if reg.event == {} && event != {} {
        EpollAdd(reg.fd, event);
      } else if reg.event != {} && event != {} {
        EpollMod(reg.fd, event);
      } else {
        EpollDel(reg.fd);
      }
      ghost var before := fdRegs;
      fdRegs := fdRegs[idx := reg.(event := event)];
      SameFds(before, fdRegs);
    }

    /** The body shared by all callers of xpoll_fd_reg_add. */
    method AddReg(fd: Fd, event: Events) returns (idx: nat)
      requires TableOk() && fd != NoFd
      requires forall i :: 0 <= i < |fdRegs| ==> fdRegs[i].fd != fd
      modifies `fdRegs, `numFdRegs, `epoll, `regs
      ensures TableOk()
      ensures idx !in old(regs) && regs == if fd.Desc? then old(regs)[idx as int := FdReg(fd, event)] else old(regs)
      ensures |old(fdRegs)| <= |fdRegs| && idx < |fdRegs| && fdRegs[idx] == FdReg(fd, event)
      ensures idx < |old(fdRegs)| ==> old(fdRegs)[idx].fd == NoFd
      ensures forall i :: 0 <= i < |old(fdRegs)| && i != idx ==> fdRegs[i] == old(fdRegs)[i]
      ensures forall i :: |old(fdRegs)| <= i < |fdRegs| && i != idx ==> fdRegs[i].fd == NoFd
    {
      hide TableMatchesEpoll, UsedSlots, UserRegs, SlotFds;
      ghost var before := fdRegs;
      idx := AllocateFdRegIdx();
      FreeIsUnregistered(before, idx);
      ghost var grown := fdRegs;
      GrownTable(before, grown, epoll);
      UserRegsGrown(before, grown);
      UsedSlotsUpdate(grown, idx, FdReg(fd, event));
      UserRegsSet(grown, idx, FdReg(fd, event));
      SlotAdded(grown, epoll, idx, fd);
      fdRegs := fdRegs[idx := FdReg(fd, {})];
      RegEpollMod(idx, event);
      assert fdRegs == grown[idx := FdReg(fd, event)];
      regs := UserRegs(fdRegs);
    }

    /** The body of xpoll_fd_reg_del. */
    method DelReg(idx: nat)
      requires TableOk() && idx < |fdRegs| && fdRegs[idx].fd != NoFd
      modifies `fdRegs, `numFdRegs, `epoll, `regs
      ensures TableOk()
      ensures regs == old(regs) - {idx}
      ensures fdRegs == old(fdRegs)[idx := FREE_SLOT]
      ensures old(fdRegs)[idx].fd !in epoll
    {
      UsedSlotsUpdate(fdRegs, idx, FREE_SLOT);
      UserRegsSet(fdRegs, idx, FREE_SLOT);
      ghost var before := fdRegs;
      RegEpollMod(idx, {});
      SlotRemoved(fdRegs, epoll, idx);
      fdRegs := fdRegs[idx := fdRegs[idx].(fd := NoFd)];
      assert fdRegs == before[idx := FREE_SLOT];
      numFdRegs := numFdRegs - 1;
      regs := UserRegs(fdRegs);
    }

    /** xpoll_fd_reg_add */
    method FdRegAdd(fd: Fd, event: Events) returns (id: int)
      requires Valid() && fd.Desc? && Unregistered(regs, fd)
      modifies this
      ensures Valid() && bells == old(bells)
      ensures id >= 0 && id !in old(regs) && regs == old(regs)[id := FdReg(fd, event)]
      ensures event != {} ==> fd in epoll && epoll[fd] == event
    {
      forall i | 0 <= i < |fdRegs| ensures fdRegs[i].fd != fd {
        assert fdRegs[i].fd.Desc? ==> i in regs;
      }
      id := AddReg(fd, event);
    }

    /** xpoll_fd_reg_mod */
    method FdRegMod(id: int, event: Events)
      requires Valid() && id in regs
      modifies this
      ensures Valid() && bells == old(bells)
      ensures regs == old(regs)[id := FdReg(old(regs)[id].fd, event)]
      ensures event != {} ==> regs[id].fd in epoll && epoll[regs[id].fd] == event
    {
      UsedSlotsUpdate(fdRegs, id, FdReg(fdRegs[id].fd, event));
      UserRegsSet(fdRegs, id, FdReg(fdRegs[id].fd, event));
      RegEpollMod(id, event);
      regs := UserRegs(fdRegs);
    }

    /** xpoll_fd_reg_del */
    method FdRegDel(id: int)
      requires Valid() && id in regs
      modifies this
      ensures Valid() && bells == old(bells)
      ensures regs == old(regs) - {id}
      ensures old(regs)[id].fd !in epoll
    {
      DelReg(id);
    }

    /** xpoll_fd_reg_del_if_valid */
    method FdRegDelIfValid(id: int)
      requires Valid() && (id >= 0 ==> id in regs)
      modifies this
      ensures Valid() && bells == old(bells)
      ensures regs == if id >= 0 then old(regs) - {id} else old(regs)
    {
      if id >= 0 {
        FdRegDel(id);
      }
    }

    /** allocate_bell_reg_idx, followed by setting the new bell's `ringing`. */
    method AllocateBell(ringing: bool) returns (idx: nat)
      requires BellsOk()
      modifies `bellRegs, `numBellRegs, `bells
      ensures BellsOk()
      ensures idx !in old(bells) && bells == old(bells)[idx := ringing]
    {
      FreeBellExists(bellRegs);
      ghost var before := bellRegs;
      if numBellRegs == |bellRegs| {
        idx := |bellRegs|;
        var more := seq(NextCapacity(|bellRegs|) - |bellRegs|, _ => FREE_BELL);
        LiveBellsGrow(bellRegs, more);
        bellRegs := bellRegs + more;
      } else {
        var i := 0;
        while !bellRegs[i].free
          invariant 0 <= i < |bellRegs|
          invariant forall j :: 0 <= j < i ==> !bellRegs[j].free
          decreases |bellRegs| - i
        {
          i := i + 1;
        }
        idx := i;
      }
      assert BellMap(bellRegs) == BellMap(before);
      LiveBellsUpdate(bellRegs, idx, BellReg(false, ringing));
      bellRegs := bellRegs[idx := BellReg(false, ringing)];
      numBellRegs := numBellRegs + 1;
      bells := BellMap(bellRegs);
      assert bells == BellMap(before)[idx as int := ringing];
    }

    /** has_ringing_bell */
    method HasRingingBell() returns (found: bool)
      requires BellsOk()
      ensures found <==> SomeRinging(bells)
    {
      for i := 0 to |bellRegs|
        invariant forall j :: 0 <= j < i ==> bellRegs[j].free || !bellRegs[j].ringing
      {
        if !bellRegs[i].free && bellRegs[i].ringing {
          assert bells[i];
          return true;
        }
      }
      return false;
    }

    method DeregisterActive()
      requires TableOk() && BellsOk() && ActiveSlotOk() && activeFd != NoFd
      modifies this
      ensures TableOk() && BellsOk() && ActiveSlotOk() && activeFd == NoFd
      ensures regs == old(regs) && bells == old(bells)
    {
      hide TableMatchesEpoll, UsedSlots, LiveBells, BellMap;
      assert activeFdRegId !in regs;
      hide UserRegs;
      DelReg(activeFdRegId);
      activeFdRegId := -1;
      activeFd := NoFd;
    }

    method RegisterActive(fd: Fd)
      requires TableOk() && BellsOk() && ActiveSlotOk() && activeFd == NoFd && fd.Eventfd?
      modifies this
      ensures TableOk() && BellsOk() && ActiveSlotOk() && activeFd == fd
      ensures regs == old(regs) && bells == old(bells)
    {
      activeFd := fd;
      activeFdRegId := AddReg(fd, {});
    }

    /** update_active_fd, first branch: the last bell is gone, so the pooled descriptor is returned. */
    method ReturnActiveFd()
      requires pool.Valid() && TableOk() && BellsOk() && ActiveOk() && activeFd != NoFd
      modifies this, pool
      ensures pool.Valid() && TableOk() && BellsOk() && ActiveOk() && activeFd == NoFd
      ensures regs == old(regs) && bells == old(bells)
      ensures OthersKept(old(pool.holders), pool.holders, me)
    {
      var fd := activeFd;
      DeregisterActive();
      pool.Return(me, fd);
    }

    /** update_active_fd, second branch: the first bell appears, so a pooled descriptor is taken. */
    method TakeActiveFd()
      requires pool.Valid() && TableOk() && BellsOk() && ActiveOk() && activeFd == NoFd
      modifies this, pool
      ensures pool.Valid() && TableOk() && BellsOk() && ActiveOk() && activeFd != NoFd
      ensures regs == old(regs) && bells == old(bells)
      ensures OthersKept(old(pool.holders), pool.holders, me)
    {
      var fd := pool.Take(me);
      RegisterActive(fd);
    }

    /** The tail of update_active_fd: an active descriptor is polled while a bell rings. */
    method SetActiveEvent()
      requires TableOk() && BellsOk() && ActiveOk()
      requires activeFd != NoFd <==> bells != map[]
      modifies this
      ensures Valid()
      ensures regs == old(regs) && bells == old(bells)
    {
      if activeFd != NoFd {
        var ringing := HasRingingBell();
        var event: Events := if ringing then {IN} else {};
        UsedSlotsUpdate(fdRegs, activeFdRegId, FdReg(activeFd, event));
        UserRegsSet(fdRegs, activeFdRegId, FdReg(activeFd, event));
        RegEpollMod(activeFdRegId, event);
      }
    }

    /** update_active_fd */
    method UpdateActiveFd()
      requires pool.Valid() && TableOk() && BellsOk() && ActiveOk()
      modifies this, pool
      ensures pool.Valid() && Valid()
      ensures regs == old(regs) && bells == old(bells)
      ensures OthersKept(old(pool.holders), pool.holders, me)
    {
      BellCount();
      if numBellRegs == 0 && activeFd != NoFd {
        ReturnActiveFd();
      } else if numBellRegs > 0 && activeFd == NoFd {
        TakeActiveFd();
      }
      SetActiveEvent();
    }

    /** xpoll_bell_reg_add */
    method BellRegAdd(ringing: bool) returns (id: int)
      requires pool.Valid() && Valid()
      modifies this, pool
      ensures pool.Valid() && Valid() && regs == old(regs)
      ensures id >= 0 && id !in old(bells) && bells == old(bells)[id := ringing]
      ensures OthersKept(old(pool.holders), pool.holders, me)
    {
      id := AllocateBell(ringing);
      UpdateActiveFd();
    }

    /** Overwrites one bell in use, keeping the count. */
    method SetBell(id: int, reg: BellReg)
      requires BellsOk() && id in bells
      modifies `bellRegs, `numBellRegs, `bells
      ensures BellsOk()
      ensures bells == if reg.free then old(bells) - {id} else old(bells)[id := reg.ringing]
    {
      ghost var before := bellRegs;
      LiveBellsUpdate(bellRegs, id, reg);
      bellRegs := bellRegs[id := reg];
      if reg.free {
        numBellRegs := numBellRegs - 1;
      }
      bells := BellMap(bellRegs);
      assert bells == if reg.free then BellMap(before) - {id} else BellMap(before)[id := reg.ringing];
    }

    /** xpoll_bell_reg_mod */
    method BellRegMod(id: int, ringing: bool)
      requires pool.Valid() && Valid() && id in bells
      modifies this, pool
      ensures pool.Valid() && Valid() && regs == old(regs)
      ensures bells == old(bells)[id := ringing]
      ensures OthersKept(old(pool.holders), pool.holders, me)
    {
      if bellRegs[id].ringing != ringing {
        SetBell(id, bellRegs[id].(ringing := ringing));
        UpdateActiveFd();
      }
    }

    /** xpoll_bell_reg_del */
    method BellRegDel(id: int)
      requires pool.Valid() && Valid() && id in bells
      modifies this, pool
      ensures pool.Valid() && Valid() && regs == old(regs)
      ensures bells == old(bells) - {id}
      ensures OthersKept(old(pool.holders), pool.holders, me)
    {
      SetBell(id, bellRegs[id].(free := true));
      UpdateActiveFd();
    }

    /** xpoll_destroy */
    method Destroy()
      requires Valid() && pool.Valid()
      modifies pool
      ensures pool.Valid() && pool.holders == old(pool.holders) - {me}
    {
      if activeFd != NoFd {
        pool.Return(me, activeFd);
      }
    }

    /** The interest list of the kernel is exactly the registrations with a non-empty event, plus
        the active descriptor while a bell rings. */
    lemma WhatIsPolled(fd: Fd, event: Events)
      requires Valid() && event != {}
      ensures fd in epoll && epoll[fd] == event <==>
              || (exists id :: id in regs && regs[id] == FdReg(fd, event))
              || (fd == activeFd != NoFd && SomeRinging(bells) && event == {IN})
    {
      if fd in epoll && epoll[fd] == event {
        var i :| 0 <= i < |fdRegs| && fdRegs[i].fd == fd;
        if fd.Desc? {
          assert i in regs && regs[i] == FdReg(fd, event);
        }
      }
    }

    /** No descriptor is registered twice. */
    lemma RegisteredOnce(i: int, j: int)
      requires Valid() && i in regs && j in regs && i != j
      ensures regs[i].fd != regs[j].fd
    {
    }

    /** What the other users of the pool do to it does not disturb this instance. */
    twostate lemma KeptByOthers(other: nat)
      requires old(Valid()) && unchanged(this) && me != other
      requires OthersKept(old(pool.holders), pool.holders, other)
      ensures Valid()
    {
      KeptHold(old(pool.holders), pool.holders, other, me);
    }

    lemma BellCount()
      requires BellsOk()
      ensures numBellRegs == 0 <==> bells == map[]
    {
      FreeBellExists(bellRegs);
      if bells == map[] {
        forall i | 0 <= i < |bellRegs| ensures bellRegs[i].free {
          assert i !in bells;
        }
      }
    }
  }

  lemma UserRegsSet(slots: seq<FdReg>, idx: nat, reg: FdReg)
    requires idx < |slots|
    ensures UserRegs(slots[idx := reg]) ==
              if reg.fd.Desc? then UserRegs(slots)[idx as int := reg] else UserRegs(slots) - {idx}
  {
  }

  lemma FreeIsUnregistered(slots: seq<FdReg>, idx: nat)
    requires idx < |slots| ==> slots[idx].fd == NoFd
    ensures idx !in UserRegs(slots)
  {
  }

  lemma UserRegsGrown(before: seq<FdReg>, after: seq<FdReg>)
    requires before <= after
    requires forall i :: |before| <= i < |after| ==> after[i].fd == NoFd
    ensures UserRegs(after) == UserRegs(before)
  {
  }

  /** No other instance's hold on the pool has changed. */
  ghost predicate OthersKept(before: map<nat, Fd>, after: map<nat, Fd>, me: nat) {
    before - {me} == after - {me}
  }

  lemma KeptHold(before: map<nat, Fd>, after: map<nat, Fd>, other: nat, me: nat)
    requires OthersKept(before, after, other) && me != other
    ensures (me in before <==> me in after) && (me in before ==> after[me] == before[me])
  {
    var kept: map<nat, Fd> := before - {other};
    assert me in before <==> me in kept;
    assert me in after <==> me in kept;
    assert me in kept ==> kept[me] == before[me] == after[me];
  }

  lemma SameFds(before: seq<FdReg>, after: seq<FdReg>)
    requires |before| == |after|
    requires forall i :: 0 <= i < |before| ==> before[i].fd == after[i].fd
    ensures SlotFds(before) == SlotFds(after)
  {
  }

  lemma GrownTable(before: seq<FdReg>, after: seq<FdReg>, epoll: map<Fd, Events>)
    requires TableMatchesEpoll(before, epoll)
    requires before <= after
    requires forall i :: |before| <= i < |after| ==> after[i].fd == NoFd
    ensures TableMatchesEpoll(after, epoll)
  {
  }

  lemma SlotAdded(before: seq<FdReg>, epoll: map<Fd, Events>, idx: nat, fd: Fd)
    requires TableMatchesEpoll(before, epoll) && idx < |before| && before[idx].fd == NoFd && fd != NoFd
    requires forall i :: 0 <= i < |before| ==> before[i].fd != fd
    ensures TableMatchesEpoll(before[idx := FdReg(fd, {})], epoll)
  {
    var after := before[idx := FdReg(fd, {})];
    assert forall i :: 0 <= i < |before| && i != idx ==> after[i] == before[i];
    assert SlotFds(before) <= SlotFds(after);
    assert fd !in SlotFds(before);
  }

  lemma SlotRemoved(before: seq<FdReg>, epoll: map<Fd, Events>, idx: nat)
    requires TableMatchesEpoll(before, epoll) && idx < |before| && before[idx].event == {}
    ensures TableMatchesEpoll(before[idx := FREE_SLOT], epoll)
  {
    var after := before[idx := FREE_SLOT];
    forall fd | fd in epoll ensures fd in SlotFds(after) {
      var i :| 0 <= i < |before| && before[i].fd == fd;
      assert i != idx ==> after[i] == before[i];
    }
  }
}
