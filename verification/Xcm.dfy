/** libxcm/core/xcm.c and libxcm/tp/common/xcm_tp.c: the calls an application makes on a messaging
    connection, non-blocking and blocking. */
module XcmApi {
  import opened KernelModel
  import opened Lower
  import opened Wire
  import opened MessageBuffer
  import opened TcpSpec
  import opened TcpTransport

  const EINTR := 4

  /** A call that was made, the connection before it, and its answer. */
  datatype Attempt = Attempt(from: Conn, call: Call, r: IoResult)

  class XcmConn {
    const tcp: TcpConn
    var isBlocking: bool

    ghost predicate Valid()
      reads this, tcp, tcp.lower, tcp.sendMbuf, tcp.sendMbuf.data, tcp.receiveMbuf, tcp.receiveMbuf.data
    {
      tcp.Valid()
    }

    constructor (tcp: TcpConn, isBlocking: bool)
      ensures this.tcp == tcp && this.isBlocking == isBlocking
    {
      this.tcp, this.isBlocking := tcp, isBlocking;
    }

    /** xcm_tp_socket_send, with the update that follows every call. */
    method TpSend(msg: Msg) returns (r: IoResult, ghost call: Call)
      requires Valid()
      modifies tcp, tcp.lower, tcp.sendMbuf, tcp.sendMbuf.data
      ensures Valid() && tcp.Awaited() && tcp.condition == old(tcp.condition)
      ensures call.SendCall? && call.m == msg && SendStep(old(tcp.View()), call, tcp.View(), r)
      ensures tcp.sendMbuf.data == old(tcp.sendMbuf.data) || fresh(tcp.sendMbuf.data)
    {
      hide ConnInv, SendStep;
      r, call := tcp.Send(msg);
      tcp.Update();
    }

    /** xcm_tp_socket_receive */
    method TpReceive(capacity: nat) returns (r: IoResult, out: seq<Byte>, ghost call: Call)
      requires Valid()
      modifies tcp, tcp.lower, tcp.sendMbuf, tcp.receiveMbuf, tcp.receiveMbuf.data
      ensures Valid() && tcp.Awaited() && tcp.condition == old(tcp.condition)
      ensures call.ReceiveCall? && call.capacity == capacity && call.out == out
      ensures ReceiveStep(old(tcp.View()), call, tcp.View(), r)
    {
      hide ConnInv, ReceiveStep;
      r, out, call := tcp.Receive(capacity);
      tcp.Update();
    }

    /** xcm_tp_socket_finish */
    method TpFinish() returns (r: IoResult, ghost call: Call)
      requires Valid()
      modifies tcp, tcp.lower, tcp.sendMbuf`wireLen
      ensures Valid() && tcp.Awaited() && tcp.condition == old(tcp.condition)
      ensures call.FinishCall? && FinishStep(old(tcp.View()), call, tcp.View(), r)
    {
      hide ConnInv, FinishStep;
      r, call := tcp.Finish();
      tcp.Update();
    }

    /** await */
    method Await(condition: set<Condition>)
      requires Valid()
      modifies tcp`condition, tcp.lower`condition, tcp.lower`interest, tcp.lower`ringing
      ensures Valid() && tcp.Awaited() && tcp.condition == condition && tcp.View() == old(tcp.View())
    {
      hide ConnInv;
      tcp.condition := condition;
      tcp.Update();
    }

    /** socket_finish. `patience` is the number of times poll(2) returns before a signal
        interrupts it. */
    method SocketFinish(patience: nat) returns (r: IoResult, ghost last: Attempt)
      requires Valid()
      modifies tcp, tcp.lower, tcp.sendMbuf`wireLen
      ensures Valid() && tcp.Awaited()
      ensures tcp.accepted == old(tcp.accepted) && tcp.acked == old(tcp.acked)
      ensures r.Done? ==> NothingPending()
      ensures r.Fail? ==> r.errno != EAGAIN && (r.errno == EINTR || Failed(r.errno))
      ensures last.call.FinishCall? && FinishStep(last.from, last.call, tcp.View(), last.r)
      ensures r != last.r ==>
                r == Fail(EINTR) && last.r.Fail? && last.r.errno in {EAGAIN, EINPROGRESS} && tcp.condition == {}
    {
      hide ConnInv, FinishStep;
      var left := patience;
      while true
        invariant Valid()
        invariant tcp.accepted == old(tcp.accepted) && tcp.acked == old(tcp.acked)
        decreases left
      {
        ghost var before := tcp.View();
        ghost var call;
        r, call := TpFinish();
        last := Attempt(before, call, r);
        FinishOutcome(before, call, tcp.View(), r);
        if r.Done? || (r.errno != EAGAIN && r.errno != EINPROGRESS) {
          return;
        }
        Await({});
        if left == 0 {
          return Fail(EINTR), last;
        }
        left := left - 1;
      }
    }

    /** The connection has failed for good, with this errno. */
    ghost predicate Failed(errno: int)
      reads tcp, tcp.lower
    {
      if tcp.bad then errno == tcp.badnessReason
      else !Usable(tcp.lower.phase) && errno == FailureOf(tcp.lower.phase)
    }

    /** Everything accepted is with the lower socket, and the counters say so. */
    ghost predicate NothingPending()
      requires Valid()
      reads this, tcp, tcp.lower, tcp.sendMbuf, tcp.sendMbuf.data, tcp.receiveMbuf, tcp.receiveMbuf.data
    {
      && tcp.sendMbuf.wireLen == 0 && tcp.lower.phase.Up?
      && ProperMsgs(tcp.accepted) && tcp.lower.written == Frames(tcp.accepted) && tcp.acked == tcp.accepted
      && tcp.cnts.toLowerMsgs == tcp.cnts.fromAppMsgs && tcp.cnts.toLowerBytes == tcp.cnts.fromAppBytes
    }

    /** msg_bsend: however often it is retried, the message is accepted at most once, and exactly
        once on success. */
    method MsgBsend(msg: Msg, patience: nat) returns (r: IoResult, ghost last: Attempt)
      requires Valid()
      modifies tcp, tcp.lower, tcp.sendMbuf, tcp.sendMbuf.data
      ensures Valid() && tcp.Awaited()
      ensures tcp.acked == if r == Done(0) then old(tcp.acked) + [msg] else old(tcp.acked)
      ensures tcp.accepted == old(tcp.accepted) || tcp.accepted == old(tcp.accepted) + [msg]
      ensures r == Done(0) || (r.Fail? && r.errno != EAGAIN)
      ensures last.call.SendCall? && last.call.m == msg && SendStep(last.from, last.call, tcp.View(), last.r)
      ensures last.from.accepted == old(tcp.accepted)
      ensures r == last.r || (r == Fail(EINTR) && last.r == Fail(EAGAIN) && tcp.condition == {Sendable})
      ensures tcp.sendMbuf.data == old(tcp.sendMbuf.data) || fresh(tcp.sendMbuf.data)
    {
      hide ConnInv, SendStep;
      var left := patience;
      while true
        invariant Valid()
        invariant tcp.accepted == old(tcp.accepted) && tcp.acked == old(tcp.acked)
        invariant tcp.sendMbuf.data == old(tcp.sendMbuf.data) || fresh(tcp.sendMbuf.data)
        decreases left
      {
        ghost var before := tcp.View();
        ghost var call;
        r, call := TpSend(msg);
        last := Attempt(before, call, r);
        SendOutcome(before, call, tcp.View(), r);
        if r.Done? || r.errno != EAGAIN {
          return;
        }
        Await({Sendable});
        if left == 0 {
          return Fail(EINTR), last;
        }
        left := left - 1;
      }
    }

    /** xcm_send on a messaging connection. A blocking call that succeeds leaves nothing pending. One
        that fails may have had its message acknowledged all the same: when the wait for the frame
        to leave was interrupted, or the connection failed during it. */
    method XcmSend(msg: Msg, patience: nat) returns (r: IoResult, ghost last: Attempt, ghost after: Conn)
      requires Valid()
      modifies tcp, tcp.lower, tcp.sendMbuf, tcp.sendMbuf.data
      ensures Valid() && tcp.Awaited()
      ensures tcp.accepted == old(tcp.accepted) || tcp.accepted == old(tcp.accepted) + [msg]
      ensures r.Done? ==> tcp.acked == old(tcp.acked) + [msg]
      ensures r.Fail? ==> tcp.acked == old(tcp.acked) || tcp.acked == old(tcp.acked) + [msg]
      ensures r.Fail? && tcp.acked != old(tcp.acked) ==> isBlocking && (r.errno == EINTR || Failed(r.errno))
      ensures r.Done? && isBlocking ==> NothingPending()
      ensures r.Fail? && isBlocking ==> r.errno != EAGAIN
      ensures last.call.SendCall? && last.call.m == msg && SendStep(last.from, last.call, after, last.r)
      ensures last.from.accepted == old(tcp.accepted)
      ensures !isBlocking ==> last.from == old(tcp.View()) && after == tcp.View() && r == last.r
      ensures isBlocking ==> Explains(last.r, r)
    {
      hide ConnInv, SendStep;
      if isBlocking {
        r, last := MsgBsend(msg, patience);
        after := tcp.View();
        if r.Done? {
          ghost var finish;
          r, finish := SocketFinish(patience);
        }
      } else {
        ghost var before := tcp.View();
        ghost var call;
        r, call := TpSend(msg);
        last, after := Attempt(before, call, r), tcp.View();
        SendOutcome(before, call, tcp.View(), r);
      }
    }

    /** The answer of a blocking send, given that of its last attempt: the same, or an interrupted
        wait after one to be tried again, or a wait for the frame to leave that did not succeed. */
    ghost predicate Explains(attempt: IoResult, r: IoResult)
      reads tcp, tcp.lower
    {
      || r == attempt
      || (attempt == Fail(EAGAIN) && r == Fail(EINTR))
      || (attempt == Done(0) && r.Fail? && (r.errno == EINTR || Failed(r.errno)))
    }

    /** xcm_set_blocking: a connection that becomes blocking has nothing pending. */
    method SetBlocking(shouldBlock: bool, patience: nat) returns (r: IoResult)
      requires Valid()
      modifies this, tcp, tcp.lower, tcp.sendMbuf`wireLen
      ensures Valid()
      ensures r.Done? ==> isBlocking == shouldBlock
      ensures r.Fail? ==> isBlocking == old(isBlocking) && shouldBlock && (r.errno == EINTR || Failed(r.errno))
      ensures r.Done? && !old(isBlocking) && shouldBlock ==> NothingPending()
    {
      hide ConnInv;
      if isBlocking == shouldBlock {
        return Done(0);
      }
      r := Done(0);
      if !isBlocking {
        ghost var finish;
        r, finish := SocketFinish(patience);
        if r.Fail? {
          return;
        }
      }
      isBlocking := shouldBlock;
    }
  }

  /** What a send means for the history, once the invariant is known. */
  lemma SendOutcome(c: Conn, call: Call, c': Conn, r: IoResult)
    requires ConnInv(c) && call.SendCall? && SendStep(c, call, c', r)
    ensures c'.acked == if r == Done(0) then c.acked + [call.m] else c.acked
    ensures c'.accepted == c.accepted || c'.accepted == c.accepted + [call.m]
    ensures r.Fail? && r.errno == EAGAIN ==> c'.accepted == c.accepted
    ensures r.Done? ==> r == Done(0)
  {
    SendKeepsInv(c, call, c', r);
    hide ConnInv, FlushStep;
    if ProperMsg(call.m) && !c.bad {
      FlushIsQuiet(c, call.mid, call.flushed);
      if call.flushed.Done? {
        FlushIsQuiet(Accepted(call.mid, call.m), call.fin, call.pushed);
      }
    }
  }

  lemma FlushIsQuiet(c: Conn, c': Conn, r: IoResult)
    requires FlushStep(c, c', r)
    ensures c'.accepted == c.accepted && c'.acked == c.acked && (r.Done? ==> r == Done(0) && c'.sbuf == [])
  {
  }

  /** A successful finish means that nothing is pending. */
  lemma FinishOutcome(c: Conn, call: Call, c': Conn, r: IoResult)
    requires ConnInv(c) && call.FinishCall? && FinishStep(c, call, c', r)
    ensures c'.accepted == c.accepted && c'.acked == c.acked
    ensures !c.bad && !Usable(c'.phase) ==> r == Fail(FailureOf(c'.phase))
    ensures r.Fail? ==> r.errno == EAGAIN || (if c'.bad then r.errno == c'.reason
                                              else !Usable(c'.phase) && r.errno == FailureOf(c'.phase))
    ensures r.Done? ==>
              && c'.sbuf == [] && c'.phase.Up?
              && ProperMsgs(c'.accepted) && c'.written == Frames(c'.accepted) && c'.acked == c'.accepted
              && c'.cnts.toLowerMsgs == c'.cnts.fromAppMsgs && c'.cnts.toLowerBytes == c'.cnts.fromAppBytes
  {
  }

  /** bytestream_bsend: on success the lower socket has taken the whole buffer, once and in order;
      otherwise a proper prefix of it. */
  method BytestreamBsend(stream: LowerStream, buf: seq<Byte>, patience: nat) returns (r: IoResult, ghost taken: nat)
    requires ProperPhase(stream.phase)
    modifies stream
    ensures ProperPhase(stream.phase)
    ensures taken <= |buf| && stream.written == old(stream.written) + buf[..taken]
    ensures if r.Done? then r.n == taken == |buf| else r.errno != EAGAIN && (buf != [] ==> taken < |buf|)
    ensures old(stream.calls) < stream.calls && stream.calls[|stream.calls| - 1].SendOp?
    ensures r.Fail? ==> var last := stream.calls[|stream.calls| - 1].r;
                        r == last || (r == Fail(EINTR) && last == Fail(EAGAIN) && stream.condition == {Sendable})
  {
    var sent, left := 0, patience;
    while true
      invariant ProperPhase(stream.phase) && sent <= |buf| && (buf != [] ==> sent < |buf|)
      invariant stream.written == old(stream.written) + buf[..sent] && old(stream.calls) <= stream.calls
      decreases |buf| - sent, left
    {
      taken := sent;
      r := stream.Send(buf[sent..]);
      if r.Fail? {
        if r.errno != EAGAIN {
          return;
        }
        stream.condition := {Sendable};
        stream.Update();
        if left == 0 {
          return Fail(EINTR), taken;
        }
        left := left - 1;
      } else {
        assert buf[..sent] + buf[sent..][..r.n] == buf[..sent + r.n];
        sent := sent + r.n;
      }
      if sent >= |buf| {
        return Done(sent), sent;
      }
    }
  }

  /** The wake-up promise, read from the application's side, holds with one exception: a failed
      connection that does not ring was failed by an oversized header. Over BTCP, the failed
      connections that do not ring are exactly those. */
  lemma SilentOnlyAfterBadHeader(conn: TcpConn)
    requires conn.Valid() && conn.Awaited()
    ensures (conn.bad || !Usable(conn.lower.phase)) && !conn.lower.ringing ==> conn.bad
    ensures conn.lower.direct ==>
              ((conn.bad || !Usable(conn.lower.phase)) && !conn.lower.ringing <==> conn.bad)
  {
    hide CoreInv, AckInv;
  }

  /** The exception occurs: one read of the header 01 00 00 00 leads there. */
  lemma BadHeaderIsReachable()
    ensures exists c: Conn, call, c' ::
              Initial(c) && Step(c, call, c', Fail(EPROTO)) && c'.bad && c'.phase.Up? && c'.sbuf == []
  {
    var c := Conn(false, 0, [], 0, [], NO_COUNTS, Up, [], [], [], [], [], [], []);
    var header: seq<Byte> := [1, 0, 0, 0];
    var c' := c.(bad := true, reason := EPROTO, rbuf := header, read := header, calls := [ReceiveOp(4, Done(4))]);
    var call := ReceiveCall(1, c, Done(0), []);
    assert c.rbuf + c'.read[|c.read|..] == header;
    assert DecodeLen(header[..HDR_LEN]) == 0x100_0000;
    assert Step(c, call, c', Fail(EPROTO));
  }
}
