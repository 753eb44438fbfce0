/** libxcm/tp/tcp/xcm_tp_tcp.c: messages over a byte stream, which is any that meets the relations
    of module Lower. */
module TcpTransport {
  import opened KernelModel
  import opened Lower
  import opened Wire
  import opened MessageBuffer
  import opened TcpSpec

  /** How an attempt to fill the receive buffer ended: with all the bytes asked for, or with an
      answer for the caller. */
  datatype Progress = Full | Stop(r: IoResult)

  /** A receive has stopped with answer `r`, for the reason given by the last read. */
  ghost predicate Halted(c: Conn, r: IoResult) {
    && c.calls != [] && StoppedFor(c.calls[|c.calls| - 1], Missing(c.rbuf), r)
    && (r.Done? <==> c.phase.Closed?) && (r.Fail? ==> r.errno == FailureOf(c.phase))
  }

  lemma GrownTwice(a: Conn, b: Conn, c: Conn)
    requires Grown(a, b) && Grown(b, c) && (b.read != a.read ==> b.phase.Up? || Usable(a.phase))
    ensures Grown(a, c)
  {
  }

  lemma SameHeader(s: seq<Byte>, t: seq<Byte>)
    requires HDR_LEN <= |s| && s <= t
    ensures t[..HDR_LEN] == s[..HDR_LEN]
  {
  }

  /** Only reads have happened, and what was read is in the receive buffer. */
  ghost predicate Grown(c: Conn, c': Conn) {
    && c.read <= c'.read && c.calls <= c'.calls && Forward(c.phase, c'.phase) && ProperPhase(c'.phase)
    && (c'.read != c.read ==> Usable(c.phase))
    && c' == c.(read := c'.read, calls := c'.calls, phase := c'.phase, rbuf := c.rbuf + c'.read[|c.read|..])
  }

  /** The delivery at the end of tcp_receive, when the buffer holds the frame of `m`. */
  function Delivered(c: Conn, m: Msg, out: seq<Byte>): Conn {
    c.(rbuf := [], assembled := c.assembled + [m], delivered := c.delivered + [out],
       cnts := c.cnts.(fromLowerBytes := c.cnts.fromLowerBytes + |m|, fromLowerMsgs := c.cnts.fromLowerMsgs + 1,
                       toAppBytes := c.cnts.toAppBytes + |out|, toAppMsgs := c.cnts.toAppMsgs + 1))
  }

  lemma ShortHead(s: seq<Byte>)
    requires |s| < HDR_LEN
    ensures HeadOf(s) == NeedMore
  {
  }

  lemma BufferedHead(c: Conn)
    requires ConnInv(c)
    ensures !c.bad ==> HeadOf(c.rbuf) == NeedMore || (HeadOf(c.rbuf) == EmptyFrame && |c.rbuf| == HDR_LEN)
  {
  }

  /** A valid header alone is never a complete frame. */
  lemma HeadOfHeader(s: seq<Byte>)
    requires |s| == HDR_LEN && HeadOf(s) != TooLong
    ensures HeadOf(s) == NeedMore || HeadOf(s) == EmptyFrame
  {
  }

  lemma PayloadOf(s: seq<Byte>)
    requires HeadOf(s).Complete? && |s| == HDR_LEN + |HeadOf(s).msg|
    ensures HeadOf(s).msg == s[HDR_LEN..] && DecodeLen(s[..HDR_LEN]) == |s| - HDR_LEN
  {
  }

  lemma ReceiveStopped(c: Conn, g: Conn, capacity: nat, r: IoResult)
    requires Grown(c, g) && c.calls < g.calls && Halted(g, r)
    requires HeadOf(g.rbuf) == NeedMore || (HeadOf(g.rbuf) == EmptyFrame && |g.rbuf| == HDR_LEN)
    ensures AssembleStep(c, capacity, g, r, [])
  {
  }

  lemma ReceiveTooLong(c: Conn, g: Conn, capacity: nat)
    requires Grown(c, g) && c.calls < g.calls && HeadOf(g.rbuf) == TooLong && |g.rbuf| == HDR_LEN
    requires g.phase.Up?
    ensures AssembleStep(c, capacity, g.(bad := true, reason := EPROTO), Fail(EPROTO), [])
  {
  }

  lemma ReceiveComplete(c: Conn, g: Conn, capacity: nat, m: Msg, out: seq<Byte>)
    requires Grown(c, g) && c.calls < g.calls && HeadOf(g.rbuf) == Complete(m) && |g.rbuf| == HDR_LEN + |m|
    requires g.phase.Up?
    requires FitsInto(m, capacity, out)
    ensures AssembleStep(c, capacity, Delivered(g, m, out), Done(|out|), out)
  {
  }

  class TcpConn {
    const lower: LowerStream
    const sendMbuf: Mbuf
    const receiveMbuf: Mbuf
    var mbufSent: nat
    var bad: bool
    var badnessReason: int
    var cnts: Counters
    var condition: set<Condition>

    ghost var accepted: seq<Msg>
    ghost var acked: seq<Msg>
    ghost var assembled: seq<Msg>
    ghost var delivered: seq<Msg>

    ghost predicate BuffersOk()
      reads this, sendMbuf, receiveMbuf, lower
    {
      && sendMbuf.Valid() && receiveMbuf.Valid() && sendMbuf != receiveMbuf && sendMbuf.data != receiveMbuf.data
      && ProperPhase(lower.phase)
    }

    ghost predicate Shape()
      reads this, sendMbuf, receiveMbuf, lower
    {
      && BuffersOk()
      && (if sendMbuf.wireLen == 0 then mbufSent == 0 else HDR_LEN <= sendMbuf.wireLen && mbufSent < sendMbuf.wireLen)
    }

    ghost function View(): Conn
      requires BuffersOk()
      reads this, lower, sendMbuf, sendMbuf.data, receiveMbuf, receiveMbuf.data
    {
      Conn(bad, badnessReason, sendMbuf.Wire(), mbufSent, receiveMbuf.Wire(), cnts, lower.phase,
           lower.written, lower.read, lower.calls, accepted, acked, assembled, delivered)
    }

    ghost predicate Valid()
      reads this, lower, sendMbuf, sendMbuf.data, receiveMbuf, receiveMbuf.data
    {
      Shape() && ConnInv(View())
    }

    /** tcp_init on a lower socket that has just been set up. */
    constructor (lower: LowerStream)
      requires Usable(lower.phase) && lower.written == [] && lower.read == [] && lower.calls == []
      ensures Valid() && Initial(View()) && this.lower == lower && condition == {}
      ensures fresh(sendMbuf) && fresh(sendMbuf.data) && fresh(receiveMbuf) && fresh(receiveMbuf.data)
    {
      hide ConnInv;
      this.lower := lower;
      sendMbuf := new Mbuf();
      receiveMbuf := new Mbuf();
      mbufSent, bad, badnessReason, cnts, condition := 0, false, 0, NO_COUNTS, {};
      accepted, acked, assembled, delivered := [], [], [], [];
      new;
      InitialInv(View());
    }

    /** One round of the loop in try_finish_send: offers the rest of the frame to the lower socket. */
    method Push() returns (r: IoResult)
      requires Shape() && sendMbuf.wireLen > 0
      modifies `mbufSent, lower`phase, lower`written, lower`calls
      ensures BuffersOk() && old(mbufSent) <= mbufSent <= sendMbuf.wireLen
      ensures View() == Pushed(old(View()), mbufSent, lower.calls, lower.phase)
      ensures lower.calls == old(lower.calls) + [SendOp(sendMbuf.wireLen - old(mbufSent), r)]
      ensures SendRel(old(lower.phase), sendMbuf.wireLen - old(mbufSent), lower.phase, r)
      ensures mbufSent == old(mbufSent) + if r.Done? then r.n else 0
    {
      var buf := sendMbuf.data[mbufSent..sendMbuf.wireLen];
      ghost var wire := sendMbuf.Wire();
      assert buf == wire[mbufSent..];
      r := lower.Send(buf);
      if r.Done? {
        assert buf[..r.n] == wire[mbufSent..mbufSent + r.n];
        mbufSent := mbufSent + r.n;
      }
    }

    /** The frame has been taken by the lower socket. */
    method FrameGone()
      requires BuffersOk() && HDR_LEN <= sendMbuf.wireLen
      modifies `mbufSent, `cnts, sendMbuf`wireLen
      ensures Shape()
      ensures View() == old(View()).(sbuf := [], sent := 0,
                cnts := old(cnts).(toLowerBytes := old(cnts).toLowerBytes + (old(sendMbuf.wireLen) - HDR_LEN),
                                   toLowerMsgs := old(cnts).toLowerMsgs + 1))
    {
      cnts := cnts.(toLowerBytes := cnts.toLowerBytes + (sendMbuf.wireLen - HDR_LEN),
                    toLowerMsgs := cnts.toLowerMsgs + 1);
      sendMbuf.Reset();
      mbufSent := 0;
    }

    /** try_finish_send */
    method TryFinishSend() returns (r: IoResult)
      requires Shape()
      modifies `mbufSent, `cnts, sendMbuf`wireLen, lower`phase, lower`written, lower`calls
      ensures Shape() && FlushStep(old(View()), View(), r)
    {
      hide FlushStep, ConnInv;
      if sendMbuf.wireLen == 0 {
        NothingToFlush(View());
        return Done(0);
      }
      ghost var before := View();
      while true
        invariant Shape() && before.sent <= mbufSent < sendMbuf.wireLen == |before.sbuf|
        invariant View() == Pushed(before, mbufSent, lower.calls, lower.phase)
        invariant before.calls <= lower.calls && Forward(before.phase, lower.phase)
        invariant mbufSent > before.sent ==> Usable(before.phase)
        decreases sendMbuf.wireLen - mbufSent
      {
        ghost var sent, calls, phase := mbufSent, lower.calls, lower.phase;
        r := Push();
        PushedOn(before, sent, calls, phase, mbufSent, lower.calls, lower.phase);
        if r.Fail? {
          FlushStopped(before, mbufSent, lower.calls, lower.phase, r);
          return;
        }
        if mbufSent == sendMbuf.wireLen {
          FlushCompleted(before, lower.calls, lower.phase);
          FrameGone();
          return Done(0);
        }
      }
    }

    /** mbuf_set and the counter in tcp_send. */
    method Accept(msg: Msg)
      requires Shape() && sendMbuf.wireLen == 0 && ProperMsg(msg)
      modifies `cnts, `accepted, sendMbuf, sendMbuf.data
      ensures Shape() && View() == Accepted(old(View()), msg)
      ensures sendMbuf.data == old(sendMbuf.data) || fresh(sendMbuf.data)
    {
      hide Frame;
      sendMbuf.Set(msg);
      accepted := accepted + [msg];
      cnts := cnts.(fromAppBytes := cnts.fromAppBytes + |msg|, fromAppMsgs := cnts.fromAppMsgs + 1);
    }

    /** tcp_send */
    method Send(msg: Msg) returns (r: IoResult, ghost call: Call)
      requires Valid()
      modifies `mbufSent, `cnts, `accepted, `acked, sendMbuf, sendMbuf.data, lower`phase, lower`written, lower`calls
      ensures Valid() && call.SendCall? && call.m == msg && SendStep(old(View()), call, View(), r)
      ensures sendMbuf.data == old(sendMbuf.data) || fresh(sendMbuf.data)
    {
      hide FlushStep, ConnInv, Accepted;
      ghost var before := View();
      call := SendCall(msg, before, Done(0), before, Done(0));
      if |msg| > MSG_MAX {
        return Fail(EMSGSIZE), call;
      }
      if |msg| == 0 {
        return Fail(EINVAL), call;
      }
      if bad {
        return Fail(badnessReason), call;
      }
      r := TryFinishSend();
      call := SendCall(msg, View(), r, View(), Done(0));
      FlushOutcome(before, View(), r);
      if r.Done? {
        Accept(msg);
        ghost var queued := View();
        var pushed := TryFinishSend();
        call := SendCall(msg, call.mid, call.flushed, View(), pushed);
        FlushOutcome(queued, View(), pushed);
        if pushed.Fail? && pushed.errno != EAGAIN {
          r := pushed;
        } else {
          acked := acked + [msg];
        }
      }
      assert SendStep(before, call, View(), r);
      StepKeepsInv(before, call, View(), r);
    }

    /** tcp_finish */
    method Finish() returns (r: IoResult, ghost call: Call)
      requires Valid()
      modifies `mbufSent, `cnts, sendMbuf`wireLen, lower`phase, lower`written, lower`calls
      ensures Valid() && call.FinishCall? && FinishStep(old(View()), call, View(), r)
    {
      hide FlushStep, ConnInv;
      ghost var before := View();
      call := FinishCall(before, Done(0), Done(0));
      if bad {
        return Fail(badnessReason), call;
      }
      var flushed := TryFinishSend();
      ghost var mid := View();
      FlushOutcome(before, mid, flushed);
      var finished := lower.Finish();
      call := FinishCall(mid, flushed, finished);
      r := if finished.Fail? then finished else flushed;
      StepKeepsInv(before, call, View(), r);
    }

    /** buffer_receive: one read for exactly the bytes wanted. */
    method BufferReceive(len: nat) returns (p: Progress)
      requires Shape() && receiveMbuf.wireLen + len <= WIRE_MAX
      modifies receiveMbuf, receiveMbuf.data, lower`phase, lower`read, lower`calls
      ensures Shape() && Grown(old(View()), View())
      ensures old(lower.calls) < lower.calls
      ensures p.Stop? ==>
                StoppedFor(lower.calls[|lower.calls| - 1], len - (receiveMbuf.wireLen - old(receiveMbuf.wireLen)), p.r)
      ensures |receiveMbuf.Wire()| <= old(|receiveMbuf.Wire()|) + len
      ensures p.Full? ==> len > 0 && lower.phase.Up? && |receiveMbuf.Wire()| == old(|receiveMbuf.Wire()|) + len
      ensures p.Stop? ==> len > 0 ==> |receiveMbuf.Wire()| < old(|receiveMbuf.Wire()|) + len
      ensures p.Stop? ==> (p.r.Done? <==> lower.phase.Closed?) && (p.r.Fail? ==> p.r.errno == FailureOf(lower.phase))
      ensures receiveMbuf.data == old(receiveMbuf.data) || fresh(receiveMbuf.data)
    {
      receiveMbuf.EnsureCapacity(receiveMbuf.wireLen + len);
      var r, bytes := lower.Receive(len);
      if r.Fail? || r.n == 0 {
        p := Stop(r);
      } else {
        receiveMbuf.Append(bytes);
        p := if r.n < len then Stop(Fail(EAGAIN)) else Full;
      }
    }

    /** buffer_hdr */
    method BufferHdr() returns (p: Progress)
      requires Shape()
      modifies receiveMbuf, receiveMbuf.data, lower`phase, lower`read, lower`calls
      ensures Shape() && Grown(old(View()), View())
      ensures receiveMbuf.data == old(receiveMbuf.data) || fresh(receiveMbuf.data)
      ensures old(receiveMbuf.wireLen) >= HDR_LEN ==> p == Full && View() == old(View())
      ensures old(receiveMbuf.wireLen) < HDR_LEN ==> old(lower.calls) < lower.calls
      ensures old(receiveMbuf.wireLen) < HDR_LEN && p == Full ==> receiveMbuf.wireLen == HDR_LEN && lower.phase.Up?
      ensures p.Stop? ==> receiveMbuf.wireLen < HDR_LEN && Halted(View(), p.r)
    {
      var left := receiveMbuf.HdrLeft();
      if left == 0 {
        return Full;
      }
      p := BufferReceive(left);
    }

    /** The read in buffer_payload, once the header is known to be valid. */
    method BufferPayload() returns (p: Progress)
      requires Shape() && receiveMbuf.wireLen >= HDR_LEN
      requires HeadOf(receiveMbuf.Wire()) == NeedMore ||
               (HeadOf(receiveMbuf.Wire()) == EmptyFrame && receiveMbuf.wireLen == HDR_LEN)
      modifies receiveMbuf, receiveMbuf.data, lower`phase, lower`read, lower`calls
      ensures Shape() && Grown(old(View()), View()) && old(lower.calls) < lower.calls
      ensures receiveMbuf.data == old(receiveMbuf.data) || fresh(receiveMbuf.data)
      ensures p == Full ==>
                && HeadOf(receiveMbuf.Wire()).Complete? && lower.phase.Up?
                && |receiveMbuf.Wire()| == HDR_LEN + |HeadOf(receiveMbuf.Wire()).msg|
      ensures p.Stop? ==> HeadOf(receiveMbuf.Wire()) == old(HeadOf(receiveMbuf.Wire())) && Halted(View(), p.r)
      ensures p.Stop? && HeadOf(receiveMbuf.Wire()) == EmptyFrame ==> receiveMbuf.wireLen == HDR_LEN
    {
      ghost var before := receiveMbuf.Wire();
      assert before[..HDR_LEN] == receiveMbuf.data[..HDR_LEN];
      var left := receiveMbuf.PayloadLeft();
      p := BufferReceive(left);
      SameHeader(before, receiveMbuf.Wire());
    }

    /** The end of tcp_receive: copies out what fits and empties the buffer. */
    method Deliver(capacity: nat) returns (out: seq<Byte>)
      requires Shape() && HeadOf(receiveMbuf.Wire()).Complete?
      requires receiveMbuf.wireLen == HDR_LEN + |HeadOf(receiveMbuf.Wire()).msg|
      modifies `cnts, `assembled, `delivered, receiveMbuf`wireLen
      ensures Shape()
      ensures var m := old(HeadOf(receiveMbuf.Wire())).msg;
              FitsInto(m, capacity, out) && View() == Delivered(old(View()), m, out)
    {
      ghost var wire := receiveMbuf.Wire();
      ghost var m := HeadOf(wire).msg;
      PayloadOf(wire);
      hide DecodeLen, HeadOf;
      receiveMbuf.Slice(0, HDR_LEN);
      var len := receiveMbuf.CompletePayloadLen();
      assert len == |m|;
      var userLen := if len > capacity then capacity else len;
      out := receiveMbuf.data[HDR_LEN..HDR_LEN + userLen];
      receiveMbuf.Slice(HDR_LEN, HDR_LEN + userLen);
      assert m[..userLen] == wire[HDR_LEN..HDR_LEN + userLen];
      cnts := cnts.(fromLowerBytes := cnts.fromLowerBytes + len, fromLowerMsgs := cnts.fromLowerMsgs + 1,
                    toAppBytes := cnts.toAppBytes + userLen, toAppMsgs := cnts.toAppMsgs + 1);
      receiveMbuf.Reset();
      assembled := assembled + [m];
      delivered := delivered + [out];
    }

    /** buffer_msg, and the delivery when it succeeds. */
    method Assemble(capacity: nat) returns (r: IoResult, out: seq<Byte>)
      requires Shape() && !bad
      requires HeadOf(receiveMbuf.Wire()) == NeedMore ||
               (HeadOf(receiveMbuf.Wire()) == EmptyFrame && receiveMbuf.wireLen == HDR_LEN)
      modifies `bad, `badnessReason, `cnts, `assembled, `delivered, receiveMbuf, receiveMbuf.data
      modifies lower`phase, lower`read, lower`calls
      ensures Shape() && AssembleStep(old(View()), capacity, View(), r, out)
      ensures receiveMbuf.data == old(receiveMbuf.data) || fresh(receiveMbuf.data)
    {
      hide AssembleStep, HeadOf, Halted, DecodeLen, Delivered;
      ghost var before := View();
      var p := BufferHdr();
      if p.Stop? {
        ShortHead(receiveMbuf.Wire());
        ReceiveStopped(before, View(), capacity, p.r);
        return p.r, [];
      }
      ghost var mid := View();
      receiveMbuf.QueriesAgree();
      if !receiveMbuf.IsHdrValid() {
        ReceiveTooLong(before, mid, capacity);
        bad, badnessReason := true, EPROTO;
        return Fail(EPROTO), [];
      }
      if receiveMbuf.wireLen == HDR_LEN {
        HeadOfHeader(receiveMbuf.Wire());
      }
      p := BufferPayload();
      GrownTwice(before, mid, View());
      if p.Stop? {
        ReceiveStopped(before, View(), capacity, p.r);
        return p.r, [];
      }
      ghost var full, m := View(), HeadOf(receiveMbuf.Wire()).msg;
      out := Deliver(capacity);
      ReceiveComplete(before, full, capacity, m, out);
      r := Done(|out|);
    }

    /** tcp_receive */
    method Receive(capacity: nat) returns (r: IoResult, out: seq<Byte>, ghost call: Call)
      requires Valid()
      modifies `mbufSent, `bad, `badnessReason, `cnts, `assembled, `delivered, sendMbuf`wireLen, receiveMbuf
      modifies receiveMbuf.data
      modifies lower`phase, lower`written, lower`read, lower`calls
      ensures Valid() && call.ReceiveCall? && call.capacity == capacity && call.out == out
      ensures ReceiveStep(old(View()), call, View(), r)
      ensures receiveMbuf.data == old(receiveMbuf.data) || fresh(receiveMbuf.data)
    {
      hide FlushStep, AssembleStep, HeadOf;
      BufferedHead(View());
      hide ConnInv;
      ghost var before := View();
      if bad {
        return Fail(badnessReason), [], ReceiveCall(capacity, before, Done(0), []);
      }
      var flushed := TryFinishSend();
      ghost var mid := View();
      FlushOutcome(before, mid, flushed);
      if flushed.Fail? && flushed.errno != EAGAIN {
        r, out := if flushed.errno == EPIPE then Done(0) else flushed, [];
      } else {
        r, out := Assemble(capacity);
      }
      call := ReceiveCall(capacity, mid, flushed, out);
      StepKeepsInv(before, call, View(), r);
    }

    /** tcp_update: a pending frame adds the wish to send. */
    method Update()
      requires Shape()
      modifies lower`condition, lower`interest, lower`ringing
      ensures Awaited()
    {
      lower.condition := condition;
      if sendMbuf.wireLen != 0 {
        lower.condition := lower.condition + {Sendable};
      }
      lower.Update();
    }

    /** No lost wake-up. The lower socket is asked to await exactly what the application awaits,
        and room to send while part of a frame is unsent; a dead one rings its bell. An established
        BTCP socket is therefore polled for exactly these events. */
    ghost predicate Awaited()
      reads this, sendMbuf, lower
    {
      && lower.condition == condition + (if sendMbuf.wireLen != 0 then {Sendable} else {})
      && (!Usable(lower.phase) ==> lower.ringing)
      && (lower.direct && lower.phase.Up? ==>
            && (IN in lower.interest <==> Receivable in condition)
            && (OUT in lower.interest <==> Sendable in condition || sendMbuf.wireLen != 0)
            && !lower.ringing)
    }
  }
}
