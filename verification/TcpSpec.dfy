/** What the message transport (libxcm/tp/tcp/xcm_tp_tcp.c) does in one call, as relations between
    snapshots of a connection, and what every call keeps. The snapshot holds the fields of the
    source's structure and the history of the connection. */
module TcpSpec {
  import opened KernelModel
  import opened Lower
  import opened Wire

  datatype Counters = Counters(
    toAppBytes: nat, toAppMsgs: nat, fromAppBytes: nat, fromAppMsgs: nat,
    toLowerBytes: nat, toLowerMsgs: nat, fromLowerBytes: nat, fromLowerMsgs: nat)

  /** A connection. `written` and `read` are all bytes the lower socket ever took and gave;
      `accepted` are the messages put in the send buffer, `acked` those for which tcp_send
      returned success, `assembled` those completed by the receiver, and `delivered` what the
      application was given of them. */
  datatype Conn = Conn(
    bad: bool, reason: int, sbuf: seq<Byte>, sent: nat, rbuf: seq<Byte>, cnts: Counters, phase: Phase,
    written: seq<Byte>, read: seq<Byte>, calls: seq<Op>,
    accepted: seq<Msg>, acked: seq<Msg>, assembled: seq<Msg>, delivered: seq<Msg>)

  const NO_COUNTS := Counters(0, 0, 0, 0, 0, 0, 0, 0)

  predicate Initial(c: Conn) {
    c == Conn(false, 0, [], 0, [], NO_COUNTS, c.phase, [], [], [], [], [], [], []) && Usable(c.phase)
  }

  /** The bytes of the pending frame that the lower socket has not taken yet. */
  function Unsent(c: Conn): seq<Byte> {
    if c.sent <= |c.sbuf| then c.sbuf[c.sent..] else []
  }

  /** What a buffer of this capacity is given of a message: all of it, or as much as fits. */
  ghost predicate FitsInto(m: Msg, capacity: nat, out: seq<Byte>) {
    out <= m && if |m| <= capacity then out == m else |out| == capacity
  }

  /** mbuf_complete_payload_len of a buffered frame. */
  function PayloadLen(frame: seq<Byte>): nat {
    if |frame| >= HDR_LEN then |frame| - HDR_LEN else 0
  }

  /** try_finish_send: pushes the pending frame until it is gone or the lower socket refuses. */
  ghost predicate FlushStep(c: Conn, c': Conn, r: IoResult) {
    if c.sbuf == [] then c' == c && r == Done(0)
    else
      && c.written <= c'.written
      && var k := |c'.written| - |c.written|;
      && k <= |Unsent(c)| && c'.written == c.written + Unsent(c)[..k]
      && c.calls < c'.calls
      && Forward(c.phase, c'.phase) && ProperPhase(c'.phase)
      && if k == |Unsent(c)| then
           && r == Done(0) && c'.phase.Up?
           && c' == c.(written := c'.written, calls := c'.calls, phase := c'.phase, sbuf := [], sent := 0,
                       cnts := c.cnts.(toLowerBytes := c.cnts.toLowerBytes + PayloadLen(c.sbuf),
                                       toLowerMsgs := c.cnts.toLowerMsgs + 1))
         else
           && (k > 0 ==> Usable(c.phase))
           && r == Fail(FailureOf(c'.phase))
           && c'.calls[|c'.calls| - 1] == SendOp(|Unsent(c)| - k, r)
           && c' == c.(written := c'.written, calls := c'.calls, phase := c'.phase, sent := c.sent + k)
  }

  /** The connection after the lower socket has taken the bytes up to offset `sent` of the frame. */
  function Pushed(c: Conn, sent: nat, calls: seq<Op>, phase: Phase): Conn
    requires c.sent <= sent <= |c.sbuf|
  {
    c.(written := c.written + c.sbuf[c.sent..sent], calls := calls, phase := phase, sent := sent)
  }

  /** The connection after the whole frame has been taken. */
  function Flushed(c: Conn, calls: seq<Op>, phase: Phase): Conn
    requires c.sent <= |c.sbuf| && HDR_LEN <= |c.sbuf|
  {
    Pushed(c, |c.sbuf|, calls, phase).(sbuf := [], sent := 0,
      cnts := c.cnts.(toLowerBytes := c.cnts.toLowerBytes + (|c.sbuf| - HDR_LEN),
                      toLowerMsgs := c.cnts.toLowerMsgs + 1))
  }

  lemma PushedOn(c: Conn, s1: nat, calls1: seq<Op>, p1: Phase, s2: nat, calls2: seq<Op>, p2: Phase)
    requires c.sent <= s1 <= s2 <= |c.sbuf|
    ensures Pushed(Pushed(c, s1, calls1, p1), s2, calls2, p2) == Pushed(c, s2, calls2, p2)
  {
  }

  lemma NothingToFlush(c: Conn)
    requires c.sbuf == []
    ensures FlushStep(c, c, Done(0))
  {
  }

  lemma FlushOutcome(c: Conn, c': Conn, r: IoResult)
    requires FlushStep(c, c', r) && (c.sbuf == [] || c.sent < |c.sbuf|)
    ensures r.Done? ==> r == Done(0) && c'.sbuf == []
    ensures r.Fail? ==> c'.sbuf == c.sbuf != []
    ensures c'.rbuf == c.rbuf && c'.bad == c.bad
  {
  }

  lemma FlushStopped(c: Conn, sent: nat, calls: seq<Op>, phase: Phase, r: IoResult)
    requires c.sent <= sent < |c.sbuf| && c.calls < calls && Forward(c.phase, phase) && ProperPhase(phase)
    requires (sent > c.sent ==> Usable(c.phase)) && r == Fail(FailureOf(phase))
    requires calls[|calls| - 1] == SendOp(|c.sbuf| - sent, r)
    ensures FlushStep(c, Pushed(c, sent, calls, phase), r)
  {
  }

  lemma FlushCompleted(c: Conn, calls: seq<Op>, phase: Phase)
    requires c.sent < |c.sbuf| && HDR_LEN <= |c.sbuf| && c.calls < calls && Forward(c.phase, phase) && phase.Up?
    ensures FlushStep(c, Flushed(c, calls, phase), Done(0))
  {
  }

  /** mbuf_set and the from_app counter: the message is now the connection's to deliver. */
  function Accepted(c: Conn, m: Msg): Conn
    requires ProperMsg(m)
  {
    c.(sbuf := Frame(m), sent := 0, accepted := c.accepted + [m],
       cnts := c.cnts.(fromAppBytes := c.cnts.fromAppBytes + |m|, fromAppMsgs := c.cnts.fromAppMsgs + 1))
  }

  /** The bytes missing to complete the header, or the payload when the header is complete. */
  function Missing(s: seq<Byte>): int {
    if |s| < HDR_LEN then HDR_LEN - |s| else HDR_LEN + DecodeLen(s[..HDR_LEN]) - |s|
  }

  /** The last call on the lower socket asked for exactly the missing bytes and got fewer, and
      this is why the receive stopped with answer `r`. */
  predicate StoppedFor(last: Op, missing: int, r: IoResult) {
    && last.ReceiveOp?
    && match last.r
       case Done(n) => last.capacity == missing + n && r == if n == 0 then Done(0) else Fail(EAGAIN)
       case Fail(e) => last.capacity == missing && r == Fail(e)
  }

  /** buffer_msg and the delivery that follows it in tcp_receive. */
  ghost predicate AssembleStep(c: Conn, capacity: nat, c': Conn, r: IoResult, out: seq<Byte>) {
    && c.read <= c'.read && c.calls < c'.calls && (c'.read != c.read ==> Usable(c.phase))
    && Forward(c.phase, c'.phase) && ProperPhase(c'.phase)
    && var total := c.rbuf + c'.read[|c.read|..];
       var moved := c.(read := c'.read, calls := c'.calls, phase := c'.phase);
    match HeadOf(total)
    case Complete(m) =>
      && |total| == HDR_LEN + |m| && c'.phase.Up?
      && FitsInto(m, capacity, out) && r == Done(|out|)
      && c' == moved.(rbuf := [], assembled := c.assembled + [m], delivered := c.delivered + [out],
                      cnts := c.cnts.(fromLowerBytes := c.cnts.fromLowerBytes + |m|,
                                      fromLowerMsgs := c.cnts.fromLowerMsgs + 1,
                                      toAppBytes := c.cnts.toAppBytes + |out|, toAppMsgs := c.cnts.toAppMsgs + 1))
    case TooLong =>
      && |total| == HDR_LEN && r == Fail(EPROTO) && out == [] && c'.phase.Up?
      && c' == moved.(rbuf := total, bad := true, reason := EPROTO)
    case _ =>
      && out == [] && (HeadOf(total) == EmptyFrame ==> |total| == HDR_LEN)
      && StoppedFor(c'.calls[|c'.calls| - 1], Missing(total), r)
      && (r.Done? <==> c'.phase.Closed?) && (r.Fail? ==> r.errno == FailureOf(c'.phase))
      && c' == moved.(rbuf := total)
  }

  /** One call of the messaging API, with the states in between: `mid` after the first flush,
      `fin` after the second. */
  datatype Call =
    | SendCall(m: Msg, mid: Conn, flushed: IoResult, fin: Conn, pushed: IoResult)
    | ReceiveCall(capacity: nat, mid: Conn, flushed: IoResult, out: seq<Byte>)
    | FinishCall(mid: Conn, flushed: IoResult, lower: IoResult)

  /** tcp_send */
  ghost predicate SendStep(c: Conn, call: Call, c': Conn, r: IoResult)
    requires call.SendCall?
  {
    if |call.m| > MSG_MAX then c' == c && r == Fail(EMSGSIZE)
    else if |call.m| == 0 then c' == c && r == Fail(EINVAL)
    else if c.bad then c' == c && r == Fail(c.reason)
    else
      && FlushStep(c, call.mid, call.flushed)
      && if call.flushed.Fail? then c' == call.mid && r == call.flushed
         else
           && FlushStep(Accepted(call.mid, call.m), call.fin, call.pushed)
           && if call.pushed.Fail? && call.pushed.errno != EAGAIN then c' == call.fin && r == call.pushed
              else c' == call.fin.(acked := call.fin.acked + [call.m]) && r == Done(0)
  }

  /** tcp_receive */
  ghost predicate ReceiveStep(c: Conn, call: Call, c': Conn, r: IoResult)
    requires call.ReceiveCall?
  {
    if c.bad then c' == c && r == Fail(c.reason) && call.out == []
    else
      && FlushStep(c, call.mid, call.flushed)
      && if call.flushed.Fail? && call.flushed.errno != EAGAIN then
           c' == call.mid && r == (if call.flushed.errno == EPIPE then Done(0) else call.flushed) && call.out == []
         else AssembleStep(call.mid, call.capacity, c', r, call.out)
  }

  /** tcp_finish */
  ghost predicate FinishStep(c: Conn, call: Call, c': Conn, r: IoResult)
    requires call.FinishCall?
  {
    if c.bad then c' == c && r == Fail(c.reason)
    else
      && FlushStep(c, call.mid, call.flushed)
      && FinishRel(call.mid.phase, c'.phase, call.lower)
      && c' == call.mid.(phase := c'.phase, calls := call.mid.calls + [FinishOp(call.lower)])
      && r == if call.lower.Fail? then call.lower else call.flushed
  }

  ghost predicate Step(c: Conn, call: Call, c': Conn, r: IoResult) {
    match call
    case SendCall(_, _, _, _, _) => SendStep(c, call, c', r)
    case ReceiveCall(_, _, _, _) => ReceiveStep(c, call, c', r)
    case FinishCall(_, _, _) => FinishStep(c, call, c', r)
  }

  function TotalLen(ms: seq<Msg>): nat {
    if ms == [] then 0 else TotalLen(ms[..|ms| - 1]) + |ms[|ms| - 1]|
  }

  /** The sending half: every accepted frame is on the wire except for the unsent bytes of the
      last one. */
  ghost predicate SendInv(c: Conn) {
    && ProperMsgs(c.accepted)
    && Frames(c.accepted) == c.written + Unsent(c)
    && (if c.sbuf == [] then c.sent == 0
        else c.accepted != [] && c.sbuf == Frame(c.accepted[|c.accepted| - 1]) && c.sent < |c.sbuf|)
  }

  /** A message whose send failed can only be the last accepted one, stuck in a dead connection. */
  ghost predicate AckInv(c: Conn) {
    || c.acked == c.accepted
    || (c.accepted != [] && c.acked == c.accepted[..|c.accepted| - 1] && c.sbuf != [] && !Usable(c.phase))
  }

  /** The receiving half: what was read is the frames of the assembled messages and one partial
      frame, and the connection is bad exactly when that frame is too long. */
  ghost predicate ReceiveInv(c: Conn) {
    && ProperMsgs(c.assembled)
    && c.read == Frames(c.assembled) + c.rbuf
    && (match HeadOf(c.rbuf)
        case Complete(_) => false
        case NeedMore => !c.bad
        case EmptyFrame => !c.bad && |c.rbuf| == HDR_LEN
        case TooLong => c.bad && c.reason == EPROTO && |c.rbuf| == HDR_LEN)
    && |c.delivered| == |c.assembled|
    && (forall i :: 0 <= i < |c.delivered| ==> c.delivered[i] <= c.assembled[i])
  }

  /** from_app minus to_lower is exactly the pending frame; from_lower and to_app count the same messages. */
  ghost predicate CountersInv(c: Conn) {
    var pending := if c.sbuf == [] then 0 else 1;
    && c.cnts.fromAppMsgs == |c.accepted| == c.cnts.toLowerMsgs + pending
    && c.cnts.fromAppBytes == TotalLen(c.accepted) == c.cnts.toLowerBytes + PayloadLen(c.sbuf)
    && c.cnts.fromLowerMsgs == c.cnts.toAppMsgs == |c.assembled|
    && c.cnts.fromLowerBytes == TotalLen(c.assembled) && c.cnts.toAppBytes == TotalLen(c.delivered)
  }

  /** Everything but the acknowledgements, which lag behind in the middle of a send. */
  ghost predicate CoreInv(c: Conn) {
    SendInv(c) && ReceiveInv(c) && CountersInv(c) && ProperPhase(c.phase)
  }

  /** A connection failed by a bad header is not asked for anything any more, so its lower socket
      is still up. */
  ghost predicate ConnInv(c: Conn) {
    CoreInv(c) && AckInv(c) && (c.bad ==> c.phase.Up?)
  }

  lemma InitialInv(c: Conn)
    requires Initial(c)
    ensures ConnInv(c)
  {
    hide HeadOf, Frames, Frame, TotalLen, ProperMsgs, SendInv, ReceiveInv, CountersInv;
    InitialSender(c);
    InitialReceiver(c);
    InitialCounters(c);
  }

  lemma InitialSender(c: Conn)
    requires Initial(c)
    ensures SendInv(c)
  {
    hide Frames, ProperMsgs, Frame;
    EmptyLists();
  }

  lemma InitialReceiver(c: Conn)
    requires Initial(c)
    ensures ReceiveInv(c)
  {
    hide HeadOf, Frames, ProperMsgs;
    EmptyHead();
    EmptyLists();
  }

  lemma InitialCounters(c: Conn)
    requires Initial(c)
    ensures CountersInv(c)
  {
    hide TotalLen;
    EmptyLists();
  }

  lemma EmptyHead()
    ensures HeadOf([]) == NeedMore
  {
  }

  lemma EmptyLists()
    ensures ProperMsgs([]) && Frames([]) == [] && TotalLen([]) == 0
  {
  }

  lemma SameReceiver(c: Conn, c': Conn)
    requires ReceiveInv(c)
    requires c'.read == c.read && c'.rbuf == c.rbuf && c'.assembled == c.assembled && c'.delivered == c.delivered
    requires c'.bad == c.bad && c'.reason == c.reason
    ensures ReceiveInv(c')
  {
  }

  lemma FlushKeepsCore(c: Conn, c': Conn, r: IoResult)
    requires CoreInv(c) && FlushStep(c, c', r)
    ensures CoreInv(c') && c'.accepted == c.accepted && c'.acked == c.acked
    ensures r.Done? <==> c'.sbuf == []
    ensures r.Fail? ==> r.errno == FailureOf(c'.phase)
    ensures !Usable(c.phase) ==> c'.phase == c.phase && c'.sbuf == c.sbuf
    ensures c'.bad == c.bad
  {
    hide Frames, Frame, HeadOf, ReceiveInv, CountersInv, SendInv;
    FlushKeepsSender(c, c', r);
    FlushKeepsCounters(c, c', r);
    SameReceiver(c, c');
    assert c.sbuf != [] ==> c.sent < |c.sbuf| by { PendingHasRest(c); }
  }

  lemma PendingHasRest(c: Conn)
    requires SendInv(c)
    ensures c.sbuf != [] ==> c.sent < |c.sbuf|
  {
  }

  lemma FlushKeepsCounters(c: Conn, c': Conn, r: IoResult)
    requires CountersInv(c) && SendInv(c) && FlushStep(c, c', r)
    ensures CountersInv(c')
  {
    hide Frames, TotalLen, Forward;
  }

  lemma FlushKeepsSender(c: Conn, c': Conn, r: IoResult)
    requires SendInv(c) && FlushStep(c, c', r)
    ensures SendInv(c')
  {
    hide Frames, Frame, Forward, ProperMsgs;
    if c.sbuf != [] {
      var k := |c'.written| - |c.written|;
      SplitRest(Frames(c.accepted), c.written, Unsent(c), k);
      assert Unsent(c') == Unsent(c)[k..];
    }
  }

  lemma SplitRest(all: seq<Byte>, written: seq<Byte>, rest: seq<Byte>, k: nat)
    requires all == written + rest && k <= |rest|
    ensures all == written + rest[..k] + rest[k..]
  {
    assert rest == rest[..k] + rest[k..];
  }

  lemma AcceptKeepsCore(c: Conn, m: Msg)
    requires CoreInv(c) && c.sbuf == [] && ProperMsg(m)
    ensures CoreInv(Accepted(c, m))
  {
    hide Frame, HeadOf;
    var a := Accepted(c, m);
    assert a.accepted[..|a.accepted| - 1] == c.accepted;
    assert Unsent(a) == Frame(m);
    assert Unsent(c) == [];
    assert ReceiveInv(a) by { SameReceiver(c, a); }
  }

  lemma SendKeepsInv(c: Conn, call: Call, c': Conn, r: IoResult)
    requires ConnInv(c) && call.SendCall? && SendStep(c, call, c', r)
    ensures ConnInv(c')
    ensures c'.acked == if r == Done(0) then c.acked + [call.m] else c.acked
    ensures r.Fail? && r.errno == EAGAIN ==> c'.accepted == c.accepted
  {
    hide FlushStep, CoreInv;
    if ProperMsg(call.m) && !c.bad {
      FlushKeepsCore(c, call.mid, call.flushed);
      if call.flushed.Done? {
        AcceptKeepsCore(call.mid, call.m);
        var a := Accepted(call.mid, call.m);
        FlushKeepsCore(a, call.fin, call.pushed);
        assert a.accepted[..|a.accepted| - 1] == call.mid.accepted;
        ProperFailure(call.fin);
        AckedIsCore(call.fin, c'.acked);
      }
    }
  }

  lemma ProperFailure(c: Conn)
    requires CoreInv(c)
    ensures FailureOf(c.phase) == EAGAIN <==> Usable(c.phase)
  {
  }

  lemma AckedIsCore(c: Conn, acked: seq<Msg>)
    requires CoreInv(c)
    ensures CoreInv(c.(acked := acked))
  {
  }

  lemma SameSender(c: Conn, c': Conn)
    requires SendInv(c)
    requires c'.written == c.written && c'.sbuf == c.sbuf && c'.sent == c.sent && c'.accepted == c.accepted
    ensures SendInv(c')
  {
  }

  /** One more assembled message. */
  lemma AppendMsg(ms: seq<Msg>, m: Msg)
    requires ProperMsgs(ms) && ProperMsg(m)
    ensures ProperMsgs(ms + [m]) && Frames(ms + [m]) == Frames(ms) + Frame(m)
  {
  }

  lemma AppendLen(ms: seq<Msg>, m: Msg)
    ensures TotalLen(ms + [m]) == TotalLen(ms) + |m|
  {
  }

  lemma AssembleKeepsReceiver(c: Conn, capacity: nat, c': Conn, r: IoResult, out: seq<Byte>)
    requires ReceiveInv(c) && !c.bad && AssembleStep(c, capacity, c', r, out)
    ensures ReceiveInv(c')
  {
    hide Frame, Frames, HeadOf, Forward, StoppedFor, ReceiveInv;
    var total := c.rbuf + c'.read[|c.read|..];
    if HeadOf(total).Complete? {
      CompleteIsFrame(total);
      assert total == Frame(HeadOf(total).msg);
      ReceiverAdvances(c, c', HeadOf(total).msg, out);
    } else {
      ReceiverBuffers(c, c', total);
    }
  }

  /** A message is complete. */
  lemma ReceiverAdvances(c: Conn, c': Conn, m: Msg, out: seq<Byte>)
    requires ReceiveInv(c) && ProperMsg(m) && out <= m && !c'.bad && c'.rbuf == []
    requires c.read <= c'.read && c.rbuf + c'.read[|c.read|..] == Frame(m)
    requires c'.assembled == c.assembled + [m] && c'.delivered == c.delivered + [out]
    ensures ReceiveInv(c')
  {
    hide Frame, Frames, HeadOf;
    EmptyHead();
    AppendMsg(c.assembled, m);
    assert c'.read == Frames(c.assembled) + Frame(m);
  }

  /** More of a frame is buffered. */
  lemma ReceiverBuffers(c: Conn, c': Conn, total: seq<Byte>)
    requires ReceiveInv(c) && c.read <= c'.read && total == c.rbuf + c'.read[|c.read|..] && c'.rbuf == total
    requires c'.assembled == c.assembled && c'.delivered == c.delivered
    requires match HeadOf(total)
             case Complete(_) => false
             case NeedMore => !c'.bad
             case EmptyFrame => !c'.bad && |total| == HDR_LEN
             case TooLong => c'.bad && c'.reason == EPROTO && |total| == HDR_LEN
    ensures ReceiveInv(c')
  {
    hide Frame, Frames, HeadOf;
    assert c'.read == Frames(c.assembled) + total;
  }

  lemma AssembleKeepsInv(c: Conn, capacity: nat, c': Conn, r: IoResult, out: seq<Byte>)
    requires ConnInv(c) && !c.bad && AssembleStep(c, capacity, c', r, out)
    ensures ConnInv(c')
  {
    hide Frame, Frames, HeadOf, ReceiveInv, SendInv, CountersInv, StoppedFor;
    AssembleKeepsReceiver(c, capacity, c', r, out);
    AssembleKeepsCounters(c, capacity, c', r, out);
    SameSender(c, c');
  }

  lemma AssembleKeepsCounters(c: Conn, capacity: nat, c': Conn, r: IoResult, out: seq<Byte>)
    requires CountersInv(c) && AssembleStep(c, capacity, c', r, out)
    ensures CountersInv(c')
  {
    hide HeadOf, Forward, StoppedFor, TotalLen;
    var total := c.rbuf + c'.read[|c.read|..];
    if HeadOf(total).Complete? {
      AppendLen(c.assembled, HeadOf(total).msg);
      AppendLen(c.delivered, out);
    }
  }

  /** Every call of the API keeps the invariant, whatever the lower socket answers. */
  lemma StepKeepsInv(c: Conn, call: Call, c': Conn, r: IoResult)
    requires ConnInv(c) && Step(c, call, c', r)
    ensures ConnInv(c')
  {
    hide FlushStep, AssembleStep, CoreInv;
    match call
    case SendCall(_, _, _, _, _) =>
      SendKeepsInv(c, call, c', r);
    case ReceiveCall(_, _, _, _) =>
      if !c.bad {
        FlushKeepsCore(c, call.mid, call.flushed);
        if !(call.flushed.Fail? && call.flushed.errno != EAGAIN) {
          AssembleKeepsInv(call.mid, call.capacity, c', r, call.out);
        }
      }
    case FinishCall(_, _, _) =>
      if !c.bad {
        FlushKeepsCore(c, call.mid, call.flushed);
        LowerFinishKeepsInv(call.mid, c');
      }
  }

  lemma LowerFinishKeepsInv(c: Conn, c': Conn)
    requires ConnInv(c) && !c.bad && Forward(c.phase, c'.phase) && ProperPhase(c'.phase)
    requires c' == c.(phase := c'.phase, calls := c'.calls)
    ensures ConnInv(c')
  {
  }
}
