/** Two connected endpoints of the message transport and the byte streams between them: what
    holds after every interleaving of their calls, with every pattern of short writes and reads. */
module EndToEnd {
  import opened KernelModel
  import opened Lower
  import opened Wire
  import opened TcpSpec

  datatype Sys = Sys(a: Conn, b: Conn)

  datatype Act = AtA(call: Call, r: IoResult) | AtB(call: Call, r: IoResult)

  /** One endpoint makes a call. The network is a reliable FIFO in each direction: what has been
      read at one end is a prefix of what has been written at the other. */
  ghost predicate SysStep(s: Sys, act: Act, s': Sys) {
    match act
    case AtA(call, r) => Step(s.a, call, s'.a, r) && s'.b == s.b && s'.a.read <= s.b.written
    case AtB(call, r) => Step(s.b, call, s'.b, r) && s'.a == s.a && s'.b.read <= s.a.written
  }

  ghost predicate SysRun(states: seq<Sys>, acts: seq<Act>) {
    && |states| == |acts| + 1
    && Initial(states[0].a) && Initial(states[0].b)
    && forall k :: 0 <= k < |acts| ==> SysStep(states[k], acts[k], states[k + 1])
  }

  ghost predicate SysInv(s: Sys) {
    ConnInv(s.a) && ConnInv(s.b) && s.a.read <= s.b.written && s.b.read <= s.a.written
  }

  /** The bytes that `from` has written and `to` has not read yet. */
  function InFlight(from: Conn, to: Conn): seq<Byte> {
    if |to.read| <= |from.written| then from.written[|to.read|..] else []
  }

  lemma FlushOnlyWrites(c: Conn, c': Conn, r: IoResult)
    requires FlushStep(c, c', r)
    ensures c.written <= c'.written && c'.read == c.read
  {
  }

  lemma StepOnlyGrows(c: Conn, call: Call, c': Conn, r: IoResult)
    requires Step(c, call, c', r)
    ensures c.written <= c'.written && c.read <= c'.read
  {
    hide FlushStep;
    match call
    case SendCall(_, _, _, _, _) =>
      if ProperMsg(call.m) && !c.bad {
        FlushOnlyWrites(c, call.mid, call.flushed);
        if call.flushed.Done? {
          FlushOnlyWrites(Accepted(call.mid, call.m), call.fin, call.pushed);
        }
      }
    case ReceiveCall(_, _, _, _) =>
      if !c.bad {
        FlushOnlyWrites(c, call.mid, call.flushed);
      }
    case FinishCall(_, _, _) =>
      if !c.bad {
        FlushOnlyWrites(c, call.mid, call.flushed);
      }
  }

  lemma {:induction false} RunKeepsInv(states: seq<Sys>, acts: seq<Act>, k: nat)
    requires SysRun(states, acts) && k < |states|
    ensures SysInv(states[k])
  {
    hide Step, ConnInv, Initial;
    if k == 0 {
      InitialInv(states[0].a);
      InitialInv(states[0].b);
      StartsEmpty(states[0].a);
      StartsEmpty(states[0].b);
    } else {
      RunKeepsInv(states, acts, k - 1);
      var s, s' := states[k - 1], states[k];
      assert SysStep(s, acts[k - 1], s');
      match acts[k - 1]
      case AtA(call, r) =>
        StepKeepsInv(s.a, call, s'.a, r);
        StepOnlyGrows(s.a, call, s'.a, r);
      case AtB(call, r) =>
        StepKeepsInv(s.b, call, s'.b, r);
        StepOnlyGrows(s.b, call, s'.b, r);
    }
  }

  lemma StartsEmpty(c: Conn)
    requires Initial(c)
    ensures c.read == [] && c.written == [] && c.assembled == [] && c.delivered == []
  {
  }

  /** Nothing is lost, duplicated or reordered on the way: the frames of the accepted messages
      are those of the assembled messages, the partial receive buffer, the bytes in flight and
      the unsent remainder, in this order; so the received messages are a prefix of the accepted
      ones, with their boundaries. */
  lemma Conservation(from: Conn, to: Conn)
    requires SendInv(from) && ReceiveInv(to) && to.read <= from.written
    ensures Frames(from.accepted) == Frames(to.assembled) + to.rbuf + InFlight(from, to) + Unsent(from)
    ensures to.assembled <= from.accepted
  {
    hide Frame, HeadOf, Frames, CountersInv, AckInv;
    hide Unsent;
    assert from.written == to.read + InFlight(from, to);
    var rest := to.rbuf + InFlight(from, to) + Unsent(from);
    Regroup(Frames(to.assembled), to.rbuf, InFlight(from, to), Unsent(from));
    FramedPrefix(to.assembled, from.accepted, rest);
  }

  lemma SameRest(a: seq<Byte>, x: seq<Byte>, y: seq<Byte>)
    requires a + x == a + y
    ensures x == y
  {
    assert x == (a + x)[|a|..] && y == (a + y)[|a|..];
  }

  lemma Regroup(a: seq<Byte>, b: seq<Byte>, c: seq<Byte>, d: seq<Byte>)
    ensures a + b + c + d == a + (b + c + d)
  {
  }

  /** Only messages whose send was reported as successful arrive: a message stuck in a dead
      connection does not. */
  lemma OnlyAcknowledgedArrive(from: Conn, to: Conn)
    requires SendInv(from) && AckInv(from) && ReceiveInv(to) && to.read <= from.written
    ensures to.assembled <= from.acked
  {
    hide Frame, HeadOf, Frames;
    Conservation(from, to);
    if from.acked != from.accepted {
      assert Unsent(from) != [];
      assert |Frames(from.accepted)| > |Frames(to.assembled)|;
      assert to.assembled != from.accepted;
    }
  }

  /** The end-to-end theorem over whole runs, in both directions. */
  lemma EndToEndDelivery(states: seq<Sys>, acts: seq<Act>, k: nat)
    requires SysRun(states, acts) && k < |states|
    ensures ConnInv(states[k].a) && ConnInv(states[k].b)
    ensures var a, b := states[k].a, states[k].b;
            && Frames(a.accepted) == Frames(b.assembled) + b.rbuf + InFlight(a, b) + Unsent(a)
            && Frames(b.accepted) == Frames(a.assembled) + a.rbuf + InFlight(b, a) + Unsent(b)
            && b.assembled <= a.acked <= a.accepted
            && a.assembled <= b.acked <= b.accepted
  {
    hide Frame, HeadOf, Frames, SysRun;
    RunKeepsInv(states, acts, k);
    var a, b := states[k].a, states[k].b;
    Conservation(a, b);
    Conservation(b, a);
    OnlyAcknowledgedArrive(a, b);
    OnlyAcknowledgedArrive(b, a);
  }

  /** When everything has been flushed and read, everything acknowledged has arrived, and no
      partial frame is left. */
  lemma NothingOutstanding(states: seq<Sys>, acts: seq<Act>, k: nat)
    requires SysRun(states, acts) && k < |states|
    requires states[k].a.sbuf == [] && states[k].b.read == states[k].a.written
    ensures states[k].b.assembled == states[k].a.acked && states[k].b.rbuf == []
  {
    hide SysRun, ConnInv;
    RunKeepsInv(states, acts, k);
    AllArrived(states[k].a, states[k].b);
  }

  lemma AllArrived(from: Conn, to: Conn)
    requires ConnInv(from) && ConnInv(to) && from.sbuf == [] && to.read == from.written
    ensures to.assembled == from.acked && to.rbuf == []
  {
    hide Frame, HeadOf, CountersInv;
    DecodeFrames(from.accepted, []);
    ChunkingIsInvisible(to);
    assert Frames(from.accepted) + [] == to.read;
    EmptyDecode();
  }

  lemma EmptyDecode()
    ensures Decode([]) == Decoded([], [])
  {
  }

  /** What a receive hands to the application: one message, whole if it fits the capacity and cut
      off there otherwise, with the number of bytes as the answer; or nothing. */
  lemma ReceiveDelivers(c: Conn, call: Call, c': Conn, r: IoResult)
    requires ConnInv(c) && call.ReceiveCall? && Step(c, call, c', r)
    ensures |c'.assembled| == |c.assembled| ==>
              c'.assembled == c.assembled && c'.delivered == c.delivered && call.out == []
    ensures |c'.assembled| != |c.assembled| ==>
              && c'.assembled != [] && var m := c'.assembled[|c'.assembled| - 1];
              && c'.assembled == c.assembled + [m] && c'.delivered == c.delivered + [call.out] && r == Done(|call.out|)
              && call.out <= m && |call.out| <= call.capacity
              && if |m| <= call.capacity then call.out == m else |call.out| == call.capacity
  {
    hide Frame, Frames, CountersInv, TotalLen, HeadOf;
  }

  lemma OthersDeliverNothing(c: Conn, call: Call, c': Conn, r: IoResult)
    requires Step(c, call, c', r) && !call.ReceiveCall?
    ensures c'.assembled == c.assembled && c'.delivered == c.delivered
  {
    hide HeadOf, Frame;
  }

  /** Every receive so far came with room for the largest message. */
  ghost predicate Roomy(acts: seq<Act>, k: nat) {
    forall i :: 0 <= i < k && i < |acts| && acts[i].call.ReceiveCall? ==> acts[i].call.capacity >= MSG_MAX
  }

  /** Over a run in which every receive has room for the largest message, the application is given
      exactly what was assembled. */
  lemma {:induction false} NothingCutOff(states: seq<Sys>, acts: seq<Act>, k: nat)
    requires SysRun(states, acts) && k < |states| && Roomy(acts, k)
    ensures states[k].a.delivered == states[k].a.assembled && states[k].b.delivered == states[k].b.assembled
  {
    hide Step, ConnInv, Initial;
    if k == 0 {
      StartsEmpty(states[0].a);
      StartsEmpty(states[0].b);
    } else {
      NothingCutOff(states, acts, k - 1);
      RunKeepsInv(states, acts, k - 1);
      RunKeepsInv(states, acts, k);
      var s, s', act := states[k - 1], states[k], acts[k - 1];
      assert SysStep(s, act, s');
      if act.AtA? {
        WholeMessage(s.a, act.call, s'.a, act.r);
      } else {
        WholeMessage(s.b, act.call, s'.b, act.r);
      }
    }
  }

  lemma WholeMessage(c: Conn, call: Call, c': Conn, r: IoResult)
    requires ConnInv(c) && ConnInv(c') && Step(c, call, c', r) && c.delivered == c.assembled
    requires call.ReceiveCall? ==> call.capacity >= MSG_MAX
    ensures c'.delivered == c'.assembled
  {
    if call.ReceiveCall? {
      ReceiveDelivers(c, call, c', r);
      ProperAssembled(c');
      hide Step, ConnInv;
    } else {
      OthersDeliverNothing(c, call, c', r);
    }
  }

  lemma ProperAssembled(c: Conn)
    requires ConnInv(c)
    ensures forall i :: 0 <= i < |c.assembled| ==> |c.assembled[i]| <= MSG_MAX
  {
    hide Frames, HeadOf, CountersInv, SendInv, AckInv;
  }

  /** So what one application is given is a prefix of what the other has had acknowledged, in order
      and whole, and all of it once nothing is outstanding. */
  lemma DeliveredToApplication(states: seq<Sys>, acts: seq<Act>, k: nat)
    requires SysRun(states, acts) && k < |states| && Roomy(acts, k)
    ensures states[k].b.delivered <= states[k].a.acked && states[k].a.delivered <= states[k].b.acked
    ensures states[k].a.sbuf == [] && states[k].b.read == states[k].a.written ==>
              states[k].b.delivered == states[k].a.acked
    ensures states[k].b.sbuf == [] && states[k].a.read == states[k].b.written ==>
              states[k].a.delivered == states[k].b.acked
  {
    hide SysRun, Frames, ConnInv, Roomy;
    NothingCutOff(states, acts, k);
    RunKeepsInv(states, acts, k);
    var a, b := states[k].a, states[k].b;
    ArrivedIsAcked(a, b);
    ArrivedIsAcked(b, a);
  }

  lemma ArrivedIsAcked(from: Conn, to: Conn)
    requires ConnInv(from) && ConnInv(to) && to.read <= from.written
    ensures to.assembled <= from.acked
    ensures from.sbuf == [] && to.read == from.written ==> to.assembled == from.acked
  {
    hide Frames, HeadOf, CountersInv;
    OnlyAcknowledgedArrive(from, to);
    if from.sbuf == [] && to.read == from.written {
      AllArrived(from, to);
    }
  }

  lemma {:induction false} TotalLenPrefix(p: seq<Msg>, ms: seq<Msg>)
    requires p <= ms
    ensures TotalLen(p) <= TotalLen(ms)
  {
    if p == ms {
    } else {
      TotalLenPrefix(p, ms[..|ms| - 1]);
    }
  }

  /** Conservation seen in the counters, over whole runs: at each end, what the application has
      handed in and the lower layer has not taken is exactly the one pending frame; and no end
      counts more from its lower layer than the other end has counted into its own. */
  lemma CountersAcrossTheWire(states: seq<Sys>, acts: seq<Act>, k: nat)
    requires SysRun(states, acts) && k < |states|
    ensures OneFramePending(states[k].a) && OneFramePending(states[k].b)
    ensures FlowsInto(states[k].a.cnts, states[k].b.cnts) && FlowsInto(states[k].b.cnts, states[k].a.cnts)
  {
    hide SysRun, ConnInv, OneFramePending, FlowsInto;
    RunKeepsInv(states, acts, k);
    WireCounts(states[k].a, states[k].b);
    WireCounts(states[k].b, states[k].a);
  }

  predicate OneFramePending(c: Conn) {
    && c.cnts.fromAppMsgs - c.cnts.toLowerMsgs == (if c.sbuf == [] then 0 else 1)
    && c.cnts.fromAppBytes - c.cnts.toLowerBytes == (if c.sbuf == [] then 0 else |c.sbuf| - HDR_LEN)
    && c.cnts.fromLowerMsgs == c.cnts.toAppMsgs && c.cnts.toAppBytes <= c.cnts.fromLowerBytes
  }

  predicate FlowsInto(sender: Counters, receiver: Counters) {
    receiver.fromLowerMsgs <= sender.toLowerMsgs && receiver.fromLowerBytes <= sender.toLowerBytes
  }

  lemma ProperPrefix(p: seq<Msg>, ms: seq<Msg>)
    requires p <= ms && p != ms
    ensures p <= ms[..|ms| - 1]
  {
  }

  lemma LastLen(ms: seq<Msg>)
    requires ms != []
    ensures TotalLen(ms) == TotalLen(ms[..|ms| - 1]) + |ms[|ms| - 1]|
  {
  }

  lemma PendingCounts(c: Conn)
    requires ConnInv(c)
    ensures OneFramePending(c)
  {
    hide Frames, HeadOf, AckInv, TotalLen;
    DeliveredLen(c.delivered, c.assembled);
  }

  /** While a frame is pending, the last accepted message has not arrived. */
  lemma LastIsPending(from: Conn, to: Conn)
    requires SendInv(from) && ReceiveInv(to) && to.read <= from.written && from.sbuf != []
    ensures from.accepted != [] && PayloadLen(from.sbuf) == |from.accepted[|from.accepted| - 1]|
    ensures to.assembled <= from.accepted[..|from.accepted| - 1]
  {
    hide Frames, HeadOf;
    Conservation(from, to);
    assert |Frames(from.accepted)| > |Frames(to.assembled)|;
    ProperPrefix(to.assembled, from.accepted);
  }

  lemma WireCounts(from: Conn, to: Conn)
    requires ConnInv(from) && ConnInv(to) && to.read <= from.written
    ensures OneFramePending(from) && FlowsInto(from.cnts, to.cnts)
  {
    hide Frames, HeadOf, AckInv, TotalLen, OneFramePending, SendInv, ReceiveInv;
    PendingCounts(from);
    Conservation(from, to);
    if from.sbuf != [] {
      LastIsPending(from, to);
      TotalLenPrefix(to.assembled, from.accepted[..|from.accepted| - 1]);
      LastLen(from.accepted);
    } else {
      TotalLenPrefix(to.assembled, from.accepted);
    }
  }

  lemma {:induction false} DeliveredLen(out: seq<Msg>, ms: seq<Msg>)
    requires |out| == |ms| && forall i :: 0 <= i < |out| ==> out[i] <= ms[i]
    ensures TotalLen(out) <= TotalLen(ms)
  {
    if out != [] {
      DeliveredLen(out[..|out| - 1], ms[..|ms| - 1]);
    }
  }

  /** Reception does not depend on how the stream was cut into reads: the messages assembled so
      far, and the partial frame, are what the reference decoder finds in the bytes consumed. */
  lemma ChunkingIsInvisible(c: Conn)
    requires ConnInv(c)
    ensures Decode(c.read) == Decoded(c.assembled, c.rbuf)
    ensures |c.rbuf| < WIRE_MAX
    ensures c.bad <==> HeadOf(c.rbuf) == TooLong
  {
    DecodeFrames(c.assembled, c.rbuf);
    assert c.assembled + [] == c.assembled;
  }

  /** Between two endpoints of this protocol no oversized or empty frame ever comes up: bad
      connections are the work of other peers. */
  lemma NeverMalformed(states: seq<Sys>, acts: seq<Act>, k: nat)
    requires SysRun(states, acts) && k < |states|
    ensures WellFormed(states[k].a) && WellFormed(states[k].b)
  {
    hide SysRun, SendInv, ReceiveInv, CountersInv, AckInv, WellFormed;
    RunKeepsInv(states, acts, k);
    ProperlyFed(states[k].a, states[k].b);
    ProperlyFed(states[k].b, states[k].a);
  }

  predicate WellFormed(c: Conn) {
    !c.bad && HeadOf(c.rbuf) == NeedMore
  }

  lemma ProperlyFed(from: Conn, to: Conn)
    requires SendInv(from) && ReceiveInv(to) && to.read <= from.written
    ensures WellFormed(to)
  {
    hide Frame, HeadOf, Frames, CountersInv, AckInv;
    Conservation(from, to);
    var n := |to.assembled|;
    var tail := from.accepted[n..];
    assert from.accepted == to.assembled + tail;
    FramesConcat(to.assembled, tail);
    Regroup(Frames(to.assembled), to.rbuf, InFlight(from, to), Unsent(from));
    SameRest(Frames(to.assembled), Frames(tail), to.rbuf + InFlight(from, to) + Unsent(from));
    PrefixOfFrames(to.rbuf, tail);
  }

  /** One endpoint and any peer: the states of a connection, the calls made and their answers. */
  ghost predicate ConnRun(cs: seq<Conn>, calls: seq<Call>, rs: seq<IoResult>) {
    && |cs| == |calls| + 1 && |rs| == |calls|
    && Initial(cs[0])
    && forall k :: 0 <= k < |calls| ==> Step(cs[k], calls[k], cs[k + 1], rs[k])
  }

  lemma {:induction false} ConnRunKeepsInv(cs: seq<Conn>, calls: seq<Call>, rs: seq<IoResult>, k: nat)
    requires ConnRun(cs, calls, rs) && k < |cs|
    ensures ConnInv(cs[k])
  {
    hide Step, ConnInv, Initial;
    if k == 0 {
      InitialInv(cs[0]);
    } else {
      ConnRunKeepsInv(cs, calls, rs, k - 1);
      StepKeepsInv(cs[k - 1], calls[k - 1], cs[k], rs[k - 1]);
    }
  }

  /** A frame of length zero is never completed: a receive reads nothing and assembles nothing. It
      answers with the end of the stream exactly when the read of zero bytes has closed the
      connection, or the connection was broken by EPIPE with a frame pending; otherwise it fails. */
  lemma EmptyFrameIsNeverCompleted(c: Conn, call: Call, c': Conn, r: IoResult)
    requires ConnInv(c) && HeadOf(c.rbuf) == EmptyFrame && call.ReceiveCall? && Step(c, call, c', r)
    ensures c'.assembled == c.assembled && c'.rbuf == c.rbuf && c'.read == c.read && call.out == []
    ensures r == Done(0) <==> c'.phase.Closed? || (call.mid.phase == Broken(EPIPE) && c.sbuf != [])
    ensures r != Done(0) ==> r == Fail(FailureOf(c'.phase))
  {
    hide Frame, Frames, CountersInv, TotalLen;
    if !(call.flushed.Fail? && call.flushed.errno != EAGAIN) {
      var total := c.rbuf + c'.read[|c.read|..];
      assert total[..HDR_LEN] == c.rbuf[..HDR_LEN];
      assert c'.read[|c.read|..] == [];
    }
  }

  /** So such a frame ends the reception for good, whatever is called afterwards. */
  lemma {:induction false} EmptyFrameEndsReception(cs: seq<Conn>, calls: seq<Call>, rs: seq<IoResult>, i: nat, j: nat)
    requires ConnRun(cs, calls, rs) && i <= j < |cs| && HeadOf(cs[i].rbuf) == EmptyFrame
    ensures cs[j].assembled == cs[i].assembled && cs[j].rbuf == cs[i].rbuf && cs[j].read == cs[i].read
  {
    hide Step, ConnInv, Initial, HeadOf;
    if i < j {
      EmptyFrameEndsReception(cs, calls, rs, i, j - 1);
      ConnRunKeepsInv(cs, calls, rs, j - 1);
      var c, call, c', r := cs[j - 1], calls[j - 1], cs[j], rs[j - 1];
      assert Step(c, call, c', r);
      if call.ReceiveCall? {
        EmptyFrameIsNeverCompleted(c, call, c', r);
      } else {
        OnlyReceiveReceives(c, call, c', r);
      }
    }
  }

  lemma OnlyReceiveReceives(c: Conn, call: Call, c': Conn, r: IoResult)
    requires Step(c, call, c', r) && !call.ReceiveCall?
    ensures c'.assembled == c.assembled && c'.rbuf == c.rbuf && c'.read == c.read
  {
  }

  /** An oversized header is reported as EPROTO by every later call, and nothing else happens. */
  lemma OversizedHeaderIsSticky(c: Conn, call: Call, c': Conn, r: IoResult)
    requires ConnInv(c) && c.bad && Step(c, call, c', r)
    requires call.SendCall? ==> ProperMsg(call.m)
    ensures c' == c && r == Fail(EPROTO)
  {
  }

  /** Over a whole run: a connection failed by an oversized header never changes again. */
  lemma {:induction false} BadForever(cs: seq<Conn>, calls: seq<Call>, rs: seq<IoResult>, i: nat, j: nat)
    requires ConnRun(cs, calls, rs) && i <= j < |cs| && cs[i].bad
    ensures cs[j] == cs[i]
    ensures j < |calls| && (calls[j].SendCall? ==> ProperSend(calls[j])) ==> rs[j] == Fail(EPROTO)
  {
    hide Step, ConnInv, Initial;
    if i < j {
      BadForever(cs, calls, rs, i, j - 1);
      BadStep(cs, calls, rs, j - 1);
    }
    if j < |calls| {
      BadStep(cs, calls, rs, j);
    }
  }

  lemma BadStep(cs: seq<Conn>, calls: seq<Call>, rs: seq<IoResult>, k: nat)
    requires ConnRun(cs, calls, rs) && k < |calls| && cs[k].bad
    ensures cs[k + 1] == cs[k] && ((calls[k].SendCall? ==> ProperSend(calls[k])) ==> rs[k] == Fail(EPROTO))
  {
    hide Step, ConnInv, Initial;
    ConnRunKeepsInv(cs, calls, rs, k);
    assert Step(cs[k], calls[k], cs[k + 1], rs[k]);
    if calls[k].SendCall? && !ProperMsg(calls[k].m) {
      ImproperSend(cs[k], calls[k], cs[k + 1], rs[k]);
    } else {
      OversizedHeaderIsSticky(cs[k], calls[k], cs[k + 1], rs[k]);
    }
  }

  /** The answers of a connection whose lower socket is closed or broken never change: each
      operation fails with the errno of the connection, except that a closed one is reported by
      receive as the end of the stream. The same is reported for a connection broken by EPIPE
      while a frame is pending. */
  lemma DeadConnection(c: Conn, call: Call, c': Conn, r: IoResult)
    requires ConnInv(c) && !Usable(c.phase) && Step(c, call, c', r)
    requires call.SendCall? ==> ProperMsg(call.m)
    ensures c'.phase == c.phase && c'.written == c.written && c'.read == c.read && c'.assembled == c.assembled
    ensures !c'.bad && (c.sbuf != [] ==> c'.sbuf == c.sbuf)
    ensures if call.ReceiveCall? && (c.phase.Closed? || (c.phase == Broken(EPIPE) && c.sbuf != [])) then r == Done(0)
            else r == Fail(FailureOf(c.phase))
  {
    hide Frame, HeadOf, Frames, CountersInv, TotalLen;
    match call
    case SendCall(_, _, _, _, _) =>
      DeadFlush(c, call.mid, call.flushed);
      if call.flushed.Done? {
        FrameNonEmpty(call.m);
        DeadFlush(Accepted(call.mid, call.m), call.fin, call.pushed);
      }
    case ReceiveCall(_, _, _, _) =>
      DeadFlush(c, call.mid, call.flushed);
      if !(call.flushed.Fail? && call.flushed.errno != EAGAIN) {
        assert call.mid.rbuf + c'.read[|call.mid.read|..] == c.rbuf;
      }
    case FinishCall(_, _, _) =>
      DeadFlush(c, call.mid, call.flushed);
  }

  /** The first send on a dead connection fails like every other, and yet the message is put in the
      buffer and counted; with a frame already pending it is not. */
  lemma DeadSend(c: Conn, call: Call, c': Conn, r: IoResult)
    requires ConnInv(c) && !Usable(c.phase) && ProperSend(call) && Step(c, call, c', r)
    ensures r == Fail(FailureOf(c.phase)) && c'.acked == c.acked
    ensures Counted(c, call.m, c') <==> c.sbuf == []
    ensures c.sbuf != [] ==> c'.accepted == c.accepted && c'.cnts == c.cnts && c'.sbuf == c.sbuf
  {
    DeadConnection(c, call, c', r);
    SendKeepsInv(c, call, c', r);
    FrameNonEmpty(call.m);
    hide Frame, HeadOf, Frames, CountersInv, TotalLen;
    DeadFlush(c, call.mid, call.flushed);
    if call.flushed.Done? {
      DeadFlush(Accepted(call.mid, call.m), call.fin, call.pushed);
    }
  }

  /** The message has been put in the send buffer and counted as coming from the application. */
  predicate Counted(c: Conn, m: Msg, c': Conn)
    requires ProperMsg(m)
  {
    && c'.accepted == c.accepted + [m] && c'.sbuf == Frame(m)
    && c'.cnts.fromAppMsgs == c.cnts.fromAppMsgs + 1 && c'.cnts.fromAppBytes == c.cnts.fromAppBytes + |m|
  }

  /** Over a whole run, a dead connection stays what it is, and a frame once pending stays. */
  lemma {:induction false} DeadStays(cs: seq<Conn>, calls: seq<Call>, rs: seq<IoResult>, i: nat, j: nat)
    requires ConnRun(cs, calls, rs) && i <= j < |cs| && !Usable(cs[i].phase)
    ensures cs[j].phase == cs[i].phase && !cs[j].bad && (cs[i].sbuf != [] ==> cs[j].sbuf == cs[i].sbuf)
    ensures cs[j].written == cs[i].written && cs[j].read == cs[i].read && cs[j].assembled == cs[i].assembled
  {
    hide Step, ConnInv, Initial;
    ConnRunKeepsInv(cs, calls, rs, i);
    DeadIsNotBad(cs[i]);
    if i < j {
      DeadStays(cs, calls, rs, i, j - 1);
      ConnRunKeepsInv(cs, calls, rs, j - 1);
      var c, call, c', r := cs[j - 1], calls[j - 1], cs[j], rs[j - 1];
      assert Step(c, call, c', r);
      if call.SendCall? && !ProperMsg(call.m) {
        ImproperSend(c, call, c', r);
      } else {
        DeadConnection(c, call, c', r);
      }
    }
  }

  lemma DeadIsNotBad(c: Conn)
    requires ConnInv(c) && !Usable(c.phase)
    ensures !c.bad
  {
  }

  lemma ImproperSend(c: Conn, call: Call, c': Conn, r: IoResult)
    requires Step(c, call, c', r) && call.SendCall? && !ProperMsg(call.m)
    ensures c' == c && r == Fail(if |call.m| == 0 then EINVAL else EMSGSIZE)
  {
  }

  /** Repeated calls on an unusable connection: two sends of proper messages, and two finishes,
      always have the same answer. Two receives have the same answer if and only if the connection
      was not broken by EPIPE, or a frame was pending at both of them or at neither. */
  lemma RepeatedCalls(cs: seq<Conn>, calls: seq<Call>, rs: seq<IoResult>, i: nat, j: nat)
    requires ConnRun(cs, calls, rs) && i <= j < |calls| && !Usable(cs[i].phase)
    ensures ProperSend(calls[i]) && ProperSend(calls[j]) ==> rs[i] == rs[j]
    ensures calls[i].FinishCall? && calls[j].FinishCall? ==> rs[i] == rs[j]
    ensures calls[i].ReceiveCall? && calls[j].ReceiveCall? ==>
              (rs[i] == rs[j] <==> cs[i].phase != Broken(EPIPE) || (cs[i].sbuf == [] <==> cs[j].sbuf == []))
  {
    hide Step, ConnInv, Initial;
    DeadStays(cs, calls, rs, i, j);
    ConnRunKeepsInv(cs, calls, rs, i);
    ConnRunKeepsInv(cs, calls, rs, j);
    assert Step(cs[i], calls[i], cs[i + 1], rs[i]) && Step(cs[j], calls[j], cs[j + 1], rs[j]);
    if !calls[i].SendCall? || ProperSend(calls[i]) {
      DeadConnection(cs[i], calls[i], cs[i + 1], rs[i]);
    }
    if !calls[j].SendCall? || ProperSend(calls[j]) {
      DeadConnection(cs[j], calls[j], cs[j + 1], rs[j]);
    }
  }

  predicate ProperSend(call: Call) {
    call.SendCall? && ProperMsg(call.m)
  }

  /** The exception is real: from the start, a receive whose read fails with EPIPE breaks the
      connection and answers with this errno, and after a failed send another receive answers
      with the end of the stream. */
  lemma EpipeAnswersDiffer()
    ensures exists cs: seq<Conn>, calls: seq<Call>, rs: seq<IoResult> ::
              && ConnRun(cs, calls, rs) && |calls| == 3
              && calls[0].ReceiveCall? && rs[0] == Fail(EPIPE) && cs[1].phase == Broken(EPIPE)
              && ProperSend(calls[1]) && rs[1] == Fail(EPIPE)
              && calls[2].ReceiveCall? && rs[2] == Done(0)
  {
    hide Step, Accepted, AssembleStep;
    var failed := Fail(EPIPE);
    var c0 := Conn(false, 0, [], 0, [], NO_COUNTS, Up, [], [], [], [], [], [], []);
    var c1 := c0.(calls := [ReceiveOp(HDR_LEN, failed)], phase := Broken(EPIPE));
    var receive0 := ReceiveCall(1, c0, Done(0), []);
    ReadBreaks(c0, c1, receive0);
    var m: Msg := [0];
    var c2 := Refused(Accepted(c1, m));
    var send := SendCall(m, c1, Done(0), c2, failed);
    SendFails(c1, send);
    var c3 := Refused(c2);
    var receive1 := ReceiveCall(1, c3, failed, []);
    NextReceiveEnds(c2, receive1);
    var cs, calls, rs := [c0, c1, c2, c3], [receive0, send, receive1], [failed, failed, Done(0)];
    assert ConnRun(cs, calls, rs);
  }

  lemma ReadBreaks(c: Conn, c': Conn, call: Call)
    requires !c.bad && c.sbuf == [] && c.rbuf == [] && c.calls == [] && c.phase.Up?
    requires c' == c.(calls := [ReceiveOp(HDR_LEN, Fail(EPIPE))], phase := Broken(EPIPE))
    requires call == ReceiveCall(1, c, Done(0), [])
    ensures Step(c, call, c', Fail(EPIPE))
  {
    hide DecodeLen;
    assert c'.read[|c.read|..] == [];
    assert c.rbuf + [] == [];
    assert AssembleStep(c, 1, c', Fail(EPIPE), []);
  }

  /** The connection after its frame has been offered once more to a broken lower socket. */
  function Refused(c: Conn): Conn {
    c.(calls := c.calls + [SendOp(|Unsent(c)|, Fail(EPIPE))])
  }

  lemma SendFails(c: Conn, call: Call)
    requires !c.bad && c.sbuf == [] && c.phase == Broken(EPIPE) && call.SendCall? && ProperMsg(call.m)
    requires call == SendCall(call.m, c, Done(0), Refused(Accepted(c, call.m)), Fail(EPIPE))
    ensures Step(c, call, call.fin, Fail(EPIPE)) && call.fin.sbuf != [] && call.fin.sent < |call.fin.sbuf|
    ensures !call.fin.bad && call.fin.phase == Broken(EPIPE)
  {
  }

  lemma NextReceiveEnds(c: Conn, call: Call)
    requires !c.bad && c.sbuf != [] && c.sent < |c.sbuf| && c.phase == Broken(EPIPE)
    requires call == ReceiveCall(1, Refused(c), Fail(EPIPE), [])
    ensures Step(c, call, Refused(c), Done(0))
  {
  }

  lemma FrameNonEmpty(m: Msg)
    requires ProperMsg(m)
    ensures Frame(m) != []
  {
  }

  /** A dead lower socket takes nothing. */
  lemma DeadFlush(c: Conn, c': Conn, r: IoResult)
    requires FlushStep(c, c', r) && !Usable(c.phase) && ProperPhase(c.phase) && (c.sbuf == [] || c.sent < |c.sbuf|)
    ensures c'.phase == c.phase && c'.written == c.written && c'.read == c.read && c'.sbuf == c.sbuf
    ensures c'.sent == c.sent
    ensures c'.rbuf == c.rbuf && c'.bad == c.bad && c'.assembled == c.assembled
    ensures r == if c.sbuf == [] then Done(0) else Fail(FailureOf(c.phase))
    ensures c.sbuf == [] ==> c' == c
    ensures c'.accepted == c.accepted && c'.cnts == c.cnts
  {
  }
}
