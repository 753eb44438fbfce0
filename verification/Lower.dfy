/** What the message transport relies on in the byte-stream socket below it. The messaging layer
    is proved against these relations, and BTCP is proved to satisfy them. What is polled after an
    update depends on the transport: BTLS waits for what its TLS library waits for. */
module Lower {
  import opened KernelModel
  import opened Wire

  /** A connection on its way up, up, closed by the peer, or unusable for a reason. */
  datatype Phase = Establishing | Up | Closed | Broken(reason: int)

  datatype IoResult = Done(n: nat) | Fail(errno: int)

  /** A call made on the byte stream, and its answer. */
  datatype Op = SendOp(len: nat, r: IoResult) | ReceiveOp(capacity: nat, r: IoResult) | FinishOp(r: IoResult)

  datatype Condition = Sendable | Receivable

  predicate Usable(p: Phase) {
    p.Establishing? || p.Up?
  }

  /** Phases only move forward, and closed and broken connections stay as they are. */
  predicate Forward(p: Phase, p': Phase) {
    match p
    case Establishing => true
    case Up => !p'.Establishing?
    case Closed => p' == p
    case Broken(_) => p' == p
  }

  predicate ProperPhase(p: Phase) {
    p.Broken? ==> HardError(p.reason)
  }

  /** The errno that goes with an operation that could not be carried out. */
  function FailureOf(p: Phase): int {
    match p
    case Establishing => EAGAIN
    case Up => EAGAIN
    case Closed => EPIPE
    case Broken(reason) => reason
  }

  /** Sending `len` bytes took the connection from `p` to `p'` with answer `r`. */
  predicate SendRel(p: Phase, len: nat, p': Phase, r: IoResult) {
    && Forward(p, p') && ProperPhase(p')
    && if r.Done? then p'.Up? && r.n <= len && (len > 0 ==> r.n > 0)
       else r.errno == FailureOf(p')
  }

  /** Receiving at most `capacity` bytes; zero bytes mean that the connection is closed. */
  predicate ReceiveRel(p: Phase, capacity: nat, p': Phase, r: IoResult) {
    && Forward(p, p') && ProperPhase(p')
    && if r.Done? then r.n <= capacity && if r.n == 0 then p'.Closed? else p'.Up?
       else !p'.Closed? && r.errno == FailureOf(p')
  }

  predicate FinishRel(p: Phase, p': Phase, r: IoResult) {
    && Forward(p, p') && ProperPhase(p')
    && r == if p'.Up? then Done(0) else Fail(FailureOf(p'))
  }

  function EventsOf(condition: set<Condition>): (events: set<EpollEvent>)
    ensures IN in events <==> Receivable in condition
    ensures OUT in events <==> Sendable in condition
  {
    (if Sendable in condition then {OUT} else {}) + (if Receivable in condition then {IN} else {})
  }

  /** What an update leaves behind in every stream: one that is closed or broken rings its bell. */
  predicate UpdateRel(p: Phase, ringing: bool) {
    !Usable(p) ==> ringing
  }

  /** What an update of a BTCP socket leaves behind besides: an established connection is polled
      for exactly the awaited condition. */
  predicate DirectRel(p: Phase, condition: set<Condition>, interest: set<EpollEvent>, ringing: bool) {
    p.Up? ==>
      && (IN in interest <==> Receivable in condition) && (OUT in interest <==> Sendable in condition)
      && !ringing
  }

  /** One call on the byte stream. */
  predicate OpRel(p: Phase, op: Op, p': Phase) {
    match op
    case SendOp(len, r) => SendRel(p, len, p', r)
    case ReceiveOp(capacity, r) => ReceiveRel(p, capacity, p', r)
    case FinishOp(r) => FinishRel(p, p', r)
  }

  ghost predicate OpRun(phases: seq<Phase>, ops: seq<Op>) {
    && |phases| == |ops| + 1
    && forall k :: 0 <= k < |ops| ==> OpRel(phases[k], ops[k], phases[k + 1])
  }

  /** What a dead connection answers. */
  function DeadAnswer(p: Phase, op: Op): IoResult {
    if op.ReceiveOp? && p.Closed? then Done(0) else Fail(FailureOf(p))
  }

  /** Over any sequence of calls, phases only move forward; and once a connection is closed or
      broken, that is what it stays, and every later call of a kind has the same answer. */
  lemma {:induction false} DeadForever(phases: seq<Phase>, ops: seq<Op>, i: nat, j: nat)
    requires OpRun(phases, ops) && i <= j < |phases|
    ensures Forward(phases[i], phases[j])
    ensures !Usable(phases[i]) ==> phases[j] == phases[i] && (j < |ops| ==> ops[j].r == DeadAnswer(phases[i], ops[j]))
  {
    if i < j {
      DeadForever(phases, ops, i, j - 1);
      assert OpRel(phases[j - 1], ops[j - 1], phases[j]);
    }
    if j < |ops| {
      assert OpRel(phases[j], ops[j], phases[j + 1]);
    }
  }

  /** Any byte stream that meets the relations above: its answers are left open otherwise. */
  class LowerStream {
    /** Whether this is a BTCP socket, which is polled for the awaited condition itself. */
    const direct: bool
    var phase: Phase
    var condition: set<Condition>
    /** What the poll set holds for this stream. */
    var interest: set<EpollEvent>
    var ringing: bool
    /** History: the bytes taken and given, and the calls made. */
    ghost var written: seq<Byte>
    ghost var read: seq<Byte>
    ghost var calls: seq<Op>

    constructor (direct: bool, phase: Phase)
      requires Usable(phase)
      ensures this.direct == direct && this.phase == phase && written == [] && read == [] && calls == []
      ensures condition == {}
    {
      this.direct, this.phase := direct, phase;
      condition, interest, ringing := {}, {}, false;
      written, read, calls := [], [], [];
    }

    method Send(buf: seq<Byte>) returns (r: IoResult)
      requires ProperPhase(phase)
      modifies `phase, `written, `calls
      ensures SendRel(old(phase), |buf|, phase, r)
      ensures written == old(written) + if r.Done? then buf[..r.n] else []
      ensures calls == old(calls) + [SendOp(|buf|, r)]
    {
      var p: Phase, answer: IoResult := *, *;
      if !SendRel(phase, |buf|, p, answer) {
        p, answer := phase, Fail(FailureOf(phase));
      }
      phase, r := p, answer;
      written := written + if r.Done? then buf[..r.n] else [];
      calls := calls + [SendOp(|buf|, r)];
    }

    method Receive(capacity: nat) returns (r: IoResult, bytes: seq<Byte>)
      requires ProperPhase(phase)
      modifies `phase, `read, `calls
      ensures ReceiveRel(old(phase), capacity, phase, r)
      ensures |bytes| == if r.Done? then r.n else 0
      ensures read == old(read) + bytes
      ensures calls == old(calls) + [ReceiveOp(capacity, r)]
    {
      var p: Phase, answer: IoResult := *, *;
      if !ReceiveRel(phase, capacity, p, answer) {
        p, answer := phase, if phase.Closed? then Done(0) else Fail(FailureOf(phase));
      }
      phase, r := p, answer;
      bytes := [];
      if r.Done? {
        var given: seq<Byte> := *;
        bytes := if |given| == r.n then given else seq(r.n, _ => 0);
      }
      read := read + bytes;
      calls := calls + [ReceiveOp(capacity, r)];
    }

    method Finish() returns (r: IoResult)
      requires ProperPhase(phase)
      modifies `phase, `calls
      ensures FinishRel(old(phase), phase, r)
      ensures calls == old(calls) + [FinishOp(r)]
    {
      var p: Phase, answer: IoResult := *, *;
      if !FinishRel(phase, p, answer) {
        p, answer := phase, if phase.Up? then Done(0) else Fail(FailureOf(phase));
      }
      phase, r := p, answer;
      calls := calls + [FinishOp(r)];
    }

    method Update()
      modifies `interest, `ringing
      ensures UpdateRel(phase, ringing)
      ensures direct ==> DirectRel(phase, condition, interest, ringing)
    {
      interest, ringing := EventsOf(condition), !Usable(phase);
      if phase.Establishing? || (phase.Up? && !direct) {
        interest, ringing := *, *;
      }
    }
  }
}
