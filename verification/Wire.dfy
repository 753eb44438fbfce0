/** libxcm/tp/common/mbuf.h, the wire format: a message is preceded by its length as four bytes
    in network order. A pure encoder and decoder, as the reference for the transport. */
module Wire {
  import opened KernelModel

  type Msg = seq<Byte>

  const MSG_MAX := 65535
  const HDR_LEN := 4
  const WIRE_MAX := MSG_MAX + HDR_LEN

  /** htonl: the most significant byte comes first. */
  function EncodeLen(n: nat): (h: seq<Byte>)
    requires n < 0x1_0000_0000
    ensures |h| == HDR_LEN
    ensures h[0] as int * 0x100_0000 + h[1] as int * 0x1_0000 + h[2] as int * 0x100 + h[3] as int == n
  {
    Bytewise(n);
    [n / 0x100_0000, n / 0x1_0000 % 256, n / 0x100 % 256, n % 256]
  }

  lemma Bytewise(n: nat)
    requires n < 0x1_0000_0000
    ensures n / 0x100_0000 * 0x100_0000 + n / 0x1_0000 % 256 * 0x1_0000 + n / 0x100 % 256 * 0x100 + n % 256 == n
    ensures n / 0x100_0000 < 256
  {
    var n1 := n / 0x100;
    var n2 := n1 / 0x100;
    assert n == n1 * 0x100 + n % 0x100 && n1 == n2 * 0x100 + n1 % 0x100 && n2 == n2 / 0x100 * 0x100 + n2 % 0x100;
    assert n / 0x1_0000 == n2 && n / 0x100_0000 == n2 / 0x100;
  }

  /** ntohl */
  function DecodeLen(h: seq<Byte>): (n: nat)
    requires |h| == HDR_LEN
    ensures n < 0x1_0000_0000
  {
    (h[0] as int) * 0x100_0000 + (h[1] as int) * 0x1_0000 + (h[2] as int) * 0x100 + h[3] as int
  }

  lemma LenRoundTrip(n: nat)
    requires n < 0x1_0000_0000
    ensures DecodeLen(EncodeLen(n)) == n
  {
  }

  lemma HeaderRoundTrip(h: seq<Byte>)
    requires |h| == HDR_LEN
    ensures EncodeLen(DecodeLen(h)) == h
  {
    var a, b, c, d := h[0] as int, h[1] as int, h[2] as int, h[3] as int;
    var n := DecodeLen(h);
    Quotient(n, a * 0x1_0000 + b * 0x100 + c, d);
    Quotient(n / 0x100, a * 0x100 + b, c);
    Quotient(n / 0x1_0000, a, b);
  }

  lemma Quotient(n: int, q: int, r: int)
    requires n == q * 0x100 + r && 0 <= r < 0x100
    ensures n / 0x100 == q && n % 0x100 == r
  {
  }

  /** What xcm_send accepts. */
  predicate ProperMsg(m: Msg) {
    1 <= |m| <= MSG_MAX
  }

  function Frame(m: Msg): (f: seq<Byte>)
    requires ProperMsg(m)
    ensures |f| == HDR_LEN + |m|
  {
    EncodeLen(|m|) + m
  }

  /** What goes over the wire: two zero bytes, the length with its high byte first, the message. */
  lemma FrameInBytes(m: Msg)
    requires ProperMsg(m)
    ensures Frame(m)[..HDR_LEN] == [0, 0, |m| / 256, |m| % 256] && Frame(m)[HDR_LEN..] == m
  {
    var h := EncodeLen(|m|);
    assert Frame(m)[..HDR_LEN] == h;
    assert h[0] == 0 && h[1] == 0;
  }

  ghost predicate ProperMsgs(ms: seq<Msg>) {
    forall i :: 0 <= i < |ms| ==> ProperMsg(ms[i])
  }

  /** The wire image of a sequence of messages. */
  function Frames(ms: seq<Msg>): seq<Byte>
    requires ProperMsgs(ms)
  {
    if ms == [] then [] else Frames(ms[..|ms| - 1]) + Frame(ms[|ms| - 1])
  }

  /** What the beginning of a stream holds. An empty frame is never completed: reading its zero
      remaining bytes looks like the end of the stream. */
  datatype Head = NeedMore | Complete(msg: Msg) | EmptyFrame | TooLong

  /** Classifies the buffered beginning of one frame. */
  function HeadOf(s: seq<Byte>): Head {
    if |s| < HDR_LEN then NeedMore
    else
      var len := DecodeLen(s[..HDR_LEN]);
      if len > MSG_MAX then TooLong
      else if len == 0 then EmptyFrame
      else if |s| < HDR_LEN + len then NeedMore
      else Complete(s[HDR_LEN..HDR_LEN + len])
  }

  /** A received header is oversized exactly when one of its two high bytes is not zero, and else
      gives the length with its high byte first. */
  lemma HeaderInBytes(s: seq<Byte>)
    requires |s| >= HDR_LEN
    ensures HeadOf(s) == TooLong <==> s[0] != 0 || s[1] != 0
    ensures HeadOf(s) == EmptyFrame <==> s[..HDR_LEN] == [0, 0, 0, 0]
    ensures HeadOf(s).Complete? ==> |HeadOf(s).msg| == s[2] as int * 256 + s[3] as int
  {
    assert s[..HDR_LEN] == [s[0], s[1], s[2], s[3]];
  }

  datatype Decoded = Decoded(msgs: seq<Msg>, rest: seq<Byte>)

  /** The reference decoder: splits a byte stream into its complete messages and what is left. */
  function Decode(s: seq<Byte>): Decoded
    decreases |s|
  {
    match HeadOf(s)
    case Complete(m) =>
      var d := Decode(s[HDR_LEN + |m|..]);
      Decoded([m] + d.msgs, d.rest)
    case _ => Decoded([], s)
  }

  lemma HeadOfFrame(m: Msg, rest: seq<Byte>)
    requires ProperMsg(m)
    ensures HeadOf(Frame(m) + rest) == Complete(m)
  {
    LenRoundTrip(|m|);
    assert (Frame(m) + rest)[..HDR_LEN] == EncodeLen(|m|);
    assert (Frame(m) + rest)[HDR_LEN..HDR_LEN + |m|] == m;
  }

  /** A complete head is a frame. */
  lemma CompleteIsFrame(s: seq<Byte>)
    requires HeadOf(s).Complete?
    ensures ProperMsg(HeadOf(s).msg)
    ensures var m := HeadOf(s).msg; |s| >= HDR_LEN + |m| && s == Frame(m) + s[HDR_LEN + |m|..]
  {
    HeaderRoundTrip(s[..HDR_LEN]);
    var m := HeadOf(s).msg;
    assert s[..HDR_LEN] + m + s[HDR_LEN + |m|..] == s;
  }

  lemma {:induction false} FramesCons(m: Msg, ms: seq<Msg>)
    requires ProperMsg(m) && ProperMsgs(ms)
    ensures ProperMsgs([m] + ms) && Frames([m] + ms) == Frame(m) + Frames(ms)
  {
    hide EncodeLen, Frame;
    if ms == [] {
      assert [m] + ms == [m] && [m][..0] == [];
    } else {
      var front, last := ms[..|ms| - 1], ms[|ms| - 1];
      assert ([m] + ms)[..|ms|] == [m] + front;
      FramesCons(m, front);
      assert Frame(m) + (Frames(front) + Frame(last)) == Frame(m) + Frames(front) + Frame(last);
    }
  }

  /** Decoding finds exactly the messages that were framed, wherever the stream is cut. */
  lemma {:induction false} DecodeFrames(ms: seq<Msg>, rest: seq<Byte>)
    requires ProperMsgs(ms)
    ensures Decode(Frames(ms) + rest) == Decoded(ms + Decode(rest).msgs, Decode(rest).rest)
  {
    hide EncodeLen, DecodeLen, Frame, HeadOf;
    if ms == [] {
      assert Frames(ms) + rest == rest;
      assert ms + Decode(rest).msgs == Decode(rest).msgs;
    } else {
      var m, tail := ms[0], ms[1..];
      assert ms == [m] + tail;
      FramesCons(m, tail);
      assert Frames(ms) + rest == Frame(m) + (Frames(tail) + rest);
      HeadOfFrame(m, Frames(tail) + rest);
      assert (Frame(m) + (Frames(tail) + rest))[HDR_LEN + |m|..] == Frames(tail) + rest;
      DecodeFrames(tail, rest);
      assert [m] + (tail + Decode(rest).msgs) == ms + Decode(rest).msgs;
    }
  }

  /** Decoding loses nothing: the messages and the rest make up the stream. */
  lemma {:induction false} DecodeIsLossless(s: seq<Byte>)
    ensures ProperMsgs(Decode(s).msgs) && Frames(Decode(s).msgs) + Decode(s).rest == s
    ensures !HeadOf(Decode(s).rest).Complete?
    decreases |s|
  {
    if HeadOf(s).Complete? {
      CompleteIsFrame(s);
      var m := HeadOf(s).msg;
      var d := Decode(s[HDR_LEN + |m|..]);
      DecodeIsLossless(s[HDR_LEN + |m|..]);
      LosslessStep(s, m, d);
      assert Decode(s) == Decoded([m] + d.msgs, d.rest);
    } else {
      assert Frames([]) + s == s;
    }
  }

  lemma LosslessStep(s: seq<Byte>, m: Msg, d: Decoded)
    requires ProperMsg(m) && ProperMsgs(d.msgs) && |s| >= HDR_LEN + |m|
    requires s == Frame(m) + s[HDR_LEN + |m|..] && Frames(d.msgs) + d.rest == s[HDR_LEN + |m|..]
    ensures ProperMsgs([m] + d.msgs) && Frames([m] + d.msgs) + d.rest == s
  {
    hide EncodeLen, Frame, Frames;
    FramesCons(m, d.msgs);
    assert Frame(m) + (Frames(d.msgs) + d.rest) == Frame(m) + Frames(d.msgs) + d.rest;
  }

  /** Framing is prefix-free: if the frames of `got` begin the frames of `sent`, then `got`
      begins `sent`, message by message. */
  lemma FramedPrefix(got: seq<Msg>, sent: seq<Msg>, rest: seq<Byte>)
    requires ProperMsgs(got) && ProperMsgs(sent)
    requires Frames(sent) == Frames(got) + rest
    ensures got <= sent
  {
    hide EncodeLen, DecodeLen, Frame, Frames;
    DecodeFrames(got, rest);
    DecodeFrames(sent, []);
    assert Frames(sent) + [] == Frames(sent);
    assert sent + [] == sent;
  }

  lemma {:induction false} FramesConcat(a: seq<Msg>, b: seq<Msg>)
    requires ProperMsgs(a + b)
    ensures ProperMsgs(a) && ProperMsgs(b) && Frames(a + b) == Frames(a) + Frames(b)
  {
    hide Frame;
    assert forall i :: 0 <= i < |a| ==> a[i] == (a + b)[i];
    assert forall i :: 0 <= i < |b| ==> b[i] == (a + b)[|a| + i];
    if b == [] {
      assert a + b == a;
    } else {
      var last := |b| - 1;
      assert (a + b)[..|a + b| - 1] == a + b[..last];
      FramesConcat(a, b[..last]);
      assert Frames(a) + (Frames(b[..last]) + Frame(b[last])) == Frames(a) + Frames(b[..last]) + Frame(b[last]);
    }
  }

  /** The beginning of a proper stream is classified as a frame to be completed, or complete. */
  lemma PrefixOfFrames(s: seq<Byte>, ms: seq<Msg>)
    requires ProperMsgs(ms) && s <= Frames(ms)
    ensures HeadOf(s) == NeedMore || HeadOf(s).Complete?
  {
    if ms == [] {
      assert s == [];
    } else if |s| >= HDR_LEN {
      assert ms == [ms[0]] + ms[1..];
      FramesCons(ms[0], ms[1..]);
      HeadOfFrame(ms[0], Frames(ms[1..]));
      assert s[..HDR_LEN] == Frames(ms)[..HDR_LEN];
    }
  }
}
