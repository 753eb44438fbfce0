/** libxcm/tp/common/mbuf.h: the buffer of one message in its wire form. */
module MessageBuffer {
  import opened KernelModel
  import opened Wire

  class Mbuf {
    var data: array<Byte>
    var wireLen: nat

    ghost predicate Valid()
      reads this
    {
      wireLen <= data.Length <= WIRE_MAX
    }

    /** The wire bytes buffered so far. */
    ghost function Wire(): seq<Byte>
      requires Valid()
      reads this, data
    {
      data[..wireLen]
    }

    /** mbuf_init */
    constructor ()
      ensures Valid() && Wire() == [] && fresh(data)
    {
      data := new Byte[0];
      wireLen := 0;
    }

    /** mbuf_reset */
    method Reset()
      requires Valid()
      modifies `wireLen
      ensures Valid() && Wire() == []
    {
      wireLen := 0;
    }

    /** mbuf_wire_ensure_capacity: the buffer never needs to exceed one frame of maximum size. */
    method EnsureCapacity(capacity: nat)
      requires Valid() && capacity <= WIRE_MAX
      modifies `data
      ensures Valid() && Wire() == old(Wire()) && capacity <= data.Length
      ensures data == old(data) || fresh(data)
    {
      if data.Length < capacity {
        var larger := new Byte[capacity](i => 0);
        forall i | 0 <= i < data.Length {
          larger[i] := data[i];
        }
        data := larger;
      }
    }

    /** mbuf_set: the network-order length, then the message. */
    method Set(msg: Msg)
      requires Valid() && ProperMsg(msg)
      modifies this, data
      ensures Valid() && Wire() == Frame(msg)
      ensures Wire()[..HDR_LEN] == [0, 0, |msg| / 256, |msg| % 256] && Wire()[HDR_LEN..] == msg
      ensures data == old(data) || fresh(data)
    {
      EnsureCapacity(HDR_LEN + |msg|);
      var hdr := EncodeLen(|msg|);
      forall i | 0 <= i < HDR_LEN {
        data[i] := hdr[i];
      }
      forall i | 0 <= i < |msg| {
        data[HDR_LEN + i] := msg[i];
      }
      wireLen := HDR_LEN + |msg|;
      assert data[..HDR_LEN] == hdr;
      assert data[HDR_LEN..wireLen] == msg;
      assert data[..wireLen] == data[..HDR_LEN] + data[HDR_LEN..wireLen];
      FrameInBytes(msg);
    }

    /** The bytes a read has put behind the buffered ones, followed by mbuf_wire_appended. */
    method Append(bytes: seq<Byte>)
      requires Valid() && wireLen + |bytes| <= data.Length
      modifies `wireLen, data
      ensures Valid() && Wire() == old(Wire()) + bytes
    {
      forall i | 0 <= i < |bytes| {
        data[wireLen + i] := bytes[i];
      }
      wireLen := wireLen + |bytes|;
    }

    /** mbuf_hdr_left */
    function HdrLeft(): (n: nat)
      reads this
    {
      if wireLen < HDR_LEN then HDR_LEN - wireLen else 0
    }

    /** mbuf_complete_payload_len */
    function CompletePayloadLen(): (n: nat)
      requires Valid() && HdrLeft() == 0
      reads this, data
    {
      DecodeLen(data[..HDR_LEN])
    }

    /** mbuf_is_hdr_valid */
    predicate IsHdrValid()
      requires Valid() && HdrLeft() == 0
      reads this, data
    {
      CompletePayloadLen() <= MSG_MAX
    }

    /** mbuf_payload_left */
    function PayloadLeft(): int
      requires Valid() && HdrLeft() == 0
      reads this, data
    {
      CompletePayloadLen() - (wireLen - HDR_LEN)
    }

    lemma Slice(i: nat, j: nat)
      requires Valid() && i <= j <= wireLen
      ensures Wire()[i..j] == data[i..j]
    {
    }

    /** The queries of the buffer agree with the classification of the reference decoder. */
    lemma QueriesAgree()
      requires Valid() && HdrLeft() == 0
      ensures IsHdrValid() <==> HeadOf(Wire()) != TooLong
      ensures IsHdrValid() && PayloadLeft() >= 0 && CompletePayloadLen() > 0 ==>
                (PayloadLeft() == 0 <==> HeadOf(Wire()) == Complete(Wire()[HDR_LEN..]))
      ensures IsHdrValid() ==> (CompletePayloadLen() == 0 <==> HeadOf(Wire()) == EmptyFrame)
    {
    }
  }
}
