/** mqtt_ack, the base of PUBACK, PUBREC, PUBREL, PUBCOMP and UNSUBACK, and the messages that have no
    body at all: PINGREQ, PINGRESP and DISCONNECT. */
module MqttAck {
  import opened Bytes
  import opened Packets
  import opened Fields
  import opened Updates
  import opened MqttHeader

  class AckMessage {
    const kind: AckKind
    const header: Header
    const hbuf: array<byte>
    var pktId: ushort
    var hlen: nat
    var finished: bool

    ghost predicate Valid()
      reads this, header
    {
      header.Valid() && header.kind == AckCode(kind) && hbuf.Length == 2
    }

    function Content(): Packet
      reads this, header
    {
      Ack(kind, header.hflags, pktId)
    }

    ghost predicate Receiving()
      reads this, header
    {
      Valid() && hbuf != header.hbuf && (!finished ==> hlen < 2)
    }

    ghost function AsField(): (f: Field)
      requires Receiving()
      reads this, header
      ensures Typed(f) && !InHeader(f)
    {
      if finished then Done(Content()) else AVar(kind, header.hflags)
    }

    ghost function Part(): bytes
      requires Receiving()
      reads this, header, hbuf
    {
      if finished then [] else hbuf[..hlen]
    }

    /** PUBREL carries the flags 2. */
    constructor (k: AckKind)
      ensures Valid() && fresh(header) && fresh(header.hbuf) && fresh(hbuf) && !finished
      ensures Content() == Ack(k, if k.Pubrel? then 2 else 0, 0)
    {
      kind := k;
      header := new Header(AckCode(k));
      hbuf := new byte[2];
      pktId, hlen, finished := 0, 0, false;
      new;
      if k.Pubrel? {
        header.SetHeaderFlags(2);
      }
    }

    constructor Received(k: AckKind, h: Header)
      requires h.Valid() && h.kind == AckCode(k)
      ensures Receiving() && !finished && fresh(header) && fresh(header.hbuf) && fresh(hbuf)
      ensures AsField() == AVar(k, if k.Pubrel? then 2 else h.hflags) && Part() == []
    {
      kind := k;
      header := new Header.Copy(h);
      hbuf := new byte[2];
      pktId, hlen, finished := 0, 0, false;
      new;
      if k.Pubrel? {
        header.SetHeaderFlags(2);
      }
    }

    method SetPktId(id: ushort)
      modifies `pktId
      ensures pktId == if id > 0 then id else old(pktId)
    {
      if id > 0 { pktId := id; }
    }

    method ToString(out: bytes) returns (ok: bool, out': bytes)
      requires Valid()
      modifies header`dlen
      ensures Valid() && Content() == old(Content())
      ensures ok && out' == out + Print(Content())
    {
      hide EncodeLength;
      header.SetRemainingLength(2);
      ok, out' := header.BuildHeader(out);
      out' := out' + PackShort(pktId);
    }

    method UpdateHeaderVar(data: bytes) returns (left: int)
      requires Receiving() && !finished && data != []
      modifies this, hbuf
      ensures Receiving() && 0 <= left < |data|
      ensures Advanced(old(AsField()), old(Part()), data, left, AsField(), Part())
    {
      hide Parse;
      ghost var f, part := AsField(), Part();
      assert hlen < 2;  // the check at the entry of the handler never fires
      var used;
      hlen, used := Fill(hbuf, hlen, 2, data);
      left := |data| - used;
      if hlen < 2 {
        AdvancePart(f, part, data);
        assert data[..used] == data;
        return;
      }
      AdvanceField(f, part, data, used);
      pktId := UnpackShort(hbuf[..2]);
      finished := true;
    }

    method Update(data: bytes) returns (left: int)
      requires Receiving()
      modifies this, hbuf
      ensures data == [] ==> left == -1
      ensures data != [] ==> left >= 0 && Receiving()
      ensures data != [] ==>
                Reads(Parse(old(AsField()), old(Part()) + data), data, left, AsField(), Part())
    {
      hide Parse, Take, Need, Advanced;
      if data == [] {
        return -1;
      }
      ghost var f, part := AsField(), Part();
      left := |data|;
      AdvanceStart(f, part, data);
      while left > 0 && !finished
        invariant 0 <= left <= |data| && Receiving()
        invariant Advanced(f, part, data, left, AsField(), Part())
        decreases left
      {
        ghost var g, part' := AsField(), Part();
        var ret := UpdateHeaderVar(data[|data| - left..]);
        AdvanceNext(f, part, data, left, g, part', ret, AsField(), Part());
        left := ret;
      }
      FieldWaits();
      AdvanceEnd(f, part, data, left, AsField(), Part());
    }

    lemma FieldWaits()
      requires Receiving()
      ensures if finished then Stops(AsField()) && Part() == [] else Waits(AsField(), Part())
    {
    }
  }

  class EmptyMessage {
    const kind: EmptyKind
    const header: Header

    ghost predicate Valid()
      reads this, header
    {
      header.Valid() && header.kind == EmptyCode(kind)
    }

    function Content(): Packet
      reads this, header
    {
      Empty(kind, header.hflags)
    }

    constructor (k: EmptyKind)
      ensures Valid() && fresh(header) && fresh(header.hbuf) && Content() == Empty(k, 0)
    {
      kind := k;
      header := new Header(EmptyCode(k));
    }

    constructor Received(k: EmptyKind, h: Header)
      requires h.Valid() && h.kind == EmptyCode(k)
      ensures Valid() && fresh(header) && fresh(header.hbuf) && Content() == Empty(k, h.hflags)
    {
      kind := k;
      header := new Header.Copy(h);
    }

    method ToString(out: bytes) returns (ok: bool, out': bytes)
      requires Valid()
      modifies header`dlen
      ensures Valid() && Content() == old(Content())
      ensures ok && out' == out + Print(Content())
    {
      hide EncodeLength;
      header.SetRemainingLength(0);
      ok, out' := header.BuildHeader(out);
      assert out' == out' + [];
    }

    /** The message is complete from the start: all bytes belong to the next one. */
    method Update(data: bytes) returns (left: int)
      ensures left == |data|
      ensures Reads(Parse(Done(Content()), data), data, left, Done(Content()), [])
    {
      assert data[0..] == data;
      return |data|;
    }
  }
}
