/** mqtt_suback. */
module MqttSuback {
  import opened Bytes
  import opened Packets
  import opened Fields
  import opened Updates
  import opened MqttHeader

  datatype Status = HdrVar | TopicQos

  class SubackMessage {
    const header: Header
    const buff: array<byte>
    var pktId: ushort
    var status: Status
    var qoses: bytes
    var bodyLen: nat
    var nread: nat
    var finished: bool

    ghost predicate Valid()
      reads this, header
    {
      header.Valid() && header.kind == SUBACK && buff.Length == 2 && bodyLen < TWO_TO_THE_32
    }

    function Content(): Packet
      reads this
    {
      Suback(pktId, qoses)
    }

    ghost predicate Receiving()
      reads this, header
    {
      && Valid() && bodyLen < MAX_REMAINING
      && (!finished ==>
            match status
            case HdrVar => nread < 2 && qoses == []
            case TopicQos => nread == 2 + |qoses| && nread < bodyLen)
    }

    ghost function AsField(): (f: Field)
      requires Receiving()
      reads this, header
      ensures Typed(f) && !InHeader(f)
    {
      if finished then Done(Content())
      else if status.HdrVar? then BVar(bodyLen)
      else BQos(bodyLen, pktId, qoses)
    }

    ghost function Part(): bytes
      requires Receiving()
      reads this, header, buff
    {
      if finished || status.TopicQos? then [] else buff[..nread]
    }

    constructor ()
      ensures Valid() && fresh(header) && fresh(header.hbuf) && fresh(buff) && !finished
      ensures Content() == Suback(0, []) && bodyLen == 0
    {
      header := new Header(SUBACK);
      buff := new byte[2];
      pktId, status, qoses, bodyLen, nread, finished := 0, HdrVar, [], 0, 0, false;
    }

    /** The header of the received message is used for its length only. */
    constructor Received(h: Header)
      requires h.Valid() && h.dlen < MAX_REMAINING
      ensures Receiving() && !finished && fresh(header) && fresh(header.hbuf) && fresh(buff)
      ensures AsField() == BVar(h.dlen) && Part() == []
    {
      header := new Header(SUBACK);
      buff := new byte[2];
      pktId, status, qoses, bodyLen, nread, finished := 0, HdrVar, [], h.dlen, 0, false;
    }

    method AddTopicQos(qos: byte)
      requires Valid()
      modifies `qoses, `bodyLen
      ensures Valid() && Content() == Suback(pktId, old(qoses) + [qos]) && bodyLen == Wrap32(old(bodyLen) + 1)
      ensures old(bodyLen == Wrap32(|qoses|)) ==> bodyLen == Wrap32(|qoses|)
    {
      WrapAdd(|qoses|, 1);
      qoses := qoses + [qos];
      bodyLen := Wrap32(bodyLen + 1);
    }

    method ToString(out: bytes) returns (ok: bool, out': bytes)
      requires Valid()
      modifies `bodyLen, header`dlen
      ensures Valid() && Content() == old(Content())
      ensures qoses != [] ==> bodyLen == Wrap32(old(bodyLen) + 2)
      ensures qoses == [] ==> !ok && bodyLen == old(bodyLen)
      ensures qoses != [] ==> (ok <==> bodyLen < MAX_REMAINING)
      ensures out' == if ok then out + (HeaderBytes(SUBACK, header.hflags, bodyLen) + BodyBytes(Content())) else out
      ensures old(bodyLen) == Wrap32(|qoses|) && header.hflags == 0 ==>
                (ok <==> Accepted(Content())) && (ok ==> out' == out + Print(Content()))
    {
      hide HeaderBytes, Wrap32, BodyBytes;
      if qoses == [] {
        return false, out;
      }
      WrapRange(bodyLen + 2);
      WrapAdd(|qoses|, 2);
      bodyLen := Wrap32(bodyLen + 2);
      header.SetRemainingLength(bodyLen);
      ok, out' := header.BuildHeader(out);
      if !ok {
        return;
      }
      out' := PackBody(out');
    }

    method PackBody(out: bytes) returns (out': bytes)
      ensures out' == out + BodyBytes(Content())
    {
      out' := out + PackShort(pktId);
      ghost var before := out';
      var i := 0;
      while i < |qoses|
        invariant i <= |qoses| && out' == before + qoses[..i]
      {
        out' := out' + [qoses[i]];
        i := i + 1;
      }
    }

    method UpdateHeaderVar(data: bytes) returns (left: int)
      requires Receiving() && !finished && status.HdrVar? && data != []
      modifies this, buff
      ensures Receiving() && 0 <= left < |data|
      ensures Advanced(old(AsField()), old(Part()), data, left, AsField(), Part())
    {
      hide Parse, Advanced, Refused;
      ghost var f, part := AsField(), Part();
      assert nread < 2;  // the check at the entry of the handler never fires
      var used;
      nread, used := Fill(buff, nread, 2, data);
      left := |data| - used;
      if nread < 2 {
        AdvancePart(f, part, data);
        assert data[..used] == data;
        return;
      }
      AdvanceField(f, part, data, used);
      pktId := UnpackShort(buff[..2]);
      if nread >= bodyLen {
        finished := true;
        return;
      }
      status := TopicQos;
    }

    method UpdateTopicQos(data: bytes) returns (left: int)
      requires Receiving() && !finished && status.TopicQos? && data != []
      modifies this
      ensures Receiving() && 0 <= left < |data|
      ensures Advanced(old(AsField()), old(Part()), data, left, AsField(), Part())
    {
      hide Parse, Advanced, Refused;
      AdvanceField(AsField(), Part(), data, 1);
      var qos := data[0];
      nread := nread + 1;
      if qos > 2 {
        qos := 0;
      }
      qoses := qoses + [qos];
      left := |data| - 1;
      if nread >= bodyLen {
        finished := true;
      } else {
        status := TopicQos;
      }
    }

    method Update(data: bytes) returns (left: int)
      requires Receiving()
      modifies this, buff
      ensures data == [] ==> left == -1
      ensures data != [] ==> left >= 0 && Receiving()
      ensures data != [] ==>
                Reads(Parse(old(AsField()), old(Part()) + data), data, left, AsField(), Part())
    {
      hide Parse, Take, Need, Advanced;
      if data == [] {
        return -1;
      }
      ghost var f, part := AsField(), Part();
      left := |data|;
      AdvanceStart(f, part, data);
      while left > 0 && !finished
        invariant 0 <= left <= |data| && Receiving()
        invariant Advanced(f, part, data, left, AsField(), Part())
        decreases left
      {
        ghost var g, part' := AsField(), Part();
        var ret := Dispatch(data[|data| - left..]);
        AdvanceNext(f, part, data, left, g, part', ret, AsField(), Part());
        left := ret;
      }
      FieldWaits();
      AdvanceEnd(f, part, data, left, AsField(), Part());
    }

    /** The table of handlers. */
    method Dispatch(data: bytes) returns (left: int)
      requires Receiving() && !finished && data != []
      modifies this, buff
      ensures Receiving() && 0 <= left < |data|
      ensures Advanced(old(AsField()), old(Part()), data, left, AsField(), Part())
    {
      match status {
        case HdrVar => left := UpdateHeaderVar(data);
        case TopicQos => left := UpdateTopicQos(data);
      }
    }

    lemma FieldWaits()
      requires Receiving()
      ensures if finished then Stops(AsField()) && Part() == [] else Waits(AsField(), Part())
    {
    }
  }
}
