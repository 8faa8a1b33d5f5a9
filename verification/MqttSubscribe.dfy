/** mqtt_subscribe. */
module MqttSubscribe {
  import opened Bytes
  import opened Packets
  import opened Fields
  import opened Updates
  import opened MqttHeader

  datatype Status = HdrVar | TopicLen | TopicVal | TopicQos

  // The steps of the reference parser for this message.

  lemma TakeTopicVal(len: nat, nread: nat, id: ushort, ts: seq<bytes>, qs: bytes, x: bytes)
    requires x != []
    ensures var f := SVal(len, nread, id, ts, qs, |x|);
            Need(f) == |x| && Take(f, x) == Go(SQos(len, nread + |x|, id, ts, qs, x))
  {
  }

  lemma TakeTopicQos(len: nat, nread: nat, id: ushort, ts: seq<bytes>, qs: bytes, topic: bytes, b: byte)
    ensures var f := SQos(len, nread, id, ts, qs, topic);
            var ts', qs' := ts + [topic], qs + [ClampQos(b)];
            && Need(f) == 1
            && Take(f, [b]) == Go(if nread + 1 >= len then Done(Subscribe(id, ts', qs'))
                                  else SLen(len, nread + 1, id, ts', qs'))
  {
  }

  class SubscribeMessage {
    const header: Header
    const buff: array<byte>
    var pktId: ushort
    var dlen: nat
    var status: Status
    var topics: seq<bytes>
    var qoses: bytes
    var bodyLen: nat
    var nread: nat
    var topic: bytes
    var finished: bool

    ghost predicate Valid()
      reads this, header
    {
      header.Valid() && header.kind == SUBSCRIBE && buff.Length == 2 && bodyLen < TWO_TO_THE_32
      && |topics| == |qoses|
    }

    function Content(): Packet
      reads this
    {
      Subscribe(pktId, topics, qoses)
    }

    /** The state of an object made from a received header; the counter cannot wrap. */
    ghost predicate Receiving()
      reads this, header
    {
      && Valid() && bodyLen < MAX_REMAINING && nread < TWO_TO_THE_32
      && (!finished ==>
            match status
            case HdrVar => nread < 2 && topics == [] && topic == []
            case TopicLen => dlen < 2 && dlen <= nread && nread - dlen < bodyLen && topic == []
            case TopicVal => 0 < dlen && |topic| + dlen <= MAX_STRING && nread < bodyLen
            case TopicQos => topic != [] && nread < bodyLen + MAX_STRING)
    }

    ghost function AsField(): (f: Field)
      requires Receiving()
      reads this, header
      ensures Typed(f) && !InHeader(f)
    {
      if finished then Done(Content())
      else
        match status
        case HdrVar => SVar(bodyLen)
        case TopicLen => SLen(bodyLen, nread - dlen, pktId, topics, qoses)
        case TopicVal => SVal(bodyLen, nread, pktId, topics, qoses, |topic| + dlen)
        case TopicQos => SQos(bodyLen, nread, pktId, topics, qoses, topic)
    }

    ghost function Part(): bytes
      requires Receiving()
      reads this, header, buff
    {
      if finished then []
      else
        match status
        case HdrVar => buff[..nread]
        case TopicLen => buff[..dlen]
        case TopicVal => topic
        case TopicQos => []
    }

    constructor ()
      ensures Valid() && fresh(header) && fresh(header.hbuf) && fresh(buff) && !finished
      ensures Content() == Subscribe(0, [], []) && bodyLen == 0
    {
      header := new Header(SUBSCRIBE);
      buff := new byte[2];
      pktId, dlen, status, topics, qoses := 0, 0, HdrVar, [], [];
      bodyLen, nread, topic, finished := 0, 0, [], false;
    }

    /** The header of the received message is used for its length only. */
    constructor Received(h: Header)
      requires h.Valid() && h.dlen < MAX_REMAINING
      ensures Receiving() && !finished && fresh(header) && fresh(header.hbuf) && fresh(buff)
      ensures AsField() == SVar(h.dlen) && Part() == []
    {
      header := new Header(SUBSCRIBE);
      buff := new byte[2];
      pktId, dlen, status, topics, qoses := 0, 0, HdrVar, [], [];
      bodyLen, nread, topic, finished := h.dlen, 0, [], false;
    }

    /** Keeps body_len_ the sum that BodyLength asks for, without the packet id. */
    method AddTopic(s: bytes, qos: byte)
      requires Valid()
      modifies `topics, `qoses, `bodyLen
      ensures Valid() && Content() == Subscribe(pktId, old(topics) + [s], old(qoses) + [qos])
      ensures bodyLen == Wrap32(old(bodyLen) + 2 + |s| + 1)
      ensures old(bodyLen == Wrap32(TopicBytes(topics) + |topics|)) ==> bodyLen == Wrap32(TopicBytes(topics) + |topics|)
    {
      WrapAddTo(TopicBytes(topics) + |topics|, 3 + |s|);
      WrapAdd(3 + |s|, bodyLen);
      assert (topics + [s])[..|topics|] == topics;
      topics := topics + [s];
      qoses := qoses + [qos];
      bodyLen := Wrap32(bodyLen + Wrap32(2 + |s| + 1));
    }

    /** Every call adds the size of the packet id to body_len_, so the length is right for the first call
        on an object only. */
    method ToString(out: bytes) returns (ok: bool, out': bytes)
      requires Valid()
      modifies `bodyLen, header`hflags, header`dlen
      ensures Valid() && Content() == old(Content())
      ensures topics != [] ==> bodyLen == Wrap32(old(bodyLen) + 2)
      ensures topics == [] ==> !ok && bodyLen == old(bodyLen)
      ensures topics != [] ==> (ok <==> bodyLen < MAX_REMAINING)
      ensures out' == if ok then out + (HeaderBytes(SUBSCRIBE, 2, bodyLen) + BodyBytes(Content())) else out
      ensures old(bodyLen) == Wrap32(TopicBytes(topics) + |topics|) ==>
                (ok <==> Accepted(Content())) && (ok ==> out' == out + Print(Content()))
    {
      hide HeaderBytes, Wrap32, TopicBytes, BodyBytes;
      if topics == [] {
        return false, out;
      }
      WrapRange(bodyLen + 2);
      WrapAdd(TopicBytes(topics) + |topics|, 2);
      bodyLen := Wrap32(bodyLen + 2);
      header.SetHeaderFlags(2);
      header.SetRemainingLength(bodyLen);
      ok, out' := header.BuildHeader(out);
      if !ok {
        return;
      }
      out' := PackBody(out');
    }

    method PackBody(out: bytes) returns (out': bytes)
      requires |topics| == |qoses|
      ensures out' == out + BodyBytes(Content())
    {
      hide PackString, PackShort;
      out' := out + PackShort(pktId);
      ghost var before := out';
      var i := 0;
      while i < |topics|
        invariant i <= |topics|
        invariant out' == before + PackSubscriptions(topics[..i], qoses[..i])
      {
        assert topics[..i + 1][..i] == topics[..i] && qoses[..i + 1][..i] == qoses[..i];
        out' := out' + PackString(topics[i]);
        out' := out' + [qoses[i]];
        i := i + 1;
      }
      assert topics[..i] == topics && qoses[..i] == qoses;
    }

    // ----- receiving

    method UpdateHeaderVar(data: bytes) returns (left: int)
      requires Receiving() && !finished && status.HdrVar? && data != []
      modifies this, buff
      ensures Valid() && (left < 0 ==> Refused(old(AsField()), old(Part()), data, left))
      ensures left >= 0 ==> Receiving() && left < |data|
      ensures left >= 0 ==> Advanced(old(AsField()), old(Part()), data, left, AsField(), Part())
    {
      hide Parse, Advanced, Refused;
      ghost var f, part := AsField(), Part();
      assert nread < 2;  // the check at the entry of the handler never fires
      var used;
      nread, used := Fill(buff, nread, 2, data);
      left := |data| - used;
      if nread < 2 {
        AdvancePart(f, part, data);
        assert data[..used] == data;
        return;
      }
      AdvanceField(f, part, data, used);
      pktId := UnpackShort(buff[..2]);
      if nread >= bodyLen {
        return -1;
      }
      dlen, status := 0, TopicLen;
      assert buff[..0] == [];
    }

    method UpdateTopicLen(data: bytes) returns (left: int)
      requires Receiving() && !finished && status.TopicLen? && data != []
      modifies this, buff
      ensures Valid() && (left < 0 ==> Refused(old(AsField()), old(Part()), data, left))
      ensures left >= 0 ==> Receiving() && left < |data|
      ensures left >= 0 ==> Advanced(old(AsField()), old(Part()), data, left, AsField(), Part())
    {
      hide Parse, Advanced, Refused;
      ghost var f, part := AsField(), Part();
      var used;
      dlen, used := Fill(buff, dlen, 2, data);
      nread := nread + used;
      left := |data| - used;
      if dlen < 2 {
        AdvancePart(f, part, data);
        assert data[..used] == data;
        return;
      }
      AdvanceField(f, part, data, used);
      var n: int := UnpackShort(buff[..2]);
      if n == 0 {
        return -1;
      }
      if nread >= bodyLen {
        return -1;
      }
      dlen, status := n, TopicVal;
    }

    method UpdateTopicVal(data: bytes) returns (left: int)
      requires Receiving() && !finished && status.TopicVal? && data != []
      modifies this
      ensures Receiving() && 0 <= left < |data|
      ensures Advanced(old(AsField()), old(Part()), data, left, AsField(), Part())
    {
      hide Parse, Take, Need, Advanced, Refused;
      ghost var f, part := AsField(), Part();
      assert dlen > 0;
      var used;
      topic, dlen, used := Append(topic, dlen, data);
      left := |data| - used;
      if dlen > 0 {
        AdvancePart(f, part, data);
        assert data[..used] == data;
        return;
      }
      TakeTopicVal(bodyLen, nread, pktId, topics, qoses, topic);
      AdvanceField(f, part, data, used);
      nread := nread + |topic|;
      dlen, status := 0, TopicQos;
    }

    method UpdateTopicQos(data: bytes) returns (left: int)
      requires Receiving() && !finished && status.TopicQos? && data != []
      modifies this
      ensures Receiving() && 0 <= left < |data|
      ensures Advanced(old(AsField()), old(Part()), data, left, AsField(), Part())
    {
      hide Parse, Take, Need, Advanced, Refused;
      assert topic != [];  // the check at the entry of the handler never fires
      TakeTopicQos(bodyLen, nread, pktId, topics, qoses, topic, data[0]);
      assert [] + data[..1] == [data[0]];
      AdvanceField(AsField(), Part(), data, 1);
      EndTopic(data[0]);
      left := |data| - 1;
    }

    /** The last part of update_topic_qos: a topic and its QoS are complete. */
    method EndTopic(b: byte)
      requires Valid() && bodyLen < MAX_REMAINING && nread < bodyLen + MAX_STRING && !finished
      modifies `nread, `topics, `topic, `qoses, `finished, `dlen, `status
      ensures Receiving() && Part() == []
      ensures var n, ts, qs := old(nread) + 1, old(topics) + [old(topic)], old(qoses) + [ClampQos(b)];
              AsField() == if n >= bodyLen then Done(Subscribe(pktId, ts, qs)) else SLen(bodyLen, n, pktId, ts, qs)
    {
      var qos := b;
      nread := nread + 1;
      if qos > 2 {
        qos := 0;
      }
      topics := topics + [topic];
      topic := [];
      qoses := qoses + [qos];
      if nread >= bodyLen {
        finished := true;
        return;
      }
      dlen, status := 0, TopicLen;
      assert buff[..0] == [];
    }

    method Update(data: bytes) returns (left: int)
      requires Receiving()
      modifies this, buff
      ensures data == [] ==> left == -1
      ensures data != [] ==> Valid() && (left >= 0 ==> Receiving())
      ensures data != [] && left < 0 ==> Refused(old(AsField()), old(Part()), data, left)
      ensures data != [] && left >= 0 ==>
                Reads(Parse(old(AsField()), old(Part()) + data), data, left, AsField(), Part())
    {
      hide Parse, Take, Need, Advanced;
      if data == [] {
        return -1;
      }
      ghost var f, part := AsField(), Part();
      left := |data|;
      AdvanceStart(f, part, data);
      while left > 0 && !finished
        invariant 0 <= left <= |data| && Receiving()
        invariant Advanced(f, part, data, left, AsField(), Part())
        decreases left
      {
        var rest := data[|data| - left..];
        ghost var g, part' := AsField(), Part();
        var ret := -1;
        match status {
          case HdrVar => ret := UpdateHeaderVar(rest);
          case TopicLen => ret := UpdateTopicLen(rest);
          case TopicVal => ret := UpdateTopicVal(rest);
          case TopicQos => ret := UpdateTopicQos(rest);
        }
        if ret < 0 {
          RefuseNext(f, part, data, left, g, part', ret);
          return -1;
        }
        AdvanceNext(f, part, data, left, g, part', ret, AsField(), Part());
        left := ret;
      }
      FieldWaits();
      AdvanceEnd(f, part, data, left, AsField(), Part());
    }

    lemma FieldWaits()
      requires Receiving()
      ensures if finished then Stops(AsField()) && Part() == [] else Waits(AsField(), Part())
    {
    }
  }
}
