/** mqtt_publish. */
module MqttPublish {
  import opened Bytes
  import opened Packets
  import opened Fields
  import opened Updates
  import opened MqttHeader

  datatype Status = HdrVar | TopicLen | TopicVal | PktId | Payload

  // The steps of the reference parser for this message.

  lemma TakeTopicVal(hf: nibble, len: nat, x: bytes)
    requires x != []
    ensures Need(PTopicVal(hf, len, |x|)) == |x|
    ensures Take(PTopicVal(hf, len, |x|), x) ==
            Go(if Qos(hf) > 0 then PPktId(hf, len, x) else PPayload(hf, Wrap32(len - (|x| + 2)), x, 0))
  {
  }

  lemma TakePktId(hf: nibble, len: nat, topic: bytes, x: bytes)
    requires |x| == 2
    ensures Need(PPktId(hf, len, topic)) == 2
    ensures Take(PPktId(hf, len, topic), x) ==
            var id, head := UnpackShort(x), |topic| + 4;
            if len == 0 || len == head then Go(Done(Publish(hf, topic, id, 0, [])))
            else if len < head then Reject
            else Go(PPayload(hf, len - head, topic, id))
  {
  }

  /** DUP has no influence on the body. */
  lemma SentPublish(p: Packet)
    requires p.Publish? && Sound(p)
    ensures Sound(Sent(p)) && BodyBytes(Sent(p)) == BodyBytes(p)
  {
    hide PackString, PackShort;
    assert Qos(Sent(p).hflags) == Qos(p.hflags);
  }

  /** What is printed for a message of length `len`. */
  lemma PrintPublish(p: Packet, len: nat)
    requires p.Publish? && Sound(p) && len == Wrap32(BodyLength(p))
    ensures Accepted(p) <==> len < MAX_REMAINING && (Qos(p.hflags) > 0 ==> p.pktId > 0)
    ensures Accepted(p) ==> Print(p) == HeaderBytes(PUBLISH, Sent(p).hflags, len) + BodyBytes(p)
  {
    hide HeaderBytes, Wrap32, BodyLength, BodyBytes;
  }

  class PublishMessage {
    const header: Header
    const buff: array<byte>
    var pktId: ushort
    var dlen: nat
    var status: Status
    var hlenVar: nat
    var topic: bytes
    var payload: bytes
    var payloadLen: nat
    var finished: bool

    ghost predicate Valid()
      reads this, header
    {
      header.Valid() && header.kind == PUBLISH && buff.Length == 2 && payloadLen < TWO_TO_THE_32
    }

    function Content(): Packet
      reads this, header
    {
      Publish(header.hflags, topic, pktId, payloadLen, payload)
    }

    /** The state of an object made from a received header. */
    ghost predicate Receiving()
      reads this, header
    {
      && Valid()
      && (!finished ==>
            match status
            case HdrVar => dlen == 0 && topic == [] && payload == [] && pktId == 0
            case TopicLen => dlen < 2 && topic == [] && payload == [] && pktId == 0
            case TopicVal =>
              0 < dlen && |topic| + dlen <= MAX_STRING && hlenVar == |topic| + dlen + 2 && payload == [] && pktId == 0
            case PktId => dlen < 2 && hlenVar == |topic| + 2 && payload == [] && Qos(header.hflags) > 0
            case Payload => |payload| < payloadLen || payloadLen == |payload| == 0)
    }

    ghost function AsField(): (f: Field)
      requires Receiving()
      reads this, header
      ensures Typed(f) && !InHeader(f)
    {
      if finished then Done(Content())
      else
        match status
        case HdrVar => PTopicLen(header.hflags, payloadLen)
        case TopicLen => PTopicLen(header.hflags, payloadLen)
        case TopicVal => PTopicVal(header.hflags, payloadLen, |topic| + dlen)
        case PktId => PPktId(header.hflags, payloadLen, topic)
        case Payload => PPayload(header.hflags, payloadLen, topic, pktId)
    }

    ghost function Part(): bytes
      requires Receiving()
      reads this, header, buff
    {
      if finished then []
      else
        match status
        case HdrVar => []
        case TopicLen => buff[..dlen]
        case TopicVal => topic
        case PktId => buff[..dlen]
        case Payload => payload
    }

    /** A message to be built. */
    constructor ()
      ensures Valid() && fresh(header) && fresh(header.hbuf) && fresh(buff)
      ensures Content() == Publish(0, [], 0, 0, []) && !finished
    {
      header := new Header(PUBLISH);
      buff := new byte[2];
      pktId, dlen, status, hlenVar := 0, 0, HdrVar, 0;
      topic, payload, payloadLen, finished := [], [], 0, false;
    }

    /** A message to be received: the remaining length of the header is the payload length for now. */
    constructor Received(h: Header)
      requires h.Valid() && h.kind == PUBLISH
      ensures Receiving() && !finished && fresh(header) && fresh(header.hbuf) && fresh(buff)
      ensures AsField() == PTopicLen(h.hflags, h.dlen) && Part() == []
    {
      header := new Header.Copy(h);
      buff := new byte[2];
      pktId, dlen, status, hlenVar := 0, 0, HdrVar, 0;
      topic, payload, payloadLen, finished := [], [], h.dlen, false;
    }

    method SetTopic(s: bytes)
      requires Valid()
      modifies `topic
      ensures topic == s
    {
      topic := s;
    }

    /** A packet id of 0 is ignored. */
    method SetPktId(id: ushort)
      requires Valid()
      modifies `pktId
      ensures pktId == if id > 0 then id else old(pktId)
    {
      if id > 0 { pktId := id; }
    }

    /** Without data only the length is announced, and the caller sends the payload itself. */
    method SetPayload(len: nat, data: bytes)
      requires Valid() && len < TWO_TO_THE_32 && (data == [] || len <= |data|)
      modifies `payload, `payloadLen
      ensures Valid() && payloadLen == len
      ensures payload == if data == [] || len == 0 then old(payload) else data[..len]
    {
      payloadLen := len;
      if data != [] && len > 0 {
        payload := data[..len];
      }
    }

    method ToString(out: bytes) returns (ok: bool, out': bytes)
      requires Valid() && Sound(Content())
      modifies header`hflags, header`dlen
      ensures Valid() && Sound(old(Content()))
      ensures ok <==> Accepted(old(Content()))
      ensures ok ==> out' == out + Print(old(Content())) && Content() == Sent(old(Content()))
      ensures !ok ==> out' == out
    {
      hide EncodeLength, PackString, HeaderBytes, Wrap32, Print;
      ghost var p := Content();
      SentPublish(p);
      out' := out;
      var len := Wrap32(Wrap32(|topic|) + 2 + payloadLen);
      var qos := Qos(header.hflags);
      WrapAdd(|topic|, 2 + payloadLen);
      if qos > 0 {
        if pktId == 0 {
          return false, out;
        }
        WrapAdd(|topic| + 2 + payloadLen, 2);
        len := Wrap32(len + 2);
      }
      assert len == Wrap32(BodyLength(p));
      WrapRange(BodyLength(p));
      PrintPublish(p, len);
      hide BodyLength, BodyBytes, Accepted;
      if IsDup(header.hflags) && qos == 0 {
        header.SetDup(false);
      }
      assert Content() == Sent(p);
      hide Qos;
      header.SetRemainingLength(len);
      ok, out' := header.BuildHeader(out);
      if !ok {
        return;
      }
      ghost var head := HeaderBytes(PUBLISH, header.hflags, len);
      out' := PackBody(out');
      assert out' == out + (head + BodyBytes(p));
    }

    method PackBody(out: bytes) returns (out': bytes)
      requires Sound(Content())
      ensures out' == out + BodyBytes(Content())
    {
      hide PackString, PackShort, Qos;
      out' := out + PackString(topic);
      if Qos(header.hflags) != 0 {
        out' := out' + PackShort(pktId);
      }
      if payloadLen > 0 && payload != [] {
        out' := out' + payload[..payloadLen];
      }
    }

    // ----- receiving

    /** Consumes nothing. */
    method UpdateHeaderVar(data: bytes) returns (left: int)
      requires Receiving() && !finished && status.HdrVar? && data != []
      modifies this
      ensures Receiving() && left == |data| && status.TopicLen? && !finished
      ensures Advanced(old(AsField()), old(Part()), data, left, AsField(), Part())
    {
      AdvanceStart(AsField(), Part(), data);
      assert buff[..0] == [];
      dlen, status := 0, TopicLen;
      return |data|;
    }

    method UpdateTopicLen(data: bytes) returns (left: int)
      requires Receiving() && !finished && status.TopicLen? && data != []
      modifies this, buff
      ensures Valid() && (left < 0 ==> Refused(old(AsField()), old(Part()), data, left))
      ensures left >= 0 ==> Receiving() && left < |data| && !status.HdrVar?
      ensures left >= 0 ==> Advanced(old(AsField()), old(Part()), data, left, AsField(), Part())
    {
      hide Parse, Advanced, Refused;
      ghost var f, part := AsField(), Part();
      var used;
      dlen, used := Fill(buff, dlen, 2, data);
      if dlen < 2 {
        AdvancePart(f, part, data);
        assert data[..used] == data;
        return |data| - used;
      }
      AdvanceField(f, part, data, used);
      var n: int := UnpackShort(buff[..2]);
      if n == 0 {
        return -1;
      }
      dlen, hlenVar, status := n, n + 2, TopicVal;
      return |data| - used;
    }

    method UpdateTopicVal(data: bytes) returns (left: int)
      requires Receiving() && !finished && status.TopicVal? && data != []
      modifies this
      ensures Valid() && Receiving() && 0 <= left < |data| && !status.HdrVar?
      ensures Advanced(old(AsField()), old(Part()), data, left, AsField(), Part())
    {
      hide Parse, Take, Need, Wrap32, Qos, Advanced, Refused;
      ghost var f, part := AsField(), Part();
      var used;
      assert dlen > 0;
      topic, dlen, used := Append(topic, dlen, data);
      if dlen > 0 {
        AdvancePart(f, part, data);
        assert data[..used] == data;
        return |data| - used;
      }
      TakeTopicVal(header.hflags, payloadLen, topic);
      AdvanceField(f, part, data, used);
      assert buff[..0] == [];
      dlen := 0;
      if Qos(header.hflags) != 0 {
        status := PktId;
      } else {
        payloadLen := Wrap32(payloadLen - hlenVar);
        status := Payload;
      }
      return |data| - used;
    }

    method UpdatePktId(data: bytes) returns (left: int)
      requires Receiving() && !finished && status.PktId? && data != []
      modifies this, buff
      ensures Valid() && (left < 0 ==> Refused(old(AsField()), old(Part()), data, left))
      ensures left >= 0 ==> Receiving() && left < |data| && !status.HdrVar?
      ensures left >= 0 ==> Advanced(old(AsField()), old(Part()), data, left, AsField(), Part())
    {
      hide Parse, Advanced, Refused;
      hide Take, Need, Qos, UnpackShort, InHeader, Advanced, Refused;
      ghost var f, part := AsField(), Part();
      var used;
      assert dlen < 2;  // the check at the entry of the handler never fires
      dlen, used := Fill(buff, dlen, 2, data);
      if dlen < 2 {
        AdvancePart(f, part, data);
        assert data[..used] == data;
        return |data| - used;
      }
      TakePktId(header.hflags, payloadLen, topic, buff[..2]);
      AdvanceField(f, part, data, used);
      pktId := UnpackShort(buff[..2]);
      hlenVar := hlenVar + 2;
      left := |data| - used;
      if payloadLen == 0 {
        finished := true;
        return;
      }
      if payloadLen < hlenVar {
        return -1;
      }
      payloadLen := payloadLen - hlenVar;
      if payloadLen == 0 {
        finished := true;
      } else {
        status := Payload;
      }
    }

    /** Collects the payload; with nothing left to collect any byte is an error. */
    method UpdatePayload(data: bytes) returns (left: int)
      requires Receiving() && !finished && status.Payload? && data != []
      modifies this
      ensures Valid() && (left < 0 ==> Refused(old(AsField()), old(Part()), data, left))
      ensures left >= 0 ==> Receiving() && left < |data| && !status.HdrVar?
      ensures left >= 0 ==> Advanced(old(AsField()), old(Part()), data, left, AsField(), Part())
    {
      ghost var f, part := AsField(), Part();
      if payloadLen <= |payload| {
        assert part + data == data;
        return -1;
      }
      hide Parse, Advanced, Refused;
      var todo, used;
      payload, todo, used := Append(payload, payloadLen - |payload|, data);
      if todo == 0 {
        AdvanceField(f, part, data, used);
        finished := true;
      } else {
        AdvancePart(f, part, data);
        assert data[..used] == data;
      }
      return |data| - used;
    }

    method Update(data: bytes) returns (left: int)
      requires Receiving()
      modifies this, buff
      ensures data == [] ==> left == -1
      ensures data != [] ==> Valid() && (left >= 0 ==> Receiving())
      ensures data != [] && left < 0 ==> Refused(old(AsField()), old(Part()), data, left)
      ensures data != [] && left >= 0 ==>
                Reads(Parse(old(AsField()), old(Part()) + data), data, left, AsField(), Part())
    {
      hide Parse, Take, Need;
      if data == [] {
        return -1;
      }
      ghost var f, part := AsField(), Part();
      left := |data|;
      AdvanceStart(f, part, data);
      while left > 0 && !finished
        invariant 0 <= left <= |data| && Receiving()
        invariant Advanced(f, part, data, left, AsField(), Part())
        decreases left, if status.HdrVar? then 1 else 0
      {
        var rest := data[|data| - left..];
        ghost var g, part' := AsField(), Part();
        var ret := -1;
        match status {
          case HdrVar => ret := UpdateHeaderVar(rest);
          case TopicLen => ret := UpdateTopicLen(rest);
          case TopicVal => ret := UpdateTopicVal(rest);
          case PktId => ret := UpdatePktId(rest);
          case Payload => ret := UpdatePayload(rest);
        }
        if ret < 0 {
          return -1;
        }
        AdvanceNext(f, part, data, left, g, part', ret, AsField(), Part());
        left := ret;
      }
      FieldWaits();
      AdvanceEnd(f, part, data, left, AsField(), Part());
    }

    lemma FieldWaits()
      requires Receiving()
      ensures if finished then Stops(AsField()) && Part() == [] else Waits(AsField(), Part())
    {
    }
  }
}
