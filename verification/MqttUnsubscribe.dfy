/** mqtt_unsubscribe. */
module MqttUnsubscribe {
  import opened Bytes
  import opened Packets
  import opened Fields
  import opened Updates
  import opened MqttHeader

  datatype Status = HdrVar | TopicLen | TopicVal

  // The steps of the reference parser for this message.

  lemma TakeTopicLen(hf: nibble, len: nat, nread: nat, id: ushort, ts: seq<bytes>, x: bytes)
    requires |x| == 2
    ensures var f, n := ULen(hf, len, nread, id, ts), UnpackShort(x);
            && Need(f) == 2
            && Take(f, x) == if n == 0 || nread + 2 >= len then Reject else Go(UVal(hf, len, nread + 2, id, ts, n))
  {
  }

  lemma TakeTopicVal(hf: nibble, len: nat, nread: nat, id: ushort, ts: seq<bytes>, x: bytes)
    requires x != []
    ensures var f, topic := UVal(hf, len, nread, id, ts, |x|), Last(ts) + x;
            && Need(f) == |x|
            && Take(f, x) == Go(if nread + |topic| >= len then Done(Unsubscribe(hf, id, ts + [topic]))
                                else ULen(hf, len, nread + |topic|, id, ts + [topic]))
  {
  }

  lemma LastAppended(ts: seq<bytes>, t: bytes)
    ensures Last(ts + [t]) == t
  {
  }

  /** What is printed for a message whose topics add up to `n`. */
  lemma PrintTopics(p: Packet, n: nat)
    requires p.Unsubscribe? && n == Wrap32(TopicBytes(p.topics))
    ensures Accepted(p) <==> p.topics != [] && Wrap32(n + 2) < MAX_REMAINING
    ensures Accepted(p) ==> Print(p) == HeaderBytes(UNSUBSCRIBE, 2, Wrap32(n + 2)) + BodyBytes(p)
  {
    hide HeaderBytes, Wrap32, TopicBytes, PackTopics;
    WrapAdd(TopicBytes(p.topics), 2);
  }

  /** The flags that are sent have no influence on the body. */
  lemma FlagsOnly(p: Packet)
    requires p.Unsubscribe?
    ensures BodyBytes(Sent(p)) == BodyBytes(p)
  {
  }

  class UnsubscribeMessage {
    const header: Header
    const buff: array<byte>
    var pktId: ushort
    var dlen: nat
    var status: Status
    var topics: seq<bytes>
    var bodyLen: nat
    var nread: nat
    var topic: bytes
    var finished: bool

    ghost predicate Valid()
      reads this, header
    {
      header.Valid() && header.kind == UNSUBSCRIBE && buff.Length == 2 && bodyLen < TWO_TO_THE_32
    }

    function Content(): Packet
      reads this, header
    {
      Unsubscribe(header.hflags, pktId, topics)
    }

    /** The state of an object made from a received header; topic_ is never cleared, so it starts with
        the topic before. */
    ghost predicate Receiving()
      reads this, header
    {
      && Valid() && bodyLen < MAX_REMAINING
      && (!finished ==>
            match status
            case HdrVar => nread < 2 && topics == [] && topic == []
            case TopicLen => dlen < 2 && dlen <= nread && nread - dlen < bodyLen && topic == Last(topics)
            case TopicVal => 0 < dlen && nread < bodyLen && Last(topics) <= topic)
    }

    ghost function AsField(): (f: Field)
      requires Receiving()
      reads this, header
      ensures Typed(f) && !InHeader(f)
    {
      if finished then Done(Content())
      else
        match status
        case HdrVar => UVar(header.hflags, bodyLen)
        case TopicLen => ULen(header.hflags, bodyLen, nread - dlen, pktId, topics)
        case TopicVal => UVal(header.hflags, bodyLen, nread, pktId, topics, |topic| - |Last(topics)| + dlen)
    }

    ghost function Part(): bytes
      requires Receiving()
      reads this, header, buff
    {
      if finished then []
      else
        match status
        case HdrVar => buff[..nread]
        case TopicLen => buff[..dlen]
        case TopicVal => topic[|Last(topics)|..]
    }

    constructor ()
      ensures Valid() && fresh(header) && fresh(header.hbuf) && fresh(buff) && !finished
      ensures Content() == Unsubscribe(0, 0, []) && bodyLen == 0
    {
      header := new Header(UNSUBSCRIBE);
      buff := new byte[2];
      pktId, dlen, status, topics := 0, 0, HdrVar, [];
      bodyLen, nread, topic, finished := 0, 0, [], false;
    }

    constructor Received(h: Header)
      requires h.Valid() && h.kind == UNSUBSCRIBE && h.dlen < MAX_REMAINING
      ensures Receiving() && !finished && fresh(header) && fresh(header.hbuf) && fresh(buff)
      ensures AsField() == UVar(h.hflags, h.dlen) && Part() == []
    {
      header := new Header.Copy(h);
      buff := new byte[2];
      pktId, dlen, status, topics := 0, 0, HdrVar, [];
      bodyLen, nread, topic, finished := h.dlen, 0, [], false;
    }

    method AddTopic(s: bytes)
      requires Valid()
      modifies `topics, `bodyLen
      ensures Valid() && Content() == Unsubscribe(header.hflags, pktId, old(topics) + [s])
      ensures bodyLen == Wrap32(old(bodyLen) + 2 + |s|)
      ensures old(bodyLen == Wrap32(TopicBytes(topics))) ==> bodyLen == Wrap32(TopicBytes(topics))
    {
      WrapAddTo(TopicBytes(topics), 2 + |s|);
      WrapAdd(2 + |s|, bodyLen);
      assert (topics + [s])[..|topics|] == topics;
      topics := topics + [s];
      bodyLen := Wrap32(bodyLen + Wrap32(2 + |s|));
    }

    /** As for SUBSCRIBE, every call adds the size of the packet id. */
    method ToString(out: bytes) returns (ok: bool, out': bytes)
      requires Valid()
      modifies `bodyLen, header`hflags, header`dlen
      ensures Valid() && (topics != [] ==> Content() == Sent(old(Content())))
      ensures topics != [] ==> bodyLen == Wrap32(old(bodyLen) + 2)
      ensures topics == [] ==> !ok && bodyLen == old(bodyLen)
      ensures topics != [] ==> (ok <==> bodyLen < MAX_REMAINING)
      ensures out' == if ok then out + (HeaderBytes(UNSUBSCRIBE, 2, bodyLen) + BodyBytes(old(Content()))) else out
      ensures old(bodyLen) == Wrap32(TopicBytes(topics)) ==>
                (ok <==> Accepted(old(Content()))) && (ok ==> out' == out + Print(old(Content())))
    {
      hide HeaderBytes, Wrap32, TopicBytes, Accepted, Print, BodyBytes;
      ghost var p := Content();
      if bodyLen == Wrap32(TopicBytes(topics)) { PrintTopics(p, bodyLen); }
      if topics == [] {
        return false, out;
      }
      WrapRange(bodyLen + 2);
      bodyLen := Wrap32(bodyLen + 2);
      header.SetHeaderFlags(2);
      header.SetRemainingLength(bodyLen);
      ok, out' := header.BuildHeader(out);
      if !ok {
        return;
      }
      ghost var head := out';
      out' := PackBody(out');
      FlagsOnly(p);
      assert head + BodyBytes(p) == out + (HeaderBytes(UNSUBSCRIBE, 2, bodyLen) + BodyBytes(p));
    }

    method PackBody(out: bytes) returns (out': bytes)
      ensures out' == out + BodyBytes(Content())
    {
      hide PackString, PackShort;
      out' := out + PackShort(pktId);
      ghost var before := out';
      var i := 0;
      while i < |topics|
        invariant i <= |topics| && out' == before + PackTopics(topics[..i])
      {
        assert topics[..i + 1][..i] == topics[..i];
        out' := out' + PackString(topics[i]);
        i := i + 1;
      }
      assert topics[..i] == topics;
    }

    // ----- receiving

    method UpdateHeaderVar(data: bytes) returns (left: int)
      requires Receiving() && !finished && status.HdrVar? && data != []
      modifies this, buff
      ensures Valid() && (left < 0 ==> Refused(old(AsField()), old(Part()), data, left))
      ensures left >= 0 ==> Receiving() && left < |data|
      ensures left >= 0 ==> Advanced(old(AsField()), old(Part()), data, left, AsField(), Part())
    {
      hide Parse, Advanced, Refused;
      ghost var f, part := AsField(), Part();
      assert nread < 2;  // the check at the entry of the handler never fires
      var used;
      nread, used := Fill(buff, nread, 2, data);
      left := |data| - used;
      if nread < 2 {
        AdvancePart(f, part, data);
        assert data[..used] == data;
        return;
      }
      AdvanceField(f, part, data, used);
      pktId := UnpackShort(buff[..2]);
      if nread >= bodyLen {
        return -1;
      }
      dlen, status := 0, TopicLen;
      assert buff[..0] == [];
    }

    method UpdateTopicLen(data: bytes) returns (left: int)
      requires Receiving() && !finished && status.TopicLen? && data != []
      modifies this, buff
      ensures Valid() && (left < 0 ==> Refused(old(AsField()), old(Part()), data, left))
      ensures left >= 0 ==> Receiving() && left < |data|
      ensures left >= 0 ==> Advanced(old(AsField()), old(Part()), data, left, AsField(), Part())
    {
      hide Parse, Take, Need, UnpackShort, Last, Advanced, Refused;
      ghost var f, part := AsField(), Part();
      var used;
      dlen, used := Fill(buff, dlen, 2, data);
      nread := nread + used;
      left := |data| - used;
      if dlen < 2 {
        AdvancePart(f, part, data);
        assert data[..used] == data;
        return;
      }
      TakeTopicLen(header.hflags, bodyLen, nread - 2, pktId, topics, buff[..2]);
      AdvanceField(f, part, data, used);
      var n: int := UnpackShort(buff[..2]);
      if n == 0 {
        return -1;
      }
      if nread >= bodyLen {
        return -1;
      }
      dlen, status := n, TopicVal;
      assert topic[|Last(topics)|..] == [];
    }

    method UpdateTopicVal(data: bytes) returns (left: int)
      requires Receiving() && !finished && status.TopicVal? && data != []
      modifies this
      ensures Receiving() && 0 <= left < |data|
      ensures Advanced(old(AsField()), old(Part()), data, left, AsField(), Part())
    {
      hide Parse, Take, Need, Last, Advanced, Refused;
      ghost var f, part, before := AsField(), Part(), Last(topics);
      assert dlen > 0;
      var used;
      topic, dlen, used := Append(topic, dlen, data);
      left := |data| - used;
      ghost var x := part + data[..used];
      assert topic[|before|..] == x && topic == before + x;
      if dlen > 0 {
        AdvancePart(f, part, data);
        assert data[..used] == data;
        return;
      }
      TakeTopicVal(header.hflags, bodyLen, nread, pktId, topics, x);
      AdvanceField(f, part, data, used);
      EndTopic();
    }

    /** The last part of update_topic_val: a topic is complete. */
    method EndTopic()
      requires Valid() && bodyLen < MAX_REMAINING && !finished
      modifies `nread, `topics, `finished, `dlen, `status
      ensures Receiving() && Part() == []
      ensures var n, ts := old(nread) + |topic|, old(topics) + [topic];
              AsField() == if n >= bodyLen then Done(Unsubscribe(header.hflags, pktId, ts))
                           else ULen(header.hflags, bodyLen, n, pktId, ts)
    {
      nread := nread + |topic|;
      LastAppended(topics, topic);
      topics := topics + [topic];
      if nread >= bodyLen {
        finished := true;
        return;
      }
      dlen, status := 0, TopicLen;
      assert buff[..0] == [];
    }

    method Update(data: bytes) returns (left: int)
      requires Receiving()
      modifies this, buff
      ensures data == [] ==> left == -1
      ensures data != [] ==> Valid() && (left >= 0 ==> Receiving())
      ensures data != [] && left < 0 ==> Refused(old(AsField()), old(Part()), data, left)
      ensures data != [] && left >= 0 ==>
                Reads(Parse(old(AsField()), old(Part()) + data), data, left, AsField(), Part())
    {
      hide Parse, Take, Need, Advanced;
      if data == [] {
        return -1;
      }
      ghost var f, part := AsField(), Part();
      left := |data|;
      AdvanceStart(f, part, data);
      while left > 0 && !finished
        invariant 0 <= left <= |data| && Receiving()
        invariant Advanced(f, part, data, left, AsField(), Part())
        decreases left
      {
        var rest := data[|data| - left..];
        ghost var g, part' := AsField(), Part();
        var ret := -1;
        match status {
          case HdrVar => ret := UpdateHeaderVar(rest);
          case TopicLen => ret := UpdateTopicLen(rest);
          case TopicVal => ret := UpdateTopicVal(rest);
        }
        if ret < 0 {
          RefuseNext(f, part, data, left, g, part', ret);
          return -1;
        }
        AdvanceNext(f, part, data, left, g, part', ret, AsField(), Part());
        left := ret;
      }
      FieldWaits();
      AdvanceEnd(f, part, data, left, AsField(), Part());
    }

    lemma FieldWaits()
      requires Receiving()
      ensures if finished then Stops(AsField()) && Part() == [] else Waits(AsField(), Part())
    {
    }
  }
}
