/** mqtt_connect. */
module MqttConnect {
  import opened Bytes
  import opened Packets
  import opened Fields
  import opened Updates
  import opened MqttHeader

  datatype Status =
    | HdrVar
    | CidLen | CidVal
    | UsernameLen | UsernameVal
    | PasswdLen | PasswdVal
    | WillTopicLen | WillTopicVal
    | WillMsgLen | WillMsgVal

  /** The string that a status is about. */
  function SlotOf(status: Status): Slot {
    match status
    case HdrVar => Cid
    case CidLen => Cid
    case CidVal => Cid
    case WillTopicLen => WillTopic
    case WillTopicVal => WillTopic
    case WillMsgLen => WillMsg
    case WillMsgVal => WillMsg
    case UsernameLen => User
    case UsernameVal => User
    case PasswdLen => Pass
    case PasswdVal => Pass
  }

  predicate InString(status: Status) {
    status.CidVal? || status.WillTopicVal? || status.WillMsgVal? || status.UsernameVal? || status.PasswdVal?
  }

  /** Position of a string on the wire. */
  function Rank(slot: Slot): nat {
    match slot
    case Cid => 0
    case WillTopic => 1
    case WillMsg => 2
    case User => 3
    case Pass => 4
  }

  /** The strings from `slot` on are still empty. */
  predicate BlankFrom(k: nat, m: Packet)
    requires m.Connect?
  {
    && (k <= 0 ==> m.cid == []) && (k <= 1 ==> m.willTopic == []) && (k <= 2 ==> m.willMsg == [])
    && (k <= 3 ==> m.username == []) && (k <= 4 ==> m.passwd == [])
  }

  // The steps of the reference parser for this message.

  lemma TakeLength(slot: Slot, m: Packet, x: bytes)
    requires m.Connect? && |x| == 2
    ensures Need(CLen(slot, m)) == 2
    ensures Take(CLen(slot, m), x) ==
            var n := UnpackShort(x);
            Go(if n > 0 || slot.WillTopic? then CVal(slot, n, m) else After(slot, m))
  {
  }

  lemma TakeString(slot: Slot, m: Packet, x: bytes)
    requires m.Connect? && x != []
    ensures Need(CVal(slot, |x|, m)) == |x|
    ensures Take(CVal(slot, |x|, m), x) == Go(After(slot, Put(m, slot, x)))
  {
  }

  class ConnectMessage {
    const header: Header
    /** Ten bytes, and the byte of the object behind them. */
    const buff: array<byte>
    var status: Status
    var finished: bool
    var dlen: nat
    var connFlags: byte
    var keepAlive: ushort
    var cid: bytes
    var username: bytes
    var passwd: bytes
    var willTopic: bytes
    var willMsg: bytes

    ghost predicate Valid()
      reads this, header
    {
      header.Valid() && header.kind == CONNECT && buff.Length == 11
    }

    function Content(): (p: Packet)
      reads this, header
      ensures p.Connect?
    {
      Connect(header.hflags, connFlags, keepAlive, cid, willTopic, willMsg, username, passwd)
    }

    function Current(): bytes
      reads this
    {
      match SlotOf(status)
      case Cid => cid
      case WillTopic => willTopic
      case WillMsg => willMsg
      case User => username
      case Pass => passwd
    }

    /** The state of an object made from a received header. */
    ghost predicate Receiving()
      reads this, header
    {
      && Valid()
      && (!finished ==>
            && (if InString(status) then dlen > 0 || (status.WillTopicVal? && willTopic == [])
                else dlen < if status.HdrVar? then 10 else 2)
            && BlankFrom(Rank(SlotOf(status)) + if InString(status) then 1 else 0, Content()))
    }

    ghost function AsField(): (f: Field)
      requires Receiving()
      reads this, header, buff
      ensures Typed(f) && !InHeader(f)
    {
      if finished then Done(Content())
      else if status.HdrVar? then CVar(header.hflags, buff[10])
      else if InString(status) then
        CVal(SlotOf(status), |Current()| + dlen, Put(Content(), SlotOf(status), []))
      else CLen(SlotOf(status), Content())
    }

    ghost function Part(): bytes
      requires Receiving()
      reads this, header, buff
    {
      if finished then []
      else if InString(status) then Current()
      else buff[..dlen]
    }

    /** A message to be built. */
    constructor ()
      ensures Valid() && fresh(header) && fresh(header.hbuf) && fresh(buff) && !finished
      ensures Content() == Connect(0, 0, 300, [], [], [], [], [])
    {
      header := new Header(CONNECT);
      buff := new byte[11];
      status, finished, dlen, connFlags, keepAlive := HdrVar, false, 0, 0, 300;
      cid, username, passwd, willTopic, willMsg := [], [], [], [], [];
    }

    /** A message to be received; `pad` is what lies behind the ten bytes. */
    constructor Received(h: Header, pad: byte)
      requires h.Valid() && h.kind == CONNECT
      ensures Receiving() && !finished && fresh(header) && fresh(header.hbuf) && fresh(buff)
      ensures AsField() == CVar(h.hflags, pad) && Part() == []
    {
      header := new Header.Copy(h);
      buff := new byte[11](_ => pad);
      status, finished, dlen, connFlags, keepAlive := HdrVar, false, 0, 0, 300;
      cid, username, passwd, willTopic, willMsg := [], [], [], [], [];
    }

    /** Sums up the remaining length, sets the flags of the fields present and drops a will that lacks
        its topic or its message. */
    method SetFields() returns (len: nat)
      modifies `connFlags, `willTopic, `willMsg
      ensures len == Wrap32(BodyLength(old(Content()))) && Content() == SentConnect(old(Content()))
    {
      hide Wrap32, HasWill, HasUser, HasPass, SetWill, SetUser, SetPass;
      ghost var p := Content();
      len := Wrap32(12 + Wrap32(|cid|));
      ghost var sum := 12 + |cid|;
      WrapAdd(|cid|, 12);
      if username != [] {
        connFlags := SetUser(connFlags);
        WrapAddTo(sum, 2 + |username|);
        len := Wrap32(len + Wrap32(2 + |username|));
        sum := sum + 2 + |username|;
      }
      if passwd != [] {
        connFlags := SetPass(connFlags);
        WrapAddTo(sum, 2 + |passwd|);
        len := Wrap32(len + Wrap32(2 + |passwd|));
        sum := sum + 2 + |passwd|;
      }
      if willTopic != [] && willMsg != [] {
        connFlags := SetWill(connFlags);
        WrapAddTo(sum, 2 + |willTopic|);
        len := Wrap32(len + Wrap32(2 + |willTopic|));
        sum := sum + 2 + |willTopic|;
        WrapAddTo(sum, 2 + |willMsg|);
        len := Wrap32(len + Wrap32(2 + |willMsg|));
        sum := sum + 2 + |willMsg|;
      } else {
        willTopic, willMsg := [], [];
      }
      assert sum == BodyLength(p) by { hide SentConnect; }
      hide BodyLength;
    }

    method ToString(out: bytes) returns (ok: bool, out': bytes)
      requires Valid()
      modifies `connFlags, `willTopic, `willMsg, header`dlen
      ensures Valid() && Content() == Sent(old(Content()))
      ensures ok <==> Accepted(old(Content()))
      ensures out' == if ok then out + Print(old(Content())) else out
    {
      hide HeaderBytes, Wrap32, BodyLength, SentConnect, BodyBytes, ConnectHead, ConnectTail, PackString;
      ghost var p := Content();
      var len := SetFields();
      WrapRange(BodyLength(p));
      header.SetRemainingLength(len);
      ok, out' := header.BuildHeader(out);
      if ok {
        ghost var head := HeaderBytes(CONNECT, p.hflags, len);
        out' := PackBody(out');
        SentBody(p);
        assert out' == out + (head + BodyBytes(p));
      }
    }

    method PackBody(out: bytes) returns (out': bytes)
      ensures out' == out + (ConnectHead(connFlags, keepAlive) + PackString(cid) + ConnectTail(Content()))
    {
      hide PackString, PackShort;
      out' := out + [0, 4, 0x4D, 0x51, 0x54, 0x54, 4];
      out' := out' + [connFlags];
      out' := out' + PackShort(keepAlive);
      assert out' == out + ConnectHead(connFlags, keepAlive);
      out' := out' + PackString(cid);
      ghost var before := out';
      if willTopic != [] && willMsg != [] {
        out' := out' + PackString(willTopic);
        out' := out' + PackString(willMsg);
      }
      if username != [] {
        out' := out' + PackString(username);
      }
      if passwd != [] {
        out' := out' + PackString(passwd);
      }
      assert out' == before + ConnectTail(Content());
    }

    // ----- receiving

    method UpdateHeaderVar(data: bytes) returns (left: int)
      requires Receiving() && !finished && status.HdrVar? && data != []
      modifies this, buff
      ensures Receiving() && 0 <= left < |data|
      ensures Advanced(old(AsField()), old(Part()), data, left, AsField(), Part())
    {
      hide Parse, Advanced, Refused;
      ghost var f, part := AsField(), Part();
      assert dlen < 10;  // the check at the entry of the handler never fires
      var used;
      dlen, used := Fill(buff, dlen, 10, data);
      left := |data| - used;
      if dlen < 10 {
        AdvancePart(f, part, data);
        assert data[..used] == data;
        return;
      }
      AdvanceField(f, part, data, used);
      connFlags := buff[7];
      keepAlive := UnpackShort(buff[9..11]);
      assert buff[9..11] == [buff[9], buff[10]];
      dlen, status := 0, CidLen;
      assert buff[..0] == [];
    }

    /** SAVE_LENGTH: collects the two bytes of a length and puts the length into dlen_. */
    method SaveLength(data: bytes) returns (left: int, full: bool)
      requires buff.Length == 11 && dlen < 2 && data != []
      modifies `dlen, buff
      ensures 0 <= left < |data| && (!full ==> left == 0 && dlen < 2 && buff[..dlen] == old(buff[..dlen]) + data)
      ensures full ==> var used := |data| - left;
                old(dlen) + used == 2 && buff[..2] == old(buff[..dlen]) + data[..used] && dlen == UnpackShort(buff[..2])
    {
      var used;
      dlen, used := Fill(buff, dlen, 2, data);
      left, full := |data| - used, dlen == 2;
      if full {
        dlen := UnpackShort(buff[..2]);
      } else {
        assert data[..used] == data;
      }
    }

    /** SAVE_DATA: collects the bytes of a string; there must be some left to collect. */
    method SaveData(s: bytes, data: bytes) returns (s': bytes, left: int, full: bool)
      requires data != []
      modifies `dlen
      ensures if old(dlen) == 0 then left == -1 && s' == s && dlen == 0
              else 0 <= left < |data| && s' == s + data[..|data| - left] && dlen == old(dlen) - (|data| - left)
                   && full == (dlen == 0) && (!full ==> left == 0 && data[..|data| - left] == data)
    {
      if dlen <= 0 {
        return s, -1, false;
      }
      var used;
      s', dlen, used := Append(s, dlen, data);
      left, full := |data| - used, dlen == 0;
      assert !full ==> data[..used] == data;
    }

    method UpdateCidLen(data: bytes) returns (left: int)
      requires Receiving() && !finished && status.CidLen? && data != []
      modifies this, buff
      ensures Receiving() && 0 <= left < |data|
      ensures Advanced(old(AsField()), old(Part()), data, left, AsField(), Part())
    {
      hide Parse, Take, Need, UnpackShort, HasWill, HasUser, HasPass, Advanced, Refused;
      ghost var f, part := AsField(), Part();
      var full;
      left, full := SaveLength(data);
      if !full {
        AdvancePart(f, part, data);
        return;
      }
      TakeLength(SlotOf(status), Content(), buff[..2]);
      AdvanceField(f, part, data, |data| - left);
      assert buff[..0] == [];
      if dlen > 0 {
        status := CidVal;
      } else if HasWill(connFlags) {
        status := WillTopicLen;
      } else if HasUser(connFlags) {
        status := UsernameLen;
      } else if HasPass(connFlags) {
        status := PasswdLen;
      } else {
        finished := true;
      }
    }

    method UpdateCidVal(data: bytes) returns (left: int)
      requires Receiving() && !finished && status.CidVal? && data != []
      modifies this
      ensures Receiving() && 0 <= left < |data|
      ensures Advanced(old(AsField()), old(Part()), data, left, AsField(), Part())
    {
      hide Parse, Take, Need, HasWill, HasUser, HasPass, Advanced, Refused;
      ghost var f, part, m := AsField(), Part(), Put(Content(), SlotOf(status), []);
      assert dlen > 0;  // the check of SAVE_DATA never fires
      var full;
      cid, left, full := SaveData(cid, data);
      if !full {
        AdvancePart(f, part, data);
        return;
      }
      TakeString(SlotOf(status), m, cid);
      AdvanceField(f, part, data, |data| - left);
      assert buff[..0] == [];
      if HasWill(connFlags) {
        status := WillTopicLen;
      } else if HasUser(connFlags) {
        status := UsernameLen;
      } else if HasPass(connFlags) {
        status := PasswdLen;
      } else {
        finished := true;
      }
    }

    method UpdateWillTopicLen(data: bytes) returns (left: int)
      requires Receiving() && !finished && status.WillTopicLen? && data != []
      modifies this, buff
      ensures Receiving() && 0 <= left < |data|
      ensures Advanced(old(AsField()), old(Part()), data, left, AsField(), Part())
    {
      hide Parse, Take, Need, UnpackShort, HasWill, HasUser, HasPass, Advanced, Refused;
      ghost var f, part := AsField(), Part();
      var full;
      left, full := SaveLength(data);
      if !full {
        AdvancePart(f, part, data);
        return;
      }
      TakeLength(SlotOf(status), Content(), buff[..2]);
      AdvanceField(f, part, data, |data| - left);
      assert buff[..0] == [];
      status := WillTopicVal;
    }

    method UpdateWillTopicVal(data: bytes) returns (left: int)
      requires Receiving() && !finished && status.WillTopicVal? && data != []
      modifies this
      ensures Valid() && (left < 0 ==> Refused(old(AsField()), old(Part()), data, left))
      ensures left >= 0 ==> Receiving() && left < |data|
      ensures left >= 0 ==> Advanced(old(AsField()), old(Part()), data, left, AsField(), Part())
    {
      hide Parse, Take, Need, HasWill, HasUser, HasPass, Advanced, Refused;
      ghost var f, part, m := AsField(), Part(), Put(Content(), SlotOf(status), []);
      var full;
      willTopic, left, full := SaveData(willTopic, data);
      if left < 0 {
        StuckTopic(f, data);
        return;
      }
      if !full {
        AdvancePart(f, part, data);
        return;
      }
      TakeString(SlotOf(status), m, willTopic);
      AdvanceField(f, part, data, |data| - left);
      assert buff[..0] == [];
      status := WillMsgLen;
    }

    method UpdateWillMsgLen(data: bytes) returns (left: int)
      requires Receiving() && !finished && status.WillMsgLen? && data != []
      modifies this, buff
      ensures Receiving() && 0 <= left < |data|
      ensures Advanced(old(AsField()), old(Part()), data, left, AsField(), Part())
    {
      hide Parse, Take, Need, UnpackShort, HasWill, HasUser, HasPass, Advanced, Refused;
      ghost var f, part := AsField(), Part();
      var full;
      left, full := SaveLength(data);
      if !full {
        AdvancePart(f, part, data);
        return;
      }
      TakeLength(SlotOf(status), Content(), buff[..2]);
      AdvanceField(f, part, data, |data| - left);
      assert buff[..0] == [];
      if dlen > 0 {
        status := WillMsgVal;
      } else if HasUser(connFlags) {
        status := UsernameLen;
      } else if HasPass(connFlags) {
        status := PasswdLen;
      } else {
        finished := true;
      }
    }

    method UpdateWillMsgVal(data: bytes) returns (left: int)
      requires Receiving() && !finished && status.WillMsgVal? && data != []
      modifies this
      ensures Receiving() && 0 <= left < |data|
      ensures Advanced(old(AsField()), old(Part()), data, left, AsField(), Part())
    {
      hide Parse, Take, Need, HasWill, HasUser, HasPass, Advanced, Refused;
      ghost var f, part, m := AsField(), Part(), Put(Content(), SlotOf(status), []);
      assert dlen > 0;  // the check of SAVE_DATA never fires
      var full;
      willMsg, left, full := SaveData(willMsg, data);
      if !full {
        AdvancePart(f, part, data);
        return;
      }
      TakeString(SlotOf(status), m, willMsg);
      AdvanceField(f, part, data, |data| - left);
      assert buff[..0] == [];
      if HasUser(connFlags) {
        status := UsernameLen;
      } else if HasPass(connFlags) {
        status := PasswdLen;
      } else {
        finished := true;
      }
    }

    method UpdateUsernameLen(data: bytes) returns (left: int)
      requires Receiving() && !finished && status.UsernameLen? && data != []
      modifies this, buff
      ensures Receiving() && 0 <= left < |data|
      ensures Advanced(old(AsField()), old(Part()), data, left, AsField(), Part())
    {
      hide Parse, Take, Need, UnpackShort, HasWill, HasUser, HasPass, Advanced, Refused;
      ghost var f, part := AsField(), Part();
      var full;
      left, full := SaveLength(data);
      if !full {
        AdvancePart(f, part, data);
        return;
      }
      TakeLength(SlotOf(status), Content(), buff[..2]);
      AdvanceField(f, part, data, |data| - left);
      assert buff[..0] == [];
      if dlen > 0 {
        status := UsernameVal;
      } else if HasPass(connFlags) {
        status := PasswdLen;
      } else {
        finished := true;
      }
    }

    method UpdateUsernameVal(data: bytes) returns (left: int)
      requires Receiving() && !finished && status.UsernameVal? && data != []
      modifies this
      ensures Receiving() && 0 <= left < |data|
      ensures Advanced(old(AsField()), old(Part()), data, left, AsField(), Part())
    {
      hide Parse, Take, Need, HasWill, HasUser, HasPass, Advanced, Refused;
      ghost var f, part, m := AsField(), Part(), Put(Content(), SlotOf(status), []);
      assert dlen > 0;  // the check of SAVE_DATA never fires
      var full;
      username, left, full := SaveData(username, data);
      if !full {
        AdvancePart(f, part, data);
        return;
      }
      TakeString(SlotOf(status), m, username);
      AdvanceField(f, part, data, |data| - left);
      assert buff[..0] == [];
      if HasPass(connFlags) {
        status := PasswdLen;
      } else {
        finished := true;
      }
    }

    method UpdatePasswdLen(data: bytes) returns (left: int)
      requires Receiving() && !finished && status.PasswdLen? && data != []
      modifies this, buff
      ensures Receiving() && 0 <= left < |data|
      ensures Advanced(old(AsField()), old(Part()), data, left, AsField(), Part())
    {
      hide Parse, Take, Need, UnpackShort, HasWill, HasUser, HasPass, Advanced, Refused;
      ghost var f, part := AsField(), Part();
      var full;
      left, full := SaveLength(data);
      if !full {
        AdvancePart(f, part, data);
        return;
      }
      TakeLength(SlotOf(status), Content(), buff[..2]);
      AdvanceField(f, part, data, |data| - left);
      assert buff[..0] == [];
      if dlen > 0 {
        status := PasswdVal;
      } else {
        finished := true;
      }
    }

    method UpdatePasswdVal(data: bytes) returns (left: int)
      requires Receiving() && !finished && status.PasswdVal? && data != []
      modifies this
      ensures Receiving() && 0 <= left < |data|
      ensures Advanced(old(AsField()), old(Part()), data, left, AsField(), Part())
    {
      hide Parse, Take, Need, HasWill, HasUser, HasPass, Advanced, Refused;
      ghost var f, part, m := AsField(), Part(), Put(Content(), SlotOf(status), []);
      assert dlen > 0;  // the check of SAVE_DATA never fires
      var full;
      passwd, left, full := SaveData(passwd, data);
      if !full {
        AdvancePart(f, part, data);
        return;
      }
      TakeString(SlotOf(status), m, passwd);
      AdvanceField(f, part, data, |data| - left);
      assert buff[..0] == [];
      finished := true;
    }

    method Update(data: bytes) returns (left: int)
      requires Receiving()
      modifies this, buff
      ensures data == [] ==> left == -1
      ensures data != [] ==> Valid() && (left >= 0 ==> Receiving())
      ensures data != [] && left < 0 ==> Refused(old(AsField()), old(Part()), data, left)
      ensures data != [] && left >= 0 ==>
                Reads(Parse(old(AsField()), old(Part()) + data), data, left, AsField(), Part())
    {
      hide Parse, Take, Need, Advanced;
      if data == [] {
        return -1;
      }
      ghost var f, part := AsField(), Part();
      left := |data|;
      AdvanceStart(f, part, data);
      while left > 0 && !finished
        invariant 0 <= left <= |data| && Receiving()
        invariant Advanced(f, part, data, left, AsField(), Part())
        decreases left
      {
        ghost var g, part' := AsField(), Part();
        var ret := Dispatch(data[|data| - left..]);
        if ret < 0 {
          RefuseNext(f, part, data, left, g, part', ret);
          return -1;
        }
        AdvanceNext(f, part, data, left, g, part', ret, AsField(), Part());
        left := ret;
      }
      FieldWaits();
      AdvanceEnd(f, part, data, left, AsField(), Part());
    }

    /** The table of handlers. */
    method Dispatch(data: bytes) returns (left: int)
      requires Receiving() && !finished && data != []
      modifies this, buff
      ensures Valid() && (left < 0 ==> Refused(old(AsField()), old(Part()), data, left))
      ensures left >= 0 ==> Receiving() && left < |data|
      ensures left >= 0 ==> Advanced(old(AsField()), old(Part()), data, left, AsField(), Part())
    {
      hide Advanced, Refused;
      match status {
        case HdrVar => left := UpdateHeaderVar(data);
        case CidLen => left := UpdateCidLen(data);
        case CidVal => left := UpdateCidVal(data);
        case UsernameLen => left := UpdateUsernameLen(data);
        case UsernameVal => left := UpdateUsernameVal(data);
        case PasswdLen => left := UpdatePasswdLen(data);
        case PasswdVal => left := UpdatePasswdVal(data);
        case WillTopicLen => left := UpdateWillTopicLen(data);
        case WillTopicVal => left := UpdateWillTopicVal(data);
        case WillMsgLen => left := UpdateWillMsgLen(data);
        case WillMsgVal => left := UpdateWillMsgVal(data);
      }
    }

    lemma FieldWaits()
      requires Receiving()
      ensures if finished then Stops(AsField()) && Part() == [] else Waits(AsField(), Part())
    {
    }
  }

  /** A will topic of length zero: the next byte is refused. */
  lemma StuckTopic(f: Field, data: bytes)
    requires f.CVal? && f.n == 0 && Typed(f) && data != []
    ensures Refused(f, [], data, -1)
  {
    assert [] + data == data;
  }

  /** The body of the message as it is after the flags have been set. */
  lemma SentBody(p: Packet)
    requires p.Connect?
    ensures var q := SentConnect(p);
            BodyBytes(p) == ConnectHead(q.flags, q.keepAlive) + PackString(q.cid) + ConnectTail(q)
  {
    hide PackString, PackShort, HasWill, HasUser, HasPass, SetWill, SetUser, SetPass;
  }
}
