/** Printing and then parsing: the fixed header, every message type, and pipelines of messages. */
module RoundTrip {
  import opened Bytes
  import opened Packets
  import opened Fields
  import opened Framing

  // ----- fixed header

  lemma {:induction false} DecodeEncode(n: nat)
    ensures DecodeLength(EncodeLength(n)) == n
  {
    if n >= 0x80 {
      DecodeEncode(n / 0x80);
      assert EncodeLength(n)[1..] == EncodeLength(n / 0x80);
    }
  }

  /** No shorter byte string has the same value: the encoding is the shortest one. */
  lemma {:induction false} EncodeShortest(x: bytes)
    requires x != []
    ensures |EncodeLength(DecodeLength(x))| <= |x|
  {
    if |x| > 1 {
      EncodeShortest(x[1..]);
      var d := DecodeLength(x[1..]);
      assert DecodeLength(x) / 0x80 == d;
    } else {
      assert DecodeLength(x[1..]) == 0;
    }
  }

  /** The length field is read back after any prefix of digits already read. */
  lemma {:induction false} ParseLength(t: ptype, hf: nibble, lens: bytes, n: nat, rest: bytes)
    requires |lens| + |EncodeLength(n)| <= 4
    ensures Parse(HLen(t, hf, lens), EncodeLength(n) + rest)
         == Finished(HDone(t, hf, DecodeLength(lens + EncodeLength(n))), rest)
    decreases n
  {
    hide Parse, DecodeLength;
    if n < 0x80 {
      ParseField(HLen(t, hf, lens), [n], rest);
    } else {
      var b: byte := n % 0x80 + 0x80;
      var more := EncodeLength(n / 0x80);
      assert EncodeLength(n) + rest == [b] + (more + rest);
      ParseField(HLen(t, hf, lens), [b], more + rest);
      ParseLength(t, hf, lens + [b], n / 0x80, rest);
      assert lens + [b] + more == lens + EncodeLength(n);
    }
  }

  /** Section 2.2.3 of MQTT 3.1.1: what build_header writes is read back as the same type, flags and
      remaining length, and nothing behind it is touched. */
  lemma {:induction false} HeaderRoundTrip(t: ptype, hf: nibble, len: nat, rest: bytes)
    requires len < MAX_REMAINING
    ensures Parse(HType, HeaderBytes(t, hf, len) + rest) == Finished(HDone(t, hf, len), rest)
  {
    hide Parse, EncodeLength, DecodeLength;
    var b: byte := t * 0x10 + hf;
    assert HeaderBytes(t, hf, len) + rest == [b] + (EncodeLength(len) + rest);
    ParseField(HType, [b], EncodeLength(len) + rest);
    ParseLength(t, hf, [], len, rest);
    assert [] + EncodeLength(len) == EncodeLength(len);
    DecodeEncode(len);
  }

  /** Four continuation bytes are an error, whatever follows. */
  lemma {:induction false} FourContinuationBytes(t: ptype, hf: nibble, x: bytes, rest: bytes)
    requires |x| == 4 && forall i | 0 <= i < 4 :: x[i] >= 0x80
    ensures Parse(HLen(t, hf, []), x + rest) == Bad
  {
    var r3 := [x[3]] + rest;
    var r2 := [x[2]] + r3;
    var r1 := [x[1]] + r2;
    assert x + rest == [x[0]] + r1;
    ParseField(HLen(t, hf, []), [x[0]], r1);
    ParseField(HLen(t, hf, [] + [x[0]]), [x[1]], r2);
    ParseField(HLen(t, hf, [] + [x[0]] + [x[1]]), [x[2]], r3);
    ParseField(HLen(t, hf, [] + [x[0]] + [x[1]] + [x[2]]), [x[3]], rest);
  }

  // ----- which messages survive

  /** What arrives at the other side: the message as sent, but for the keep-alive of CONNECT, whose
      low byte is taken for the high one and whose new low byte is `pad`. */
  function Arrived(p: Packet, pad: byte): Packet
  {
    match Sent(p)
    case Connect(hf, flags, ka, cid, wt, wm, user, pass) =>
      Connect(hf, flags, UnpackShort([ka % 0x100, pad]), cid, wt, wm, user, pass)
    case q => q
  }

  /** The object that the header of `p` creates at the other side. */
  function Receiver(p: Packet, pad: byte): Field {
    Body(TypeCode(p), HeaderFlags(p), Wrap32(BodyLength(p)), pad)
  }

  ghost predicate FitsAll(ss: seq<bytes>) {
    forall i | 0 <= i < |ss| :: 0 < |ss[i]| <= MAX_STRING
  }

  predicate ClampedAll(qoses: bytes) {
    forall i | 0 <= i < |qoses| :: qoses[i] <= 2
  }

  /** The messages that survive the trip. */
  ghost predicate Survives(p: Packet) {
    match p
    case Connect(_, flags, _, cid, wt, wm, user, pass) =>
      // no string is cut, and no flag announces a field that is not there
      && Fits(cid) && Fits(user) && Fits(pass) && (Will(p) ==> Fits(wt) && Fits(wm))
      && (HasUser(flags) ==> user != []) && (HasPass(flags) ==> pass != [])
      && (HasWill(flags) ==> Will(p))
    case Connack(_, _, _) => true
    case Publish(hflags, topic, pktId, n, payload) =>
      && 0 < |topic| <= MAX_STRING && n == |payload|
      && (if Qos(hflags) == 0 then pktId == 0 && n > 0 else BodyLength(p) < MAX_REMAINING)
    case Ack(kind, hflags, _) => kind.Pubrel? ==> hflags == 2
    case Subscribe(_, topics, qoses) =>
      FitsAll(topics) && ClampedAll(qoses) && BodyLength(p) < MAX_REMAINING
    case Suback(_, qoses) => ClampedAll(qoses) && BodyLength(p) < MAX_REMAINING
    case Unsubscribe(_, _, topics) => FitsAll(topics) && |topics| == 1
    case Empty(_, _) => true
  }

  // ----- one message type after the other

  function Str(slot: Slot, m: Packet): bytes
    requires m.Connect?
  {
    match slot
    case Cid => m.cid
    case WillTopic => m.willTopic
    case WillMsg => m.willMsg
    case User => m.username
    case Pass => m.passwd
  }

  /** One string; an empty will topic would leave the parser waiting for nothing. */
  lemma ParseString(slot: Slot, m: Packet, s: bytes, rest: bytes)
    requires m.Connect? && Fits(s) && (s == [] ==> !slot.WillTopic? && Str(slot, m) == [])
    ensures Parse(CLen(slot, m), PackString(s) + rest) == Parse(After(slot, Put(m, slot, s)), rest)
  {
    if s == [] {
      assert PackString(s) == PackShort(0);
      ParseField(CLen(slot, m), PackShort(0), rest);
      assert Put(m, slot, s) == m;
    } else {
      PackStringFits(s);
      assert PackString(s) + rest == PackShort(|s|) + (s + rest);
      ParseField(CLen(slot, m), PackShort(|s|), s + rest);
      ParseField(CVal(slot, |s|, m), s, rest);
    }
  }

  /** The order of the strings: each is skipped when its flag is not set. */
  lemma AfterCases(m: Packet)
    requires m.Connect?
    ensures After(Cid, m) == if HasWill(m.flags) then CLen(WillTopic, m) else After(WillMsg, m)
    ensures After(WillTopic, m) == CLen(WillMsg, m)
    ensures After(WillMsg, m) == if HasUser(m.flags) then CLen(User, m) else After(User, m)
    ensures After(User, m) == if HasPass(m.flags) then CLen(Pass, m) else After(Pass, m)
    ensures After(Pass, m) == Done(m)
  {
    hide HasUser, HasPass, HasWill;
  }

  /** The password, if the flags announce one. */
  lemma ReadPass(m: Packet, pass: bytes, rest: bytes)
    requires m.Connect? && m.passwd == [] && Fits(pass) && (!HasPass(m.flags) ==> pass == [])
    ensures Parse(After(User, m), PackIf(HasPass(m.flags), pass) + rest) == Finished(Done(Put(m, Pass, pass)), rest)
  {
    hide After, HasPass, PackString, Take, Need;
    AfterCases(m);
    if HasPass(m.flags) {
      ParseString(Pass, m, pass, rest);
      AfterCases(Put(m, Pass, pass));
    } else {
      assert PackIf(false, pass) + rest == rest;
      assert Put(m, Pass, pass) == m;
    }
  }

  /** The user name and the password, if the flags announce them. */
  lemma ReadUser(m: Packet, user: bytes, pass: bytes, rest: bytes)
    requires m.Connect? && m.username == [] && m.passwd == [] && Fits(user) && Fits(pass)
    requires (!HasUser(m.flags) ==> user == []) && (!HasPass(m.flags) ==> pass == [])
    ensures Parse(After(WillMsg, m), PackIf(HasUser(m.flags), user) + (PackIf(HasPass(m.flags), pass) + rest))
         == Finished(Done(Put(Put(m, User, user), Pass, pass)), rest)
  {
    hide Parse, After, HasUser, HasPass, PackString;
    AfterCases(m);
    if HasUser(m.flags) {
      ParseString(User, m, user, PackIf(HasPass(m.flags), pass) + rest);
    } else {
      assert PackIf(false, user) + (PackIf(HasPass(m.flags), pass) + rest) == PackIf(HasPass(m.flags), pass) + rest;
      assert Put(m, User, user) == m;
    }
    ReadPass(Put(m, User, user), pass, rest);
  }

  /** The strings behind the client identifier as a flag byte announces them. */
  function Optionals(flags: byte, wt: bytes, wm: bytes, user: bytes, pass: bytes): bytes {
    PackIf(HasWill(flags), wt) + PackIf(HasWill(flags), wm)
    + (PackIf(HasUser(flags), user) + PackIf(HasPass(flags), pass))
  }

  /** The will, if the flags announce one, and all that follows. */
  lemma ReadWill(m: Packet, wt: bytes, wm: bytes, user: bytes, pass: bytes, rest: bytes)
    requires m.Connect? && m.willTopic == m.willMsg == m.username == m.passwd == []
    requires Fits(wt) && Fits(wm) && Fits(user) && Fits(pass)
    requires if HasWill(m.flags) then wt != [] else wt == wm == []
    requires (!HasUser(m.flags) ==> user == []) && (!HasPass(m.flags) ==> pass == [])
    ensures Parse(After(Cid, m), Optionals(m.flags, wt, wm, user, pass) + rest)
         == Finished(Done(Put(Put(Put(Put(m, WillTopic, wt), WillMsg, wm), User, user), Pass, pass)), rest)
  {
    hide Parse, After, HasUser, HasPass, HasWill, PackString;
    AfterCases(m);
    TailOfConnect(m.flags, wt, wm, user, pass, rest);
    var tail := PackIf(HasUser(m.flags), user) + (PackIf(HasPass(m.flags), pass) + rest);
    hide Optionals;
    if HasWill(m.flags) {
      ParseString(WillTopic, m, wt, PackString(wm) + tail);
      var m2 := Put(m, WillTopic, wt);
      AfterCases(m2);
      ParseString(WillMsg, m2, wm, tail);
      ReadUser(Put(m2, WillMsg, wm), user, pass, rest);
    } else {
      assert Put(Put(m, WillTopic, wt), WillMsg, wm) == m;
      ReadUser(m, user, pass, rest);
    }
  }

  lemma TailOfConnect(flags: byte, wt: bytes, wm: bytes, user: bytes, pass: bytes, rest: bytes)
    ensures var tail := PackIf(HasUser(flags), user) + (PackIf(HasPass(flags), pass) + rest);
            Optionals(flags, wt, wm, user, pass) + rest ==
              if HasWill(flags) then PackString(wt) + (PackString(wm) + tail) else tail
  {
    hide PackString, HasUser, HasPass, HasWill;
  }

  /** Any CONNECT: neither the protocol name nor its level is looked at, and the flag byte alone decides which strings
      follow.  Of the keep-alive only the second byte is read, as the first, with the byte behind the buffer. */
  lemma ConnectReads(hf: nibble, pad: byte, head: bytes, cid: bytes, wt: bytes, wm: bytes, user: bytes, pass: bytes,
                     rest: bytes)
    requires |head| == 10 && Fits(cid) && Fits(wt) && Fits(wm) && Fits(user) && Fits(pass)
    requires if HasWill(head[7]) then wt != [] else wt == wm == []
    requires (!HasUser(head[7]) ==> user == []) && (!HasPass(head[7]) ==> pass == [])
    ensures Parse(CVar(hf, pad), head + (PackString(cid) + (Optionals(head[7], wt, wm, user, pass) + rest)))
         == Finished(Done(Connect(hf, head[7], UnpackShort([head[9], pad]), cid, wt, wm, user, pass)), rest)
  {
    hide Parse, After, HasUser, HasPass, HasWill, PackString, Optionals;
    var m := Connect(hf, head[7], UnpackShort([head[9], pad]), [], [], [], [], []);
    var tail := Optionals(head[7], wt, wm, user, pass) + rest;
    ParseField(CVar(hf, pad), head, PackString(cid) + tail);
    ParseString(Cid, m, cid, tail);
    ReadWill(Put(m, Cid, cid), wt, wm, user, pass, rest);
  }

  // Setting one of the three flag bits sets it and keeps the other two.

  lemma SetUserFlag(f: byte)
    ensures HasUser(SetUser(f)) && HasPass(SetUser(f)) == HasPass(f) && HasWill(SetUser(f)) == HasWill(f)
  {
    HighBit(f / 0x08, f % 0x08, 0x10);
    assert f < 0x80 ==> (f + 0x80) % 0x80 == f;
  }

  lemma SetPassFlag(f: byte)
    ensures HasPass(SetPass(f)) && HasUser(SetPass(f)) == HasUser(f) && HasWill(SetPass(f)) == HasWill(f)
  {
    HighBit(f / 0x08, f % 0x08, 0x08);
  }

  lemma HighBit(high: int, low: int, more: int)
    requires 0 <= low < 8
    ensures (0x08 * high + low + 0x08 * more) % 0x08 == low
  {
    assert 0x08 * high + low + 0x08 * more == 0x08 * (high + more) + low;
  }

  lemma SetWillFlag(f: byte)
    ensures HasWill(SetWill(f)) && HasUser(SetWill(f)) == HasUser(f) && HasPass(SetWill(f)) == HasPass(f)
  {
    if !HasWill(f) {
      LowBits(f / 0x08, f % 0x08);
    }
  }

  /** Setting the third bit of a byte changes no other bit that matters. */
  lemma LowBits(high: int, low: int)
    requires 0 <= high < 0x20 && 0 <= low < 4
    ensures var f := 0x08 * high + low;
            && (f + 4) % 0x08 == low + 4 && f + 4 < 0x100
            && (f + 4 >= 0x80 <==> f >= 0x80) && ((f + 4) % 0x80 >= 0x40 <==> f % 0x80 >= 0x40)
  {
    var f := 0x08 * high + low;
    assert f % 0x80 == if high >= 0x10 then f - 0x80 else f;
    assert (f + 4) % 0x80 == if high >= 0x10 then f - 0x7C else f + 4;
  }

  /** The flags sent are those set before and those of the fields written. */
  lemma FlagsOfSent(p: Packet)
    requires p.Connect?
    ensures HasUser(SentConnect(p).flags) <==> HasUser(p.flags) || p.username != []
    ensures HasPass(SentConnect(p).flags) <==> HasPass(p.flags) || p.passwd != []
    ensures HasWill(SentConnect(p).flags) <==> HasWill(p.flags) || Will(p)
  {
    hide HasUser, HasPass, HasWill, SetUser, SetPass, SetWill;
    var f1 := if p.username != [] then SetUser(p.flags) else p.flags;
    var f2 := if p.passwd != [] then SetPass(f1) else f1;
    SetUserFlag(p.flags);
    SetPassFlag(f1);
    SetWillFlag(f2);
  }

  /** What is sent is sent again in the same way. */
  lemma SentAgain(p: Packet)
    requires p.Connect?
    ensures SentConnect(SentConnect(p)) == SentConnect(p)
    ensures Will(SentConnect(p)) == Will(p)
  {
    hide HasUser, HasPass, HasWill;
    FlagsOfSent(p);
    FlagsOfSent(SentConnect(p));
  }

  lemma HeadBytes(flags: byte, ka: ushort)
    ensures var head := ConnectHead(flags, ka);
            |head| == 10 && head[7] == flags && head[9] == ka % 0x100
  {
  }

  lemma ParseConnect(p: Packet, pad: byte, rest: bytes)
    requires p.Connect? && Sound(p) && Survives(p)
    ensures Parse(Receiver(p, pad), BodyBytes(p) + rest) == Finished(Done(Arrived(p, pad)), rest)
  {
    hide Parse, HasUser, HasPass, HasWill, PackString, BodyLength, ConnectHead;
    var q := SentConnect(p);
    FlagsOfSent(p);
    SentAgain(p);
    var head, tail := ConnectHead(q.flags, q.keepAlive), ConnectTail(p);
    HeadBytes(q.flags, q.keepAlive);
    assert tail == Optionals(q.flags, q.willTopic, q.willMsg, q.username, q.passwd);
    assert BodyBytes(p) + rest == head + (PackString(q.cid) + (tail + rest));
    ConnectReads(p.hflags, pad, head, q.cid, q.willTopic, q.willMsg, q.username, q.passwd, rest);
  }

  lemma ParseTopic(hf: nibble, len: nat, topic: bytes, rest: bytes)
    requires 0 < |topic| <= MAX_STRING
    ensures Parse(PTopicLen(hf, len), PackString(topic) + rest)
         == Parse(if Qos(hf) > 0 then PPktId(hf, len, topic)
                  else PPayload(hf, Wrap32(len - (|topic| + 2)), topic, 0), rest)
  {
    hide Parse;
    PackStringFits(topic);
    assert PackString(topic) + rest == PackShort(|topic|) + (topic + rest);
    ParseField(PTopicLen(hf, len), PackShort(|topic|), topic + rest);
    ParseField(PTopicVal(hf, len, |topic|), topic, rest);
  }

  lemma ParsePayload(hf: nibble, topic: bytes, pktId: ushort, payload: bytes, rest: bytes)
    requires payload != []
    ensures Parse(PPayload(hf, |payload|, topic, pktId), payload + rest)
         == Finished(Done(Publish(hf, topic, pktId, |payload|, payload)), rest)
  {
    hide Parse;
    ParseField(PPayload(hf, |payload|, topic, pktId), payload, rest);
  }

  lemma ParsePktId(hf: nibble, topic: bytes, pktId: ushort, payload: bytes, rest: bytes)
    ensures Parse(PPktId(hf, |topic| + 4 + |payload|, topic), PackShort(pktId) + (payload + rest))
         == Finished(Done(Publish(hf, topic, pktId, |payload|, payload)), rest)
  {
    hide Parse;
    ParseField(PPktId(hf, |topic| + 4 + |payload|, topic), PackShort(pktId), payload + rest);
    if payload != [] {
      ParsePayload(hf, topic, pktId, payload, rest);
    } else {
      assert [] + rest == rest;
    }
  }

  lemma ParsePublish(p: Packet, pad: byte, rest: bytes)
    requires p.Publish? && Accepted(p) && Survives(p)
    ensures Parse(Receiver(p, pad), BodyBytes(p) + rest) == Finished(Done(Arrived(p, pad)), rest)
  {
    hide Parse, PackString;
    var hf, len := Sent(p).hflags, Wrap32(BodyLength(p));
    assert Qos(hf) == Qos(p.hflags);
    var payload := if p.payload == [] then [] else p.payload[..p.payloadLen];
    assert payload == p.payload;
    if Qos(hf) > 0 {
      assert BodyBytes(p) + rest == PackString(p.topic) + (PackShort(p.pktId) + (p.payload + rest));
      ParseTopic(hf, len, p.topic, PackShort(p.pktId) + (p.payload + rest));
      ParsePktId(hf, p.topic, p.pktId, p.payload, rest);
    } else {
      assert BodyBytes(p) + rest == PackString(p.topic) + (p.payload + rest);
      ParseTopic(hf, len, p.topic, p.payload + rest);
      assert Wrap32(len - (|p.topic| + 2)) == p.payloadLen;
      ParsePayload(hf, p.topic, 0, p.payload, rest);
    }
  }

  /** The QoS values that a receiver keeps: anything but 0, 1 and 2 becomes 0. */
  function Granted(qs: bytes): (r: bytes)
    ensures |r| == |qs| && forall i | 0 <= i < |qs| :: r[i] == if qs[i] <= 2 then qs[i] else 0
  {
    if qs == [] then []
    else
      var k := |qs| - 1;
      Granted(qs[..k]) + [if qs[k] <= 2 then qs[k] else 0]
  }

  /** Body bytes of a SUBSCRIBE with these topics. */
  function Covered(ts: seq<bytes>): nat {
    2 + TopicBytes(ts) + |ts|
  }

  lemma ParseSubscription(len: nat, nread: nat, id: ushort, ts: seq<bytes>, qs: bytes, topic: bytes, qos: byte,
                          rest: bytes)
    requires 0 < |topic| <= MAX_STRING && nread + 2 < len
    ensures Parse(SLen(len, nread, id, ts, qs), PackString(topic) + ([qos] + rest)) ==
            var total, qs1 := nread + 3 + |topic|, qs + [if qos <= 2 then qos else 0];
            if total >= len then Finished(Done(Subscribe(id, ts + [topic], qs1)), rest)
            else Parse(SLen(len, total, id, ts + [topic], qs1), rest)
  {
    hide Parse, PackString;
    PackStringFits(topic);
    PackUnpackShort(|topic|);
    assert PackString(topic) + ([qos] + rest) == PackShort(|topic|) + (topic + ([qos] + rest));
    hide PackShort, UnpackShort;
    ParseField(SLen(len, nread, id, ts, qs), PackShort(|topic|), topic + ([qos] + rest));
    ParseField(SVal(len, nread + 2, id, ts, qs, |topic|), topic, [qos] + rest);
    ParseField(SQos(len, nread + 2 + |topic|, id, ts, qs, topic), [qos], rest);
  }

  lemma LastSubscription(ts: seq<bytes>, qs: bytes, rest: bytes)
    requires |ts| == |qs| > 0
    ensures var k := |ts| - 1;
            && PackSubscriptions(ts, qs) + rest
               == PackSubscriptions(ts[..k], qs[..k]) + (PackString(ts[k]) + ([qs[k]] + rest))
            && Covered(ts) == Covered(ts[..k]) + 3 + |ts[k]|
            && ts[..k] + [ts[k]] == ts
  {
    hide PackString;
  }

  /** A SUBSCRIBE whose announced length goes beyond these topics has read all of them, and waits for the next. */
  lemma {:induction false} ReadTopics(len: nat, id: ushort, ts: seq<bytes>, qs: bytes, rest: bytes)
    requires |ts| == |qs| && FitsAll(ts) && Covered(ts) < len
    ensures Parse(SVar(len), PackShort(id) + (PackSubscriptions(ts, qs) + rest))
         == Parse(SLen(len, Covered(ts), id, ts, Granted(qs)), rest)
    decreases |ts|
  {
    hide Parse, PackString;
    if ts == [] {
      assert PackSubscriptions(ts, qs) + rest == rest;
      ParseField(SVar(len), PackShort(id), rest);
    } else {
      var k := |ts| - 1;
      LastSubscription(ts, qs, rest);
      ReadTopics(len, id, ts[..k], qs[..k], PackString(ts[k]) + ([qs[k]] + rest));
      ParseSubscription(len, Covered(ts[..k]), id, ts[..k], Granted(qs[..k]), ts[k], qs[k], rest);
    }
  }

  /** Any SUBSCRIBE, whatever its QoS bytes: it ends with the topic in whose name or QoS byte the announced length
      ends. */
  lemma SubscribeReads(len: nat, id: ushort, ts: seq<bytes>, qs: bytes, rest: bytes)
    requires |ts| == |qs| > 0 && FitsAll(ts)
    requires Covered(ts[..|ts| - 1]) + 2 < len <= Covered(ts)
    ensures Parse(SVar(len), PackShort(id) + (PackSubscriptions(ts, qs) + rest))
         == Finished(Done(Subscribe(id, ts, Granted(qs))), rest)
  {
    hide Parse, PackString, Covered;
    var k := |ts| - 1;
    LastSubscription(ts, qs, rest);
    ReadTopics(len, id, ts[..k], qs[..k], PackString(ts[k]) + ([qs[k]] + rest));
    ParseSubscription(len, Covered(ts[..k]), id, ts[..k], Granted(qs[..k]), ts[k], qs[k], rest);
  }

  lemma ParseSubscribe(p: Packet, pad: byte, rest: bytes)
    requires p.Subscribe? && Accepted(p) && Survives(p)
    ensures Parse(Receiver(p, pad), BodyBytes(p) + rest) == Finished(Done(Arrived(p, pad)), rest)
  {
    hide Parse, PackString, FitsAll;
    var all := PackSubscriptions(p.topics, p.qoses);
    assert BodyBytes(p) + rest == PackShort(p.pktId) + (all + rest);
    LastSubscription(p.topics, p.qoses, rest);
    LastFits(p.topics);
    assert Granted(p.qoses) == p.qoses;
    SubscribeReads(BodyLength(p), p.pktId, p.topics, p.qoses, rest);
  }

  lemma LastFits(ts: seq<bytes>)
    requires ts != [] && FitsAll(ts)
    ensures 0 < |ts[|ts| - 1]| <= MAX_STRING
  {
  }

  /** Any SUBACK, whatever its return codes: it ends with the code at which the announced length ends. */
  lemma {:induction false} ReadCodes(len: nat, id: ushort, cs: bytes, rest: bytes)
    requires 2 < len && 2 + |cs| <= len
    ensures Parse(BVar(len), PackShort(id) + (cs + rest))
         == if 2 + |cs| < len then Parse(BQos(len, id, Granted(cs)), rest)
            else Finished(Done(Suback(id, Granted(cs))), rest)
    decreases |cs|
  {
    hide Parse;
    if cs == [] {
      assert cs + rest == rest;
      ParseField(BVar(len), PackShort(id), rest);
    } else {
      var k := |cs| - 1;
      assert cs + rest == cs[..k] + ([cs[k]] + rest);
      ReadCodes(len, id, cs[..k], [cs[k]] + rest);
      ParseField(BQos(len, id, Granted(cs[..k])), [cs[k]], rest);
    }
  }

  lemma ParseSuback(p: Packet, pad: byte, rest: bytes)
    requires p.Suback? && Accepted(p) && Survives(p)
    ensures Parse(Receiver(p, pad), BodyBytes(p) + rest) == Finished(Done(Arrived(p, pad)), rest)
  {
    hide Parse;
    assert BodyBytes(p) + rest == PackShort(p.pktId) + (p.qoses + rest);
    assert Granted(p.qoses) == p.qoses;
    ReadCodes(BodyLength(p), p.pktId, p.qoses, rest);
  }

  lemma ParseOneTopic(hf: nibble, id: ushort, topic: bytes, rest: bytes)
    requires 0 < |topic| <= MAX_STRING
    ensures Parse(UVar(hf, 4 + |topic|), PackShort(id) + (PackString(topic) + rest))
         == Finished(Done(Unsubscribe(hf, id, [topic])), rest)
  {
    hide Parse;
    var len := 4 + |topic|;
    PackStringFits(topic);
    var more := PackShort(|topic|) + (topic + rest);
    assert PackString(topic) + rest == more;
    ParseField(UVar(hf, len), PackShort(id), more);
    ParseField(ULen(hf, len, 2, id, []), PackShort(|topic|), topic + rest);
    ParseField(UVal(hf, len, 4, id, [], |topic|), topic, rest);
    assert [] + topic == topic && [] + [topic] == [topic];
  }

  lemma ParseUnsubscribe(p: Packet, pad: byte, rest: bytes)
    requires p.Unsubscribe? && Accepted(p) && Survives(p)
    ensures Parse(Receiver(p, pad), BodyBytes(p) + rest) == Finished(Done(Arrived(p, pad)), rest)
  {
    hide Parse, PackString;
    var topic := p.topics[0];
    assert p.topics == [topic] && p.topics[..0] == [];
    assert PackTopics(p.topics) == [] + PackString(topic) == PackString(topic);
    assert TopicBytes(p.topics) == 2 + |topic|;
    assert BodyBytes(p) + rest == PackShort(p.pktId) + (PackString(topic) + rest);
    ParseOneTopic(2, p.pktId, topic, rest);
  }

  lemma ParseShort(p: Packet, pad: byte, rest: bytes)
    requires p.Connack? || p.Ack?
    requires Survives(p)
    ensures Parse(Receiver(p, pad), BodyBytes(p) + rest) == Finished(Done(Arrived(p, pad)), rest)
  {
    hide Parse;
    ParseField(Receiver(p, pad), BodyBytes(p), rest);
  }

  lemma ParseEmpty(p: Packet, pad: byte, rest: bytes)
    requires p.Empty?
    ensures Parse(Receiver(p, pad), BodyBytes(p) + rest) == Finished(Done(Arrived(p, pad)), rest)
  {
    hide Need, Take;
    assert [] + rest == rest;
  }

  /** The body of a message that survives is read back, and nothing behind it is touched: the parser
      consumes exactly what the printer wrote. */
  lemma {:induction false} BodyRoundTrip(p: Packet, pad: byte, rest: bytes)
    requires Accepted(p) && Survives(p)
    ensures Parse(Receiver(p, pad), BodyBytes(p) + rest) == Finished(Done(Arrived(p, pad)), rest)
  {
    hide Parse, Survives, Receiver, BodyBytes, BodyLength, Arrived;
    match p
    case Connect(_, _, _, _, _, _, _, _) => ParseConnect(p, pad, rest);
    case Connack(_, _, _) => ParseShort(p, pad, rest);
    case Publish(_, _, _, _, _) => ParsePublish(p, pad, rest);
    case Ack(_, _, _) => ParseShort(p, pad, rest);
    case Subscribe(_, _, _) => ParseSubscribe(p, pad, rest);
    case Suback(_, _) => ParseSuback(p, pad, rest);
    case Unsubscribe(_, _, _) => ParseUnsubscribe(p, pad, rest);
    case Empty(_, _) => ParseEmpty(p, pad, rest);
  }

  // ----- pipelines

  function PrintAll(ps: seq<Packet>): bytes
    requires forall p | p in ps :: Accepted(p)
  {
    if ps == [] then [] else Print(ps[0]) + PrintAll(ps[1..])
  }

  /** The messages that arrive when `n` messages have been delivered before. */
  function ArrivedAll(ps: seq<Packet>, env: Env, n: nat): seq<Packet> {
    if ps == [] then [] else [Arrived(ps[0], env.pad(n))] + ArrivedAll(ps[1..], env, n + 1)
  }

  /** A printed message in front of any other bytes is delivered first. */
  lemma {:induction false} DrainPrinted(p: Packet, rest: bytes, log: seq<Packet>, env: Env)
    requires Accepted(p) && Survives(p)
    ensures Drain(HType, Print(p) + rest, log, env) ==
            var all := log + [Arrived(p, env.pad(|log|))];
            if env.handler(all) then Drain(HType, rest, all, env) else Closed(all)
  {
    var t, hf, len := TypeCode(p), HeaderFlags(p), Wrap32(BodyLength(p));
    assert Print(p) + rest == HeaderBytes(t, hf, len) + (BodyBytes(p) + rest);
    HeaderRoundTrip(t, hf, len, BodyBytes(p) + rest);
    BodyRoundTrip(p, env.pad(|log|), rest);
  }

  /** Messages in front of any bytes are delivered first, as long as the handler accepts. */
  lemma {:induction false} DrainAccepted(ps: seq<Packet>, rest: bytes, log: seq<Packet>, env: Env)
    requires forall p | p in ps :: Accepted(p) && Survives(p)
    requires forall l | |l| <= |log| + |ps| :: env.handler(l)
    ensures Drain(HType, PrintAll(ps) + rest, log, env) == Drain(HType, rest, log + ArrivedAll(ps, env, |log|), env)
    decreases |ps|
  {
    hide Parse, Drain, Print, Arrived, Accepted, Survives;
    if ps == [] {
      assert log + [] == log && PrintAll(ps) + rest == rest;
    } else {
      var all := log + [Arrived(ps[0], env.pad(|log|))];
      assert PrintAll(ps) + rest == Print(ps[0]) + (PrintAll(ps[1..]) + rest);
      DrainPrinted(ps[0], PrintAll(ps[1..]) + rest, log, env);
      DrainAccepted(ps[1..], rest, all, env);
      assert all + ArrivedAll(ps[1..], env, |all|) == log + ArrivedAll(ps, env, |log|);
    }
  }

  /** Pipelined round trip: any list of messages that survive, printed one behind the other and cut
      into reads in any way, is delivered completely and in order; the connection is idle again. */
  lemma {:induction false} PipelinedRoundTrip(ps: seq<Packet>, chunks: seq<bytes>, env: Env)
    requires forall p | p in ps :: Accepted(p) && Survives(p)
    requires forall l :: env.handler(l)
    requires Concat(chunks) == PrintAll(ps)
    ensures FeedAll(IDLE, chunks, env) == Open(HType, [], ArrivedAll(ps, env, 0))
  {
    FeedIdle(chunks, env);
    DrainAccepted(ps, [], [], env);
    assert PrintAll(ps) == PrintAll(ps) + [];
    assert [] + ArrivedAll(ps, env, 0) == ArrivedAll(ps, env, 0);
  }

  lemma {:induction false} ArrivedAllSize(ps: seq<Packet>, env: Env, n: nat)
    ensures |ArrivedAll(ps, env, n)| == |ps|
  {
    if ps != [] { ArrivedAllSize(ps[1..], env, n + 1); }
  }

  /** The two ways in which a connection closes in the middle of its bytes.  Once the handler refuses a message, and
      once a byte comes that cannot start one, nothing more is delivered, whatever follows and in whatever cut. */
  lemma ConnectionCloses(ps: seq<Packet>, p: Packet, rest: bytes, chunks: seq<bytes>, env: Env)
    requires forall q | q in ps :: Accepted(q) && Survives(q)
    requires forall l | |l| <= |ps| :: env.handler(l)
    ensures Concat(chunks) == PrintAll(ps) + rest && rest != [] && (rest[0] < 0x10 || rest[0] >= 0xF0) ==>
              FeedAll(IDLE, chunks, env) == Closed(ArrivedAll(ps, env, 0))
    ensures var all := ArrivedAll(ps, env, 0) + [Arrived(p, env.pad(|ps|))];
            Accepted(p) && Survives(p) && !env.handler(all) && Concat(chunks) == PrintAll(ps) + (Print(p) + rest) ==>
              FeedAll(IDLE, chunks, env) == Closed(all)
  {
    hide Parse, Drain, Print, Arrived, Accepted, Survives, ArrivedAll;
    FeedIdle(chunks, env);
    assert [] + ArrivedAll(ps, env, 0) == ArrivedAll(ps, env, 0);
    DrainAccepted(ps, rest, [], env);
    ArrivedAllSize(ps, env, 0);
    if rest != [] && (rest[0] < 0x10 || rest[0] >= 0xF0) {
      RefusedByte(rest, ArrivedAll(ps, env, 0), env);
    }
    if Accepted(p) && Survives(p) {
      DrainAccepted(ps, Print(p) + rest, [], env);
      DrainPrinted(p, rest, ArrivedAll(ps, env, 0), env);
    }
  }

  lemma FeedIdle(chunks: seq<bytes>, env: Env)
    ensures FeedAll(IDLE, chunks, env) == Drain(HType, Concat(chunks), [], env)
  {
    FragmentationInvariance(IDLE, chunks, env);
    assert [] + Concat(chunks) == Concat(chunks);
  }

  lemma RefusedByte(x: bytes, log: seq<Packet>, env: Env)
    requires x != [] && (x[0] < 0x10 || x[0] >= 0xF0)
    ensures Parse(HType, x) == Bad
    ensures Drain(HType, x, log, env) == Closed(log)
  {
  }
}
