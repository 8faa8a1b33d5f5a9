/** The parsers as one reference definition.  A received message is a sequence of fields of known
    size; `Take` says what follows once a field is complete, and `Parse` reads fields from a whole
    input at once.  The classes of the other modules, which get their input in pieces, are proved to
    compute `Parse`. */
module Fields {
  import opened Bytes
  import opened Packets

  type ptype = t: int | 1 <= t <= 14 witness 1

  /** The strings of CONNECT in the order in which they arrive (section 3.1.3 of MQTT 3.1.1). */
  datatype Slot = Cid | WillTopic | WillMsg | User | Pass

  /** Where a parser is between two fields, with all that it has read so far. */
  datatype Field =
    // fixed header
    | HType
    | HLen(t: ptype, hf: nibble, lens: bytes)
    | HDone(t: ptype, hf: nibble, len: nat)
    // CONNECT
    | CVar(hf: nibble, pad: byte)
    | CLen(slot: Slot, m: Packet)
    | CVal(slot: Slot, n: nat, m: Packet)
    // CONNACK
    | KVar(hf: nibble)
    // PUBLISH
    | PTopicLen(hf: nibble, len: nat)
    | PTopicVal(hf: nibble, len: nat, n: nat)
    | PPktId(hf: nibble, len: nat, topic: bytes)
    | PPayload(hf: nibble, n: nat, topic: bytes, pktId: ushort)
    // PUBACK, PUBREC, PUBREL, PUBCOMP, UNSUBACK
    | AVar(kind: AckKind, hf: nibble)
    // SUBSCRIBE
    | SVar(len: nat)
    | SLen(len: nat, nread: nat, pktId: ushort, topics: seq<bytes>, qoses: bytes)
    | SVal(len: nat, nread: nat, pktId: ushort, topics: seq<bytes>, qoses: bytes, n: nat)
    | SQos(len: nat, nread: nat, pktId: ushort, topics: seq<bytes>, qoses: bytes, topic: bytes)
    // SUBACK
    | BVar(len: nat)
    | BQos(len: nat, pktId: ushort, qoses: bytes)
    // UNSUBSCRIBE
    | UVar(hf: nibble, len: nat)
    | ULen(hf: nibble, len: nat, nread: nat, pktId: ushort, topics: seq<bytes>)
    | UVal(hf: nibble, len: nat, nread: nat, pktId: ushort, topics: seq<bytes>, n: nat)
    // a complete message
    | Done(p: Packet)

  datatype Next = Reject | Go(f: Field)

  predicate InHeader(f: Field) {
    f.HType? || f.HLen? || f.HDone?
  }

  predicate Stops(f: Field) {
    f.HDone? || f.Done?
  }

  /** Size of the field that is read next.  A field of size 0 is one that the code waits for with
      nothing left to read: any further byte is an error. */
  function Need(f: Field): nat {
    match f
    case HType => 1
    case HLen(_, _, _) => 1
    case CVar(_, _) => 10
    case CVal(_, n, _) => n
    case PTopicVal(_, _, n) => n
    case PPayload(_, n, _, _) => n
    case SVal(_, _, _, _, _, n) => n
    case SQos(_, _, _, _, _, _) => 1
    case BQos(_, _, _) => 1
    case UVal(_, _, _, _, _, n) => n
    case HDone(_, _, _) => 0
    case Done(_) => 0
    case _ => 2
  }

  // ----- CONNECT

  function Put(m: Packet, slot: Slot, s: bytes): (r: Packet)
    requires m.Connect?
    ensures r.Connect?
  {
    match slot
    case Cid => Connect(m.hflags, m.flags, m.keepAlive, s, m.willTopic, m.willMsg, m.username, m.passwd)
    case WillTopic => Connect(m.hflags, m.flags, m.keepAlive, m.cid, s, m.willMsg, m.username, m.passwd)
    case WillMsg => Connect(m.hflags, m.flags, m.keepAlive, m.cid, m.willTopic, s, m.username, m.passwd)
    case User => Connect(m.hflags, m.flags, m.keepAlive, m.cid, m.willTopic, m.willMsg, s, m.passwd)
    case Pass => Connect(m.hflags, m.flags, m.keepAlive, m.cid, m.willTopic, m.willMsg, m.username, s)
  }

  /** The field after the string in `slot`, as the flag byte decides. */
  function After(slot: Slot, m: Packet): Field
    requires m.Connect?
  {
    if slot.Cid? && HasWill(m.flags) then CLen(WillTopic, m)
    else if slot.WillTopic? then CLen(WillMsg, m)
    else if (slot.Cid? || slot.WillMsg?) && HasUser(m.flags) then CLen(User, m)
    else if !slot.Pass? && HasPass(m.flags) then CLen(Pass, m)
    else Done(m)
  }

  // ----- one step

  /** update_topic_qos: anything but 0, 1 and 2 is read as QoS 0. */
  function ClampQos(b: byte): byte {
    if b > 2 then 0 else b
  }

  /** What follows field `f` once its bytes `x` are complete. */
  function Take(f: Field, x: bytes): Next
    requires !Stops(f) && |x| == Need(f) > 0
    requires f.CLen? || f.CVal? ==> f.m.Connect?
  {
    match f
    case HType =>
      var t := x[0] / 0x10;
      if t == 0 || t == 15 then Reject else Go(HLen(t, x[0] % 0x10, []))
    case HLen(t, hf, lens) =>
      if x[0] < 0x80 then Go(HDone(t, hf, DecodeLength(lens + x)))
      else if |lens| >= 3 then Reject
      else Go(HLen(t, hf, lens + x))
    case CVar(hf, pad) =>
      // the keep-alive is taken from the last byte of the buffer and the one behind it
      Go(CLen(Cid, Connect(hf, x[7], UnpackShort([x[9], pad]), [], [], [], [], [])))
    case CLen(slot, m) =>
      var n := UnpackShort(x);
      if n > 0 || slot.WillTopic? then Go(CVal(slot, n, m)) else Go(After(slot, m))
    case CVal(slot, n, m) =>
      Go(After(slot, Put(m, slot, x)))
    case KVar(hf) =>
      Go(Done(Connack(hf, x[0], x[1])))
    case PTopicLen(hf, len) =>
      var n := UnpackShort(x);
      if n == 0 then Reject else Go(PTopicVal(hf, len, n))
    case PTopicVal(hf, len, n) =>
      if Qos(hf) > 0 then Go(PPktId(hf, len, x))
      else Go(PPayload(hf, Wrap32(len - (n + 2)), x, 0))
    case PPktId(hf, len, topic) =>
      var id, head := UnpackShort(x), |topic| + 4;
      if len == 0 || len == head then Go(Done(Publish(hf, topic, id, 0, [])))
      else if len < head then Reject
      else Go(PPayload(hf, len - head, topic, id))
    case PPayload(hf, n, topic, id) =>
      Go(Done(Publish(hf, topic, id, n, x)))
    case AVar(kind, hf) =>
      Go(Done(Ack(kind, hf, UnpackShort(x))))
    case SVar(len) =>
      if 2 >= len then Reject else Go(SLen(len, 2, UnpackShort(x), [], []))
    case SLen(len, nread, id, topics, qoses) =>
      var n := UnpackShort(x);
      if n == 0 || nread + 2 >= len then Reject else Go(SVal(len, nread + 2, id, topics, qoses, n))
    case SVal(len, nread, id, topics, qoses, n) =>
      Go(SQos(len, nread + n, id, topics, qoses, x))
    case SQos(len, nread, id, topics, qoses, topic) =>
      var ts, qs := topics + [topic], qoses + [ClampQos(x[0])];
      if nread + 1 >= len then Go(Done(Subscribe(id, ts, qs))) else Go(SLen(len, nread + 1, id, ts, qs))
    case BVar(len) =>
      if 2 >= len then Go(Done(Suback(UnpackShort(x), []))) else Go(BQos(len, UnpackShort(x), []))
    case BQos(len, id, qoses) =>
      var qs := qoses + [ClampQos(x[0])];
      if 2 + |qs| >= len then Go(Done(Suback(id, qs))) else Go(BQos(len, id, qs))
    case UVar(hf, len) =>
      if 2 >= len then Reject else Go(ULen(hf, len, 2, UnpackShort(x), []))
    case ULen(hf, len, nread, id, topics) =>
      var n := UnpackShort(x);
      if n == 0 || nread + 2 >= len then Reject else Go(UVal(hf, len, nread + 2, id, topics, n))
    case UVal(hf, len, nread, id, topics, n) =>
      // topic_ still holds the previous topic, and all of it is counted again
      var topic := Last(topics) + x;
      var ts, total := topics + [topic], nread + |topic|;
      if total >= len then Go(Done(Unsubscribe(hf, id, ts))) else Go(ULen(hf, len, total, id, ts))
  }

  // ----- many steps

  /** The result of reading an input: an error, a field that is still incomplete, or the end of a
      header or message with the bytes behind it. */
  datatype Outcome = Bad | Pending(f: Field, part: bytes) | Finished(f: Field, rest: bytes)

  /** CONNECT fields carry a CONNECT message. */
  predicate Typed(f: Field) {
    f.CLen? || f.CVal? ==> f.m.Connect?
  }

  lemma TakeTyped(f: Field, x: bytes)
    requires Typed(f) && !Stops(f) && |x| == Need(f) > 0
    requires Take(f, x).Go?
    ensures Typed(Take(f, x).f)
    ensures InHeader(f) <==> InHeader(Take(f, x).f)
  {
  }

  function Parse(f: Field, input: bytes): (o: Outcome)
    requires Typed(f)
    ensures o.Finished? ==> Stops(o.f) && |o.rest| <= |input| && (o.f.HDone? <==> InHeader(f))
    ensures o.Finished? && !Stops(f) ==> |o.rest| < |input|
    ensures o.Pending? ==> !Stops(o.f) && Typed(o.f) && (InHeader(f) <==> InHeader(o.f))
    decreases |input|
  {
    if Stops(f) then Finished(f, input)
    else if Need(f) == 0 then if input == [] then Pending(f, []) else Bad
    else if |input| < Need(f) then Pending(f, input)
    else
      match Take(f, input[..Need(f)])
      case Reject => Bad
      case Go(g) => Parse(g, input[Need(f)..])
  }

  /** The object that create_message makes for a header; `pad` is the byte behind the ten-byte buffer
      of a CONNECT object. */
  function Body(t: ptype, hf: nibble, len: nat, pad: byte): (f: Field)
    ensures Typed(f) && !InHeader(f)
  {
    if t == CONNECT then CVar(hf, pad)
    else if t == CONNACK then KVar(hf)
    else if t == PUBLISH then PTopicLen(hf, len)
    else if t == 4 then AVar(Puback, hf)
    else if t == 5 then AVar(Pubrec, hf)
    else if t == 6 then AVar(Pubrel, 2)
    else if t == 7 then AVar(Pubcomp, hf)
    else if t == SUBSCRIBE then SVar(len)
    else if t == SUBACK then BVar(len)
    else if t == UNSUBSCRIBE then UVar(hf, len)
    else if t == 11 then AVar(Unsuback, hf)
    else if t == 12 then Done(Empty(Pingreq, hf))
    else if t == 13 then Done(Empty(Pingresp, hf))
    else Done(Empty(Disconnect, hf))
  }
}
