/** The content of the fourteen MQTT 3.1.1 messages, and what each `to_string` writes for it. */
module Packets {
  import opened Bytes

  datatype AckKind = Puback | Pubrec | Pubrel | Pubcomp | Unsuback

  datatype EmptyKind = Pingreq | Pingresp | Disconnect

  /** What the getters of a message object show.  SUBSCRIBE and SUBACK objects made from a received
      header do not keep its flags, so those two carry none. */
  datatype Packet =
    | Connect(hflags: nibble, flags: byte, keepAlive: ushort, cid: bytes,
              willTopic: bytes, willMsg: bytes, username: bytes, passwd: bytes)
    | Connack(hflags: nibble, flags: byte, code: byte)
    | Publish(hflags: nibble, topic: bytes, pktId: ushort, payloadLen: nat, payload: bytes)
    | Ack(kind: AckKind, hflags: nibble, pktId: ushort)
    | Subscribe(pktId: ushort, topics: seq<bytes>, qoses: bytes)
    | Suback(pktId: ushort, qoses: bytes)
    | Unsubscribe(hflags: nibble, pktId: ushort, topics: seq<bytes>)
    | Empty(empty: EmptyKind, hflags: nibble)

  const CONNECT := 1
  const CONNACK := 2
  const PUBLISH := 3
  const SUBSCRIBE := 8
  const SUBACK := 9
  const UNSUBSCRIBE := 10

  function AckCode(kind: AckKind): int {
    match kind
    case Puback => 4
    case Pubrec => 5
    case Pubrel => 6
    case Pubcomp => 7
    case Unsuback => 11
  }

  function EmptyCode(kind: EmptyKind): int {
    match kind
    case Pingreq => 12
    case Pingresp => 13
    case Disconnect => 14
  }

  /** mqtt_type_t of a message. */
  function TypeCode(p: Packet): (t: int)
    ensures 1 <= t <= 14
  {
    match p
    case Connect(_, _, _, _, _, _, _, _) => CONNECT
    case Connack(_, _, _) => CONNACK
    case Publish(_, _, _, _, _) => PUBLISH
    case Ack(kind, _, _) => AckCode(kind)
    case Subscribe(_, _, _) => SUBSCRIBE
    case Suback(_, _) => SUBACK
    case Unsubscribe(_, _, _) => UNSUBSCRIBE
    case Empty(kind, _) => EmptyCode(kind)
  }

  // ----- flag bits

  predicate HasWill(flags: byte) { flags % 0x08 >= 0x04 }
  predicate HasUser(flags: byte) { flags >= 0x80 }
  predicate HasPass(flags: byte) { flags % 0x80 >= 0x40 }

  function SetWill(flags: byte): byte { if HasWill(flags) then flags else flags + 0x04 }
  function SetUser(flags: byte): byte { if HasUser(flags) then flags else flags + 0x80 }
  function SetPass(flags: byte): byte { if HasPass(flags) then flags else flags + 0x40 }

  /** mqtt_header::get_qos: the reserved value 3 reads as QoS 0. */
  function Qos(hflags: nibble): (q: int)
    ensures 0 <= q <= 2
  {
    if hflags / 2 % 4 == 3 then 0 else hflags / 2 % 4
  }

  predicate IsDup(hflags: nibble) { hflags >= 8 }

  // ----- the remaining-length field

  const MAX_REMAINING := 0x1000_0000

  /** The encoding algorithm of section 2.2.3 of MQTT 3.1.1: seven bits a byte, low bits first,
      the top bit says that another byte follows. */
  function EncodeLength(n: nat): (r: bytes)
    ensures |r| > 0
    ensures n < 0x80 ==> |r| == 1
    ensures n < 0x4000 ==> |r| <= 2
    ensures n < 0x20_0000 ==> |r| <= 3
    ensures n < MAX_REMAINING ==> |r| <= 4
  {
    if n < 0x80 then [n] else [n % 0x80 + 0x80] + EncodeLength(n / 0x80)
  }

  /** The value of a sequence of seven-bit digits, low digits first. */
  function DecodeLength(x: bytes): nat {
    if x == [] then 0 else x[0] % 0x80 + 0x80 * DecodeLength(x[1..])
  }

  /** The fixed header: type and flags in the first byte, then the remaining length. */
  function HeaderBytes(t: int, hflags: nibble, len: nat): bytes
    requires 0 <= t <= 15
  {
    [t * 0x10 + hflags] + EncodeLength(len)
  }

  // ----- to_string

  /** The object after `to_string`: CONNECT sets the flag of every field it is about to write and
      drops a will that lacks its topic or its message, PUBLISH clears DUP at QoS 0, UNSUBSCRIBE
      sets the flags the protocol prescribes. */
  function Sent(p: Packet): Packet {
    match p
    case Connect(_, _, _, _, _, _, _, _) => SentConnect(p)
    case Publish(hflags, topic, pktId, n, payload) =>
      Publish(if Qos(hflags) == 0 && IsDup(hflags) then hflags - 8 else hflags, topic, pktId, n, payload)
    case Unsubscribe(_, pktId, topics) => Unsubscribe(2, pktId, topics)
    case _ => p
  }

  predicate Will(p: Packet)
    requires p.Connect?
  {
    p.willTopic != [] && p.willMsg != []
  }

  function SentConnect(p: Packet): (r: Packet)
    requires p.Connect?
    ensures r.Connect?
  {
    var f1 := if p.username != [] then SetUser(p.flags) else p.flags;
    var f2 := if p.passwd != [] then SetPass(f1) else f1;
    if Will(p) then
      Connect(p.hflags, SetWill(f2), p.keepAlive, p.cid, p.willTopic, p.willMsg, p.username, p.passwd)
    else
      Connect(p.hflags, f2, p.keepAlive, p.cid, [], [], p.username, p.passwd)
  }

  /** Header flags that `to_string` puts into the first byte. */
  function HeaderFlags(p: Packet): nibble {
    match p
    case Subscribe(_, _, _) => 2
    case Suback(_, _) => 0
    case _ => Sent(p).hflags
  }

  function TopicBytes(topics: seq<bytes>): nat {
    if topics == [] then 0
    else TopicBytes(topics[..|topics| - 1]) + 2 + |topics[|topics| - 1]|
  }

  /** The remaining length as `to_string` and the `add_topic` calls before it sum it up, before it
      is cut to 32 bits. */
  function BodyLength(p: Packet): nat {
    match p
    case Connect(_, _, _, cid, wt, wm, user, pass) =>
      12 + |cid| + (if user != [] then 2 + |user| else 0) + (if pass != [] then 2 + |pass| else 0)
      + (if Will(p) then 4 + |wt| + |wm| else 0)
    case Connack(_, _, _) => 2
    case Publish(hflags, topic, _, n, _) => |topic| + 2 + n + if Qos(hflags) > 0 then 2 else 0
    case Ack(_, _, _) => 2
    case Subscribe(_, topics, _) => TopicBytes(topics) + |topics| + 2
    case Suback(_, qoses) => |qoses| + 2
    case Unsubscribe(_, _, topics) => TopicBytes(topics) + 2
    case Empty(_, _) => 0
  }

  /** "MQTT" with its length, protocol level 4 (section 3.1.2 of MQTT 3.1.1). */
  const PROTOCOL: bytes := [0, 4, 0x4D, 0x51, 0x54, 0x54, 4]

  function PackIf(present: bool, s: bytes): bytes {
    if present then PackString(s) else []
  }

  /** The ten bytes of the variable header of CONNECT. */
  function ConnectHead(flags: byte, keepAlive: ushort): bytes {
    PROTOCOL + [flags] + PackShort(keepAlive)
  }

  /** The strings of CONNECT behind the client identifier. */
  function ConnectTail(p: Packet): bytes
    requires p.Connect?
  {
    PackIf(Will(p), p.willTopic) + PackIf(Will(p), p.willMsg)
    + (PackIf(p.username != [], p.username) + PackIf(p.passwd != [], p.passwd))
  }

  function PackTopics(topics: seq<bytes>): bytes {
    if topics == [] then []
    else PackTopics(topics[..|topics| - 1]) + PackString(topics[|topics| - 1])
  }

  function PackSubscriptions(topics: seq<bytes>, qoses: bytes): bytes
    requires |topics| == |qoses|
  {
    if topics == [] then []
    else
      var k := |topics| - 1;
      PackSubscriptions(topics[..k], qoses[..k]) + PackString(topics[k]) + [qoses[k]]
  }

  /** The bytes `to_string` can take: parallel topic and QoS vectors, and a payload that holds at
      least the announced bytes unless it was announced only. */
  predicate Sound(p: Packet) {
    && (p.Subscribe? ==> |p.topics| == |p.qoses|)
    && (p.Publish? ==> p.payloadLen < TWO_TO_THE_32 && (p.payload == [] || p.payloadLen <= |p.payload|))
  }

  /** The bytes after the fixed header. */
  function BodyBytes(p: Packet): bytes
    requires Sound(p)
  {
    match p
    case Connect(_, _, ka, cid, _, _, _, _) =>
      ConnectHead(SentConnect(p).flags, ka) + PackString(cid) + ConnectTail(p)
    case Connack(_, flags, code) => [flags, code]
    case Publish(hflags, topic, pktId, n, payload) =>
      PackString(topic) + (if Qos(hflags) > 0 then PackShort(pktId) else [])
      + if payload == [] then [] else payload[..n]
    case Ack(_, _, pktId) => PackShort(pktId)
    case Subscribe(pktId, topics, qoses) => PackShort(pktId) + PackSubscriptions(topics, qoses)
    case Suback(pktId, qoses) => PackShort(pktId) + qoses
    case Unsubscribe(_, pktId, topics) => PackShort(pktId) + PackTopics(topics)
    case Empty(_, _) => []
  }

  /** When `to_string` succeeds. */
  predicate Accepted(p: Packet) {
    && Sound(p)
    && Wrap32(BodyLength(p)) < MAX_REMAINING
    && (p.Publish? && Qos(p.hflags) > 0 ==> p.pktId > 0)
    && (p.Subscribe? || p.Unsubscribe? ==> p.topics != [])
    && (p.Suback? ==> p.qoses != [])
  }

  /** What `to_string` appends. */
  function Print(p: Packet): bytes
    requires Accepted(p)
  {
    HeaderBytes(TypeCode(p), HeaderFlags(p), Wrap32(BodyLength(p))) + BodyBytes(p)
  }
}
