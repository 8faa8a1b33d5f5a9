/** Printed messages in the numbers of MQTT 3.1.1, so that a reader made by somebody else can be held against them. */
module Wire {
  import opened Bytes
  import opened Packets
  import opened RoundTrip

  /** The first byte: the type numbers and reserved flags of sections 2.2.1 and 2.2.2.  PUBLISH loses DUP at QoS 0, for
      which the code also takes the reserved QoS 3. */
  lemma FirstByte(p: Packet)
    requires Accepted(p)
    ensures var b := Print(p)[0];
            match p
            case Connect(hf, _, _, _, _, _, _, _) => b == 0x10 + hf
            case Connack(hf, _, _) => b == 0x20 + hf
            case Publish(hf, _, _, _, _) =>
              b == 0x30 + if hf / 2 % 4 == 1 || hf / 2 % 4 == 2 then hf else hf % 8
            case Ack(kind, hf, _) =>
              b == hf + (match kind
                         case Puback => 0x40
                         case Pubrec => 0x50
                         case Pubrel => 0x60
                         case Pubcomp => 0x70
                         case Unsuback => 0xB0)
            case Subscribe(_, _, _) => b == 0x82
            case Suback(_, _) => b == 0x90
            case Unsubscribe(_, _, _) => b == 0xA2
            case Empty(kind, hf) =>
              b == hf + (match kind
                         case Pingreq => 0xC0
                         case Pingresp => 0xD0
                         case Disconnect => 0xE0)
  {
    hide BodyBytes, EncodeLength;
  }

  /** The remaining length: table 2.4, the low seven bits first. */
  lemma {:induction false} LengthDigits(n: nat)
    requires n < 0x1000_0000
    ensures EncodeLength(n) ==
            if n < 0x80 then [n]
            else if n < 0x4000 then [n % 0x80 + 0x80, n / 0x80]
            else if n < 0x20_0000 then [n % 0x80 + 0x80, n / 0x80 % 0x80 + 0x80, n / 0x4000]
            else [n % 0x80 + 0x80, n / 0x80 % 0x80 + 0x80, n / 0x4000 % 0x80 + 0x80, n / 0x20_0000]
    decreases n
  {
    if n >= 0x80 {
      var m := n / 0x80;
      LengthDigits(m);
      assert EncodeLength(n) == [n % 0x80 + 0x80] + EncodeLength(m);
      hide EncodeLength;
      assert m / 0x80 == n / 0x4000 && m / 0x4000 == n / 0x20_0000;
    }
  }

  /** Bits 7, 6, 5 to 3, 2, and 1 to 0 of a flag byte. */
  function Bits(f: byte): (int, int, int, int, int) {
    (f / 0x80, f / 0x40 % 2, f / 0x08 % 8, f / 0x04 % 2, f % 4)
  }

  /** The bits are the only ones that make up the byte. */
  lemma FromBits(f: byte, a: int, b: int, c: int, d: int, e: int)
    requires 0 <= a < 2 && 0 <= b < 2 && 0 <= c < 8 && 0 <= d < 2 && 0 <= e < 4
    requires f == 0x80 * a + 0x40 * b + 0x08 * c + 0x04 * d + e
    ensures f / 0x80 == a && f / 0x40 % 2 == b && f / 0x08 % 8 == c && f / 0x04 % 2 == d && f % 4 == e
  {
    assert f / 0x40 == 2 * a + b;
    assert f / 0x08 == 8 * (2 * a + b) + c;
    assert f / 0x04 == 2 * (8 * (2 * a + b) + c) + d;
  }

  lemma ToBits(f: byte)
    ensures var (a, b, c, d, e) := Bits(f);
            && f == 0x80 * a + 0x40 * b + 0x08 * c + 0x04 * d + e
            && 0 <= a < 2 && 0 <= b < 2 && 0 <= c < 8 && 0 <= d < 2 && 0 <= e < 4
            && (HasUser(f) <==> a == 1) && (HasPass(f) <==> b == 1) && (HasWill(f) <==> d == 1)
  {
    var (a, b, c, d, e) := Bits(f);
    assert f / 0x40 == 2 * a + b;
    assert f / 0x08 == 8 * (f / 0x40) + c;
    assert f / 0x04 == 2 * (f / 0x08) + d;
    assert f == 4 * (f / 0x04) + e;
    var low, mid := 0x04 * d + e, 0x40 * b + 0x08 * c + 0x04 * d + e;
    assert f == 0x08 * (f / 0x08) + low && 0 <= low < 8;
    assert f == 0x80 * a + mid && 0 <= mid < 0x80;
  }

  lemma FlagBits(f: byte)
    ensures Bits(SetUser(f)) == Bits(f).(0 := 1)
    ensures Bits(SetPass(f)) == Bits(f).(1 := 1)
    ensures Bits(SetWill(f)) == Bits(f).(3 := 1)
  {
    ToBits(f);
    var (a, b, c, d, e) := Bits(f);
    hide HasUser, HasPass, HasWill;
    FromBits(SetUser(f), 1, b, c, d, e);
    FromBits(SetPass(f), a, 1, c, d, e);
    FromBits(SetWill(f), a, b, c, 1, e);
  }

  lemma SentFlags(p: Packet)
    requires p.Connect?
    ensures var (a, b, c, d, e) := Bits(p.flags);
            Bits(SentConnect(p).flags)
            == (if p.username != [] then 1 else a, if p.passwd != [] then 1 else b, c,
                if p.willTopic != [] && p.willMsg != [] then 1 else d, e)
  {
    hide Bits, SetUser, SetPass, SetWill;
    var f1 := if p.username != [] then SetUser(p.flags) else p.flags;
    FlagBits(p.flags);
    FlagBits(f1);
    FlagBits(if p.passwd != [] then SetPass(f1) else f1);
  }

  /** The variable header of CONNECT: protocol name and level, the flags, and the keep-alive with its high byte first,
      as section 3.1.2.10 asks; the reader of this library is the one that loses it.  The flags are those set before
      with those of the fields that follow; clean session, the QoS and retain bits of the will, and the reserved bit are
      left alone. */
  lemma ConnectOnWire(p: Packet)
    requires p.Connect? && Sound(p)
    ensures var x := BodyBytes(p);
            && |x| >= 12 && x[..7] == [0, 4, 0x4D, 0x51, 0x54, 0x54, 4]
            && p.keepAlive as int == 0x100 * x[8] as int + x[9] as int
            && x[7] % 4 == p.flags % 4 && x[7] / 8 % 8 == p.flags / 8 % 8
            && (x[7] / 4 % 2 == 1 <==> p.flags / 4 % 2 == 1 || (p.willTopic != [] && p.willMsg != []))
            && (x[7] / 64 % 2 == 1 <==> p.flags / 64 % 2 == 1 || p.passwd != [])
            && (x[7] / 128 == 1 <==> p.flags / 128 == 1 || p.username != [])
  {
    hide SentConnect, ConnectTail, PackString;
    SentFlags(p);
    var x, head := BodyBytes(p), ConnectHead(SentConnect(p).flags, p.keepAlive);
    var more := PackString(p.cid) + ConnectTail(p);
    assert x == head + more;
    assert head == PROTOCOL + ([x[7]] + PackShort(p.keepAlive));
    assert x[..7] == PROTOCOL;
    assert |PackString(p.cid)| >= 2 by { StringStarts(p.cid); }
  }

  lemma StringStarts(s: bytes)
    ensures |PackString(s)| >= 2
  {
  }

  lemma IdOnWire(p: Packet)
    requires p.Publish? && Sound(p) && Qos(p.hflags) > 0
    ensures |BodyBytes(p)| >= |PackString(p.topic)| + 2
    ensures BodyBytes(p)[|PackString(p.topic)|..][..2] == [p.pktId / 0x100, p.pktId % 0x100]
  {
    hide PackString;
    var head, id := PackString(p.topic), PackShort(p.pktId);
    var more := if p.payload == [] then [] else p.payload[..p.payloadLen];
    assert BodyBytes(p) == head + (id + more);
    assert (id + more)[..2] == id;
  }

  /** Seen from the wire: of the messages whose length can be written, exactly those are refused that would carry
      packet id 0 in a PUBLISH with QoS 1 or 2, or an empty list of topics or return codes. */
  lemma AcceptedIff(p: Packet)
    requires Sound(p) && BodyLength(p) < 0x1000_0000
    ensures Accepted(p) <==>
            match p
            case Publish(hf, topic, _, _, _) =>
              (hf / 2 % 4 == 1 || hf / 2 % 4 == 2) ==> BodyBytes(p)[|PackString(topic)|..][..2] != [0, 0]
            case Subscribe(_, _, _) => |BodyBytes(p)| > 2
            case Suback(_, _) => |BodyBytes(p)| > 2
            case Unsubscribe(_, _, _) => |BodyBytes(p)| > 2
            case _ => true
  {
    hide PackString, BodyLength, TopicBytes;
    match p
    case Publish(hf, topic, id, n, payload) =>
      if Qos(hf) > 0 {
        IdOnWire(p);
        hide BodyBytes;
        assert id == 0x100 * (id / 0x100) + id % 0x100;
      }
    case Subscribe(_, topics, qoses) =>
    case Suback(_, qoses) =>
    case Unsubscribe(_, _, topics) =>
      if topics != [] { StringStarts(topics[|topics| - 1]); }
    case _ =>
  }
}
