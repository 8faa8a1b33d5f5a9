/** mqtt_message: the factory, and the virtual functions of its fourteen subclasses as one sum type. */
module MqttMessage {
  import opened Bytes
  import opened Packets
  import opened Fields
  import opened Updates
  import opened MqttHeader
  import opened MqttConnect
  import opened MqttConnack
  import opened MqttPublish
  import opened MqttAck
  import opened MqttSubscribe
  import opened MqttSuback
  import opened MqttUnsubscribe

  datatype Message =
    | NoMessage
    | ConnectRef(connect: ConnectMessage)
    | ConnackRef(connack: ConnackMessage)
    | PublishRef(publish: PublishMessage)
    | AckRef(ack: AckMessage)
    | SubscribeRef(subscribe: SubscribeMessage)
    | SubackRef(suback: SubackMessage)
    | UnsubscribeRef(unsubscribe: UnsubscribeMessage)
    | EmptyRef(empty: EmptyMessage)

  /** The objects a message consists of. */
  ghost function Frame(m: Message): set<object> {
    match m
    case NoMessage => {}
    case ConnectRef(c) => {c, c.header, c.buff}
    case ConnackRef(c) => {c, c.header, c.buff}
    case PublishRef(p) => {p, p.header, p.buff}
    case AckRef(a) => {a, a.header, a.hbuf}
    case SubscribeRef(s) => {s, s.header, s.buff}
    case SubackRef(s) => {s, s.header, s.buff}
    case UnsubscribeRef(u) => {u, u.header, u.buff}
    case EmptyRef(e) => {e, e.header}
  }

  ghost predicate Receiving(m: Message)
    reads Frame(m)
  {
    match m
    case NoMessage => false
    case ConnectRef(c) => c.Receiving()
    case ConnackRef(c) => c.Receiving()
    case PublishRef(p) => p.Receiving()
    case AckRef(a) => a.Receiving()
    case SubscribeRef(s) => s.Receiving()
    case SubackRef(s) => s.Receiving()
    case UnsubscribeRef(u) => u.Receiving()
    case EmptyRef(e) => e.Valid()
  }

  ghost function AsField(m: Message): (f: Field)
    requires Receiving(m)
    reads Frame(m)
    ensures Typed(f) && !InHeader(f)
  {
    match m
    case ConnectRef(c) => c.AsField()
    case ConnackRef(c) => c.AsField()
    case PublishRef(p) => p.AsField()
    case AckRef(a) => a.AsField()
    case SubscribeRef(s) => s.AsField()
    case SubackRef(s) => s.AsField()
    case UnsubscribeRef(u) => u.AsField()
    case EmptyRef(e) => Done(e.Content())
  }

  ghost function Part(m: Message): bytes
    requires Receiving(m)
    reads Frame(m)
  {
    match m
    case ConnectRef(c) => c.Part()
    case ConnackRef(c) => c.Part()
    case PublishRef(p) => p.Part()
    case AckRef(a) => a.Part()
    case SubscribeRef(s) => s.Part()
    case SubackRef(s) => s.Part()
    case UnsubscribeRef(u) => u.Part()
    case EmptyRef(_) => []
  }

  function Complete(m: Message): (b: bool)
    reads Frame(m)
    ensures b ==> m != NoMessage
  {
    match m
    case NoMessage => false
    case ConnectRef(c) => c.finished
    case ConnackRef(c) => c.finished
    case PublishRef(p) => p.finished
    case AckRef(a) => a.finished
    case SubscribeRef(s) => s.finished
    case SubackRef(s) => s.finished
    case UnsubscribeRef(u) => u.finished
    case EmptyRef(_) => true
  }

  function Content(m: Message): Packet
    requires m != NoMessage
    reads Frame(m)
  {
    match m
    case ConnectRef(c) => c.Content()
    case ConnackRef(c) => c.Content()
    case PublishRef(p) => p.Content()
    case AckRef(a) => a.Content()
    case SubscribeRef(s) => s.Content()
    case SubackRef(s) => s.Content()
    case UnsubscribeRef(u) => u.Content()
    case EmptyRef(e) => e.Content()
  }

  lemma CompleteField(m: Message)
    requires Receiving(m)
    ensures if Complete(m) then AsField(m) == Done(Content(m)) && Part(m) == [] else Waits(AsField(m), Part(m))
  {
    hide Need;
    match m
    case ConnectRef(c) => c.FieldWaits();
    case ConnackRef(c) => c.FieldWaits();
    case PublishRef(p) => p.FieldWaits();
    case AckRef(a) => a.FieldWaits();
    case SubscribeRef(s) => s.FieldWaits();
    case SubackRef(s) => s.FieldWaits();
    case UnsubscribeRef(u) => u.FieldWaits();
    case EmptyRef(e) =>
  }

  method CreateMessage(header: Header, pad: byte) returns (m: Message)
    requires header.Receiving() && header.finished
    ensures Receiving(m) && fresh(Frame(m))
    ensures AsField(m) == Body(header.kind, header.hflags, header.dlen, pad) && Part(m) == []
  {
    var t: int := header.kind;
    if t == CONNECT {
      var c := new ConnectMessage.Received(header, pad);
      m := ConnectRef(c);
    } else if t == CONNACK {
      var c := new ConnackMessage.Received(header);
      m := ConnackRef(c);
    } else if t == PUBLISH {
      var p := new PublishMessage.Received(header);
      m := PublishRef(p);
    } else if t == SUBSCRIBE {
      var s := new SubscribeMessage.Received(header);
      m := SubscribeRef(s);
    } else if t == SUBACK {
      var s := new SubackMessage.Received(header);
      m := SubackRef(s);
    } else if t == UNSUBSCRIBE {
      var u := new UnsubscribeMessage.Received(header);
      m := UnsubscribeRef(u);
    } else if t == 4 || t == 5 || t == 6 || t == 7 || t == 11 {
      var k := if t == 4 then Puback else if t == 5 then Pubrec else if t == 6 then Pubrel
               else if t == 7 then Pubcomp else Unsuback;
      var a := new AckMessage.Received(k, header);
      m := AckRef(a);
    } else {
      var k := if t == 12 then Pingreq else if t == 13 then Pingresp else Disconnect;
      var e := new EmptyMessage.Received(k, header);
      m := EmptyRef(e);
    }
  }

  /** The virtual call. */
  method UpdateMessage(m: Message, data: bytes) returns (left: int)
    requires Receiving(m) && data != []
    modifies Frame(m)
    ensures left < 0 ==> Refused(old(AsField(m)), old(Part(m)), data, left)
    ensures left >= 0 ==>
              Receiving(m) && Reads(Parse(old(AsField(m)), old(Part(m)) + data), data, left, AsField(m), Part(m))
  {
    hide Parse, Refused, Reads;
    match m
    case ConnectRef(c) => left := c.Update(data);
    case ConnackRef(c) => left := c.Update(data);
    case PublishRef(p) => left := p.Update(data);
    case AckRef(a) => left := a.Update(data);
    case SubscribeRef(s) => left := s.Update(data);
    case SubackRef(s) => left := s.Update(data);
    case UnsubscribeRef(u) => left := u.Update(data);
    case EmptyRef(e) =>
      assert [] + data == data;
      left := e.Update(data);
  }
}
