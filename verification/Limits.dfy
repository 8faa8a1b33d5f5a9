/** The other half of the round trip: a message that arrives as it was sent meets `Survives`.  And the
    places where the code does not do what the protocol asks. */
module Limits {
  import opened Bytes
  import opened Packets
  import opened Fields
  import opened Framing
  import opened RoundTrip

  // ----- what every parser keeps

  function WillBytes(m: Packet): nat
    requires m.Connect?
  {
    if HasWill(m.flags) then 4 + |m.willTopic| + |m.willMsg| else 0
  }

  function UserBytes(m: Packet): nat
    requires m.Connect?
  {
    if HasUser(m.flags) then 2 + |m.username| else 0
  }

  function PassBytes(m: Packet): nat
    requires m.Connect?
  {
    if HasPass(m.flags) then 2 + |m.passwd| else 0
  }

  /** Body bytes of CONNECT in front of the string in `slot`. */
  function Before(slot: Slot, m: Packet): nat
    requires m.Connect?
  {
    match slot
    case Cid => 10
    case WillTopic => 12 + |m.cid|
    case WillMsg => 14 + |m.cid| + |m.willTopic|
    case User => 12 + |m.cid| + WillBytes(m)
    case Pass => 12 + |m.cid| + WillBytes(m) + UserBytes(m)
  }

  /** Body bytes read when a parser has reached `f`. */
  function Size(f: Field): nat
    requires Typed(f)
  {
    match f
    case CLen(slot, m) => Before(slot, m)
    case CVal(slot, _, m) => Before(slot, m) + 2
    case PTopicVal(_, _, _) => 2
    case PPktId(_, _, topic) => 2 + |topic|
    case PPayload(hf, _, topic, _) => 2 + |topic| + if Qos(hf) > 0 then 2 else 0
    case SLen(_, nread, _, _, _) => nread
    case SVal(_, nread, _, _, _, _) => nread
    case SQos(_, nread, _, _, _, _) => nread
    case BQos(_, _, qoses) => 2 + |qoses|
    case ULen(_, _, _, _, topics) => 2 + 2 * |topics| + |Last(topics)|
    case UVal(_, _, _, _, topics, _) => 4 + 2 * |topics| + |Last(topics)|
    case Done(p) => ReadLength(p)
    case _ => 0
  }

  /** Body bytes that make a parser deliver `p`. */
  function ReadLength(p: Packet): nat {
    match p
    case Connect(_, _, _, cid, _, _, _, _) => 12 + |cid| + WillBytes(p) + UserBytes(p) + PassBytes(p)
    case Connack(_, _, _) => 2
    case Publish(hf, topic, _, _, payload) => 2 + |topic| + |payload| + if Qos(hf) > 0 then 2 else 0
    case Ack(_, _, _) => 2
    case Subscribe(_, topics, _) => 2 + TopicBytes(topics) + |topics|
    case Suback(_, qoses) => 2 + |qoses|
    case Unsubscribe(_, _, topics) => 2 + 2 * |topics| + |Last(topics)|
    case Empty(_, _) => 0
  }

  ghost predicate FitConnect(m: Packet)
    requires m.Connect?
  {
    Fits(m.cid) && Fits(m.willTopic) && Fits(m.willMsg) && Fits(m.username) && Fits(m.passwd)
  }

  /** The flag bytes have led to `slot`, and no string behind it has been read. */
  ghost predicate Reached(slot: Slot, m: Packet)
    requires m.Connect?
  {
    && FitConnect(m)
    && (slot.WillTopic? || slot.WillMsg? ==> HasWill(m.flags))
    && (slot.User? ==> HasUser(m.flags)) && (slot.Pass? ==> HasPass(m.flags))
    && (!slot.Pass? ==> m.passwd == [] && (!slot.User? ==> m.username == [] && (!slot.WillMsg? ==> m.willMsg == [])))
    && (slot.Cid? ==> m.willTopic == [])
  }

  ghost predicate FitTopics(len: nat, nread: nat, topics: seq<bytes>, qoses: bytes) {
    && FitsAll(topics) && ClampedAll(qoses) && |topics| == |qoses|
    && nread == 2 + TopicBytes(topics) + |topics|
  }

  /** What holds of the fields of a message with remaining length `len`. */
  ghost predicate Fit(f: Field, len: nat)
    requires Typed(f)
  {
    match f
    case CLen(slot, m) => Reached(slot, m) && Str(slot, m) == []
    case CVal(slot, n, m) => n <= MAX_STRING && Reached(slot, m) && Str(slot, m) == []
    case PTopicLen(_, l) => l == len
    case PTopicVal(_, l, n) => l == len && 0 < n <= MAX_STRING
    case PPktId(hf, l, topic) => l == len && 0 < |topic| <= MAX_STRING && Qos(hf) > 0
    case PPayload(hf, n, topic, id) =>
      && 0 < |topic| <= MAX_STRING
      && if Qos(hf) > 0 then len == |topic| + 4 + n else id == 0 && n == Wrap32(len - (|topic| + 2))
    case SVar(l) => l == len
    case SLen(l, nread, _, topics, qoses) => l == len && nread < len && FitTopics(len, nread, topics, qoses)
    case SVal(l, nread, _, topics, qoses, n) =>
      l == len && 2 <= nread < len && 0 < n <= MAX_STRING && FitTopics(len, nread - 2, topics, qoses)
    case SQos(l, nread, _, topics, qoses, topic) =>
      && l == len && nread < len + MAX_STRING && 0 < |topic| <= MAX_STRING && 2 + |topic| <= nread
      && FitTopics(len, nread - 2 - |topic|, topics, qoses)
    case BVar(l) => l == len
    case BQos(l, _, qoses) => l == len && 2 + |qoses| < len && ClampedAll(qoses)
    case Done(p) => FitPacket(p, len)
    case _ => true
  }

  ghost predicate FitPacket(p: Packet, len: nat) {
    match p
    case Connect(_, _, _, _, _, _, _, _) => FitConnect(p)
    case Publish(hf, topic, id, n, payload) =>
      && 0 < |topic| <= MAX_STRING && n == |payload|
      && if Qos(hf) > 0 then (len == 0 && n == 0) || len == |topic| + 4 + n
         else id == 0 && n == Wrap32(len - (|topic| + 2)) > 0
    case Subscribe(_, topics, qoses) =>
      FitsAll(topics) && ClampedAll(qoses) && ReadLength(p) < len + MAX_STRING + 1
    case Suback(_, qoses) => ClampedAll(qoses) && ReadLength(p) <= len + 2
    case _ => true
  }

  lemma AfterFits(slot: Slot, m: Packet, len: nat)
    requires m.Connect? && Reached(slot, m)
    ensures Typed(After(slot, m)) && Fit(After(slot, m), len)
    ensures Size(After(slot, m)) == Before(slot, m) + 2 + |Str(slot, m)|
  {
    hide HasUser, HasPass, HasWill;
  }

  lemma TopicBytesAppend(topics: seq<bytes>, t: bytes)
    ensures TopicBytes(topics + [t]) == TopicBytes(topics) + 2 + |t|
  {
    assert (topics + [t])[..|topics|] == topics;
  }

  lemma TakeConnectLength(slot: Slot, m: Packet, x: bytes, len: nat)
    requires m.Connect? && |x| == 2 && Fit(CLen(slot, m), len)
    ensures var next := Take(CLen(slot, m), x);
            next.Go? && Typed(next.f) && Fit(next.f, len) && Size(next.f) == Before(slot, m) + 2
  {
    hide HasUser, HasPass, HasWill, After, FitConnect;
    AfterFits(slot, m, len);
  }

  lemma TakeConnectString(slot: Slot, n: nat, m: Packet, x: bytes, len: nat)
    requires m.Connect? && |x| == n > 0 && Fit(CVal(slot, n, m), len)
    ensures var next := Take(CVal(slot, n, m), x);
            next.Go? && Typed(next.f) && Fit(next.f, len) && Size(next.f) == Before(slot, m) + 2 + n
  {
    hide HasUser, HasPass, HasWill, After;
    AfterFits(slot, Put(m, slot, x), len);
  }

  lemma TakeConnect(f: Field, x: bytes, len: nat)
    requires f.CVar? || f.CLen? || f.CVal?
    requires Typed(f) && |x| == Need(f) > 0 && Fit(f, len)
    ensures Take(f, x).Go? && Typed(Take(f, x).f) && Fit(Take(f, x).f, len)
    ensures Size(Take(f, x).f) == Size(f) + |x|
  {
    hide HasUser, HasPass, HasWill, After;
    match f
    case CVar(_, _) =>
    case CLen(slot, m) => TakeConnectLength(slot, m, x, len);
    case CVal(slot, n, m) => TakeConnectString(slot, n, m, x, len);
  }

  lemma TakePublish(f: Field, x: bytes, len: nat)
    requires f.PTopicLen? || f.PTopicVal? || f.PPktId? || f.PPayload?
    requires |x| == Need(f) > 0 && Fit(f, len)
    ensures Take(f, x).Go? ==> Fit(Take(f, x).f, len) && Size(Take(f, x).f) == Size(f) + |x|
  {
    hide Wrap32;
  }

  lemma TakeSubscribeQos(f: Field, x: bytes, len: nat)
    requires f.SQos? && |x| == Need(f) && Fit(f, len)
    ensures Take(f, x).Go? && Fit(Take(f, x).f, len) && Size(Take(f, x).f) == Size(f) + |x|
  {
    hide TopicBytes, Wrap32;
    TopicBytesAppend(f.topics, f.topic);
    var ts, qs := f.topics + [f.topic], f.qoses + [ClampQos(x[0])];
    assert FitsAll(ts) && ClampedAll(qs) && |ts| == |qs|;
    hide FitsAll, ClampedAll;
  }

  lemma TakeSubscribe(f: Field, x: bytes, len: nat)
    requires f.SVar? || f.SLen? || f.SVal?
    requires |x| == Need(f) > 0 && Fit(f, len)
    ensures Take(f, x).Go? ==> Fit(Take(f, x).f, len) && Size(Take(f, x).f) == Size(f) + |x|
  {
  }

  lemma TakeUnsubscribe(f: Field, x: bytes, len: nat)
    requires f.UVar? || f.ULen? || f.UVal?
    requires |x| == Need(f) > 0
    ensures Take(f, x).Go? ==> Fit(Take(f, x).f, len) && Size(Take(f, x).f) == Size(f) + |x|
  {
  }

  lemma TakeOther(f: Field, x: bytes, len: nat)
    requires f.KVar? || f.AVar? || f.BVar? || f.BQos?
    requires |x| == Need(f) > 0 && Fit(f, len)
    ensures Take(f, x).Go? ==> Fit(Take(f, x).f, len) && Size(Take(f, x).f) == Size(f) + |x|
  {
  }

  /** Every delivered message has strings of at most 65535 bytes and QoS values of at most 2, and its
      parts account for exactly the body bytes consumed. */
  lemma {:induction false} ParseFits(f: Field, input: bytes, len: nat)
    requires Typed(f) && !InHeader(f) && Fit(f, len)
    ensures var o := Parse(f, input);
            o.Finished? ==> Fit(o.f, len) && |input| - |o.rest| == Size(o.f) - Size(f)
    decreases |input|
  {
    hide Take, Need, Fit, Size;
    var n := Need(f);
    if !Stops(f) && 0 < n <= |input| {
      var x := input[..n];
      TakeFits(f, x, len);
      if Take(f, x).Go? {
        TakeTyped(f, x);
        ParseFits(Take(f, x).f, input[n..], len);
      }
    }
  }

  lemma TakeFits(f: Field, x: bytes, len: nat)
    requires Typed(f) && !InHeader(f) && !Stops(f) && |x| == Need(f) > 0 && Fit(f, len)
    ensures Take(f, x).Go? ==>
              Typed(Take(f, x).f) && Fit(Take(f, x).f, len) && Size(Take(f, x).f) == Size(f) + |x|
  {
    hide Take, Need, Fit, Size;
    if Take(f, x).Go? { TakeTyped(f, x); }
    if f.CVar? || f.CLen? || f.CVal? { TakeConnect(f, x, len); }
    else if f.PTopicLen? || f.PTopicVal? || f.PPktId? || f.PPayload? { TakePublish(f, x, len); }
    else if f.SVar? || f.SLen? || f.SVal? { TakeSubscribe(f, x, len); }
    else if f.SQos? { TakeSubscribeQos(f, x, len); }
    else if f.UVar? || f.ULen? || f.UVal? { TakeUnsubscribe(f, x, len); }
    else { TakeOther(f, x, len); }
  }

  /** Every object that create_message makes starts with nothing that does not fit. */
  lemma BodyFits(t: ptype, hf: nibble, len: nat, pad: byte)
    ensures Fit(Body(t, hf, len, pad), len)
  {
  }

  /** The lengths that the headers of the delivered messages announce, in order; `len` is the one of the header before
      `f`. */
  ghost function Announced(f: Field, len: nat, input: bytes, log: seq<Packet>, env: Env): seq<nat>
    requires Typed(f) && !f.HDone?
    decreases |input|, if InHeader(f) then 0 else 1
  {
    match Parse(f, input)
    case Bad => []
    case Pending(_, _) => []
    case Finished(g, rest) =>
      if g.HDone? then Announced(Body(g.t, g.hf, g.len, env.pad(|log|)), g.len, rest, log, env)
      else
        var all := log + [g.p];
        [len] + if env.handler(all) then Announced(HType, 0, rest, all, env) else []
  }

  lemma {:induction false} DrainFits(f: Field, len: nat, input: bytes, log: seq<Packet>, env: Env)
    requires Typed(f) && !f.HDone? && (InHeader(f) || Fit(f, len))
    ensures var out, lens := Drain(f, input, log, env).log, Announced(f, len, input, log, env);
            && |out| == |log| + |lens| && out[..|log|] == log
            && forall i | 0 <= i < |lens| :: FitPacket(out[|log| + i], lens[i])
    decreases |input|, if InHeader(f) then 0 else 1
  {
    hide Parse, Take, Need, Body, Fit, FitPacket;
    if !InHeader(f) { ParseFits(f, input, len); }
    ParseEnds(f, input);
    match Parse(f, input)
    case Bad =>
    case Pending(_, _) =>
    case Finished(g, rest) =>
      if g.HDone? {
        var pad := env.pad(|log|);
        BodyFits(g.t, g.hf, g.len, pad);
        DrainFits(Body(g.t, g.hf, g.len, pad), g.len, rest, log, env);
      } else {
        DoneFits(g.p, len);
        var all := log + [g.p];
        if env.handler(all) {
          DrainFits(HType, 0, rest, all, env);
          var out := Drain(HType, rest, all, env).log;
          assert out[|log|] == out[..|all|][|log|] == g.p;
          assert out[..|log|] == out[..|all|][..|log|] == log;
        }
      }
  }

  lemma ParseEnds(f: Field, input: bytes)
    requires Typed(f) && !f.HDone?
    ensures var o := Parse(f, input);
            && (o.Finished? ==> Stops(o.f) && (o.f.HDone? <==> InHeader(f)) && |o.rest| <= |input|)
            && (o.Finished? && InHeader(f) ==> |o.rest| < |input|)
  {
    hide Take, Need;
  }

  lemma DoneFits(p: Packet, len: nat)
    requires Fit(Done(p), len)
    ensures FitPacket(p, len)
  {
  }

  /** From any bytes in any cut, every message delivered has strings of at most 65535 bytes (topics of UNSUBSCRIBE
      apart, which grow) and QoS values of at most 2.  A PUBLISH fills the length that its own header announces (in
      32-bit arithmetic at QoS 0), unless that is 0; a SUBSCRIBE exceeds it by 65535 bytes at most, a SUBACK by two. */
  lemma DeliveredFit(chunks: seq<bytes>, env: Env)
    ensures var log, lens := FeedAll(IDLE, chunks, env).log, Announced(HType, 0, Concat(chunks), [], env);
            |log| == |lens| && forall i | 0 <= i < |log| :: FitPacket(log[i], lens[i])
  {
    hide Drain, FitPacket, Announced;
    var none: bytes := [];
    assert none + none == none && none + Concat(chunks) == Concat(chunks);
    DrainNothing([], env);
    FragmentationInvariance(IDLE, chunks, env);
    DrainFits(HType, 0, Concat(chunks), [], env);
  }

  // ----- the announced length

  /** pack_add writes the whole string: a multiple of 65536 bytes is cut to nothing. */
  predicate Kept(s: bytes) {
    |s| % 0x1_0000 != 0 || s == []
  }

  /** The bytes of a string that its length counts and pack_add leaves out. */
  function Lost(s: bytes): nat {
    if Kept(s) then 0 else |s|
  }

  lemma PackStringSize(s: bytes)
    ensures |PackString(s)| == 2 + |s| - Lost(s)
    ensures Lost(s) == 0 <==> Kept(s)
  {
  }

  function LostTopics(topics: seq<bytes>): nat {
    if topics == [] then 0 else LostTopics(topics[..|topics| - 1]) + Lost(topics[|topics| - 1])
  }

  /** The bytes that the length of a message counts and that are not written. */
  function Dropped(p: Packet): nat {
    match p
    case Connect(_, _, _, cid, wt, wm, user, pass) =>
      Lost(cid) + Lost(user) + Lost(pass) + if Will(p) then Lost(wt) + Lost(wm) else 0
    case Publish(_, topic, _, n, payload) => Lost(topic) + if payload == [] then n else 0
    case Subscribe(_, topics, _) => LostTopics(topics)
    case Unsubscribe(_, _, topics) => LostTopics(topics)
    case _ => 0
  }

  /** No byte that the length counts is left out. */
  ghost predicate NothingDropped(p: Packet) {
    match p
    case Connect(_, _, _, cid, wt, wm, user, pass) =>
      Kept(cid) && Kept(user) && Kept(pass) && (Will(p) ==> Kept(wt) && Kept(wm))
    case Publish(_, topic, _, n, payload) => Kept(topic) && (payload == [] ==> n == 0)
    case Subscribe(_, topics, _) => forall t | t in topics :: Kept(t)
    case Unsubscribe(_, _, topics) => forall t | t in topics :: Kept(t)
    case _ => true
  }

  lemma {:induction false} TopicsSize(topics: seq<bytes>)
    ensures |PackTopics(topics)| == TopicBytes(topics) - LostTopics(topics)
    ensures LostTopics(topics) == 0 <==> forall t | t in topics :: Kept(t)
  {
    hide PackString, Lost, Kept;
    if topics != [] {
      var k := |topics| - 1;
      TopicsSize(topics[..k]);
      PackStringSize(topics[k]);
      assert topics == topics[..k] + [topics[k]];
    }
  }

  lemma {:induction false} SubscriptionsSize(topics: seq<bytes>, qoses: bytes)
    requires |topics| == |qoses|
    ensures |PackSubscriptions(topics, qoses)| == |PackTopics(topics)| + |topics|
  {
    if topics != [] {
      var k := |topics| - 1;
      SubscriptionsSize(topics[..k], qoses[..k]);
    }
  }

  lemma ConnectSize(p: Packet)
    requires p.Connect?
    ensures |BodyBytes(p)| == BodyLength(p) - Dropped(p)
    ensures Dropped(p) == 0 <==> NothingDropped(p)
  {
    LostNothing();
    hide PackString, Kept, SentConnect, Lost;
    PackStringSize(p.cid);
    PackStringSize(p.willTopic);
    PackStringSize(p.willMsg);
    PackStringSize(p.username);
    PackStringSize(p.passwd);
  }

  lemma LostNothing()
    ensures Lost([]) == 0
  {
  }

  lemma BodySize(p: Packet)
    requires Sound(p)
    ensures |BodyBytes(p)| == BodyLength(p) - Dropped(p)
    ensures Dropped(p) == 0 <==> NothingDropped(p)
  {
    hide PackString, Kept, Lost;
    match p
    case Connect(_, _, _, _, _, _, _, _) => ConnectSize(p);
    case Publish(_, topic, _, _, _) => PackStringSize(topic);
    case Subscribe(_, topics, qoses) => SubscriptionsSize(topics, qoses); TopicsSize(topics);
    case Unsubscribe(_, _, topics) => TopicsSize(topics);
    case _ =>
  }

  /** The remaining length that build_header writes is the number of body bytes that follow exactly when the bytes
      dropped are those that the cut to 32 bits takes from the sum: none, as long as the sum has 32 bits. */
  lemma RemainingLengthExact(p: Packet)
    requires Accepted(p)
    ensures Wrap32(BodyLength(p)) == |BodyBytes(p)| <==> Dropped(p) == BodyLength(p) - Wrap32(BodyLength(p))
    ensures BodyLength(p) < TWO_TO_THE_32 ==> (Wrap32(BodyLength(p)) == |BodyBytes(p)| <==> NothingDropped(p))
  {
    BodySize(p);
    WrapRange(BodyLength(p));
    hide BodyLength, BodyBytes, NothingDropped, Dropped, Wrap32;
  }

  // ----- the round trip, exactly

  /** The receiver of the printed message ends with the message that was sent and with nothing left. */
  predicate RoundTrips(p: Packet, pad: byte)
    requires Accepted(p)
  {
    && Parse(HType, Print(p)) ==
         Finished(HDone(TypeCode(p), HeaderFlags(p), Wrap32(BodyLength(p))), BodyBytes(p))
    && Parse(Receiver(p, pad), BodyBytes(p)) == Finished(Done(Arrived(p, pad)), [])
  }

  lemma ReceiverFits(p: Packet, pad: byte)
    requires Accepted(p)
    ensures Fit(Receiver(p, pad), Wrap32(BodyLength(p))) || p.Empty?
    ensures p.Empty? || Size(Receiver(p, pad)) == 0
  {
    hide BodyLength, Wrap32, SentConnect;
  }

  /** What a delivered message tells about the bytes it was read from. */
  lemma DeliveredFits(p: Packet, pad: byte)
    requires Accepted(p) && !p.Empty? && RoundTrips(p, pad)
    ensures FitPacket(Arrived(p, pad), Wrap32(BodyLength(p)))
    ensures ReadLength(Arrived(p, pad)) == |BodyBytes(p)|
  {
    hide Parse, BodyLength, BodyBytes, Receiver, Arrived, FitPacket, ReadLength;
    ReceiverFits(p, pad);
    ParseFits(Receiver(p, pad), BodyBytes(p), Wrap32(BodyLength(p)));
  }

  lemma ConnectSurvives(p: Packet, pad: byte)
    requires p.Connect? && Accepted(p) && RoundTrips(p, pad)
    ensures Survives(p)
  {
    hide Parse, RoundTrips, HasUser, HasPass, HasWill;
    DeliveredFits(p, pad);
    FlagsOfSent(p);
    ConnectSize(p);
    var q := Arrived(p, pad);
    assert WillBytes(q) + UserBytes(q) + PassBytes(q) + 12 + |p.cid| <= BodyLength(p);
  }

  lemma PublishSurvives(p: Packet, pad: byte)
    requires p.Publish? && Accepted(p) && RoundTrips(p, pad)
    ensures Survives(p)
  {
    hide Parse, RoundTrips;
    DeliveredFits(p, pad);
    assert Qos(Sent(p).hflags) == Qos(p.hflags);
  }

  lemma SubscribeSurvives(p: Packet, pad: byte)
    requires p.Subscribe? || p.Suback?
    requires Accepted(p) && RoundTrips(p, pad)
    ensures Survives(p)
  {
    hide Parse, RoundTrips, FitsAll, ClampedAll;
    DeliveredFits(p, pad);
  }

  lemma AckSurvives(p: Packet, pad: byte)
    requires p.Ack? && Accepted(p) && RoundTrips(p, pad)
    ensures Survives(p)
  {
    hide Parse;
    assert BodyBytes(p) + [] == BodyBytes(p);
    ParseField(Receiver(p, pad), BodyBytes(p), []);
  }

  /** The topics read so far are the first topics of the message delivered. */
  lemma {:induction false} TopicsGrow(f: Field, input: bytes)
    requires f.ULen? || f.UVal?
    ensures var o := Parse(f, input);
            o.Finished? ==> o.f.p.Unsubscribe? && f.topics <= o.f.p.topics
    decreases |input|
  {
    var n := Need(f);
    if 0 < n <= |input| && Take(f, input[..n]).Go? {
      var g := Take(f, input[..n]).f;
      if !g.Done? { TopicsGrow(g, input[n..]); }
    }
  }

  lemma {:induction false} PackTopicsFront(topics: seq<bytes>)
    requires topics != []
    ensures PackTopics(topics) == PackString(topics[0]) + PackTopics(topics[1..])
  {
    hide PackString;
    var k := |topics| - 1;
    if k == 0 {
      assert topics[..0] == [] && topics[1..] == [];
    } else {
      PackTopicsFront(topics[..k]);
      assert topics[1..][..k - 1] == topics[..k][1..];
    }
  }

  /** One topic of UNSUBSCRIBE is read as the previous one with the new bytes behind it. */
  lemma TopicGlued(f: Field, s: bytes, more: bytes) returns (g: Field)
    requires f.ULen? && Parse(f, PackString(s) + more).Finished?
    ensures var k, n := |f.topics|, |s| % 0x1_0000;
            var o := Parse(f, PackString(s) + more);
            && n > 0 && o.f.p.Unsubscribe? && k < |o.f.p.topics|
            && |o.f.p.topics[k]| == |Last(f.topics)| + n
            && (n == |s| && |o.f.p.topics| > k + 1 ==>
                  g.ULen? && g.topics == o.f.p.topics[..k + 1] && Parse(g, more) == o)
  {
    hide Parse;
    var n := |s| % 0x1_0000;
    var body := if n > 0 then s else [];
    assert PackString(s) + more == PackShort(n) + (body + more);
    ParseField(f, PackShort(n), body + more);
    var v := Take(f, PackShort(n)).f;
    assert body + more == s[..n] + (s[n..] + more);
    ParseField(v, s[..n], s[n..] + more);
    g := Take(v, s[..n]).f;
    if g.ULen? {
      TopicsGrow(g, s[n..] + more);
      if n == |s| { assert s[n..] + more == more; }
    }
  }

  lemma UnsubscribeSurvives(p: Packet, pad: byte)
    requires p.Unsubscribe? && Accepted(p) && RoundTrips(p, pad)
    ensures Survives(p)
  {
    hide Parse, PackString;
    var ts, all := p.topics, BodyBytes(p);
    PackTopicsFront(ts);
    var f := Receiver(p, pad);
    assert all == PackShort(p.pktId) + PackTopics(ts);
    ParseField(f, PackShort(p.pktId), PackTopics(ts));
    var f1 := Take(f, PackShort(p.pktId)).f;
    var g := TopicGlued(f1, ts[0], PackTopics(ts[1..]));
    if |ts| > 1 {
      PackTopicsFront(ts[1..]);
      var _ := TopicGlued(g, ts[1], PackTopics(ts[2..]));
      assert false;
    }
  }

  /** The round trip, exactly: a message that `to_string` accepts arrives as it was sent if and only if
      it meets `Survives`. */
  lemma {:induction false} RoundTripIff(p: Packet, pad: byte)
    requires Accepted(p)
    ensures RoundTrips(p, pad) <==> Survives(p)
  {
    hide Parse, Arrived, Receiver, BodyBytes, BodyLength;
    if Survives(p) {
      HeaderRoundTrip(TypeCode(p), HeaderFlags(p), Wrap32(BodyLength(p)), BodyBytes(p));
      BodyRoundTrip(p, pad, []);
      assert BodyBytes(p) + [] == BodyBytes(p);
    }
    if RoundTrips(p, pad) {
      match p
      case Connect(_, _, _, _, _, _, _, _) => ConnectSurvives(p, pad);
      case Publish(_, _, _, _, _) => PublishSurvives(p, pad);
      case Subscribe(_, _, _) => SubscribeSurvives(p, pad);
      case Suback(_, _) => SubscribeSurvives(p, pad);
      case Unsubscribe(_, _, _) => UnsubscribeSurvives(p, pad);
      case Ack(_, _, _) => AckSurvives(p, pad);
      case _ =>
    }
  }

  // ----- departures from the protocol

  /** Section 3.1.2.10 of MQTT 3.1.1: the keep-alive arrives as it was sent exactly when its two bytes
      are equal and the byte behind the buffer happens to equal them. */
  lemma KeepAliveIff(p: Packet, pad: byte)
    requires p.Connect?
    ensures Arrived(p, pad) == Sent(p) <==> p.keepAlive / 0x100 == p.keepAlive % 0x100 == pad
  {
    hide HasUser, HasPass, HasWill;
  }

  /** A CONNECT parser keeps the keep-alive that it has read. */
  lemma {:induction false} ParseKeepsAlive(f: Field, input: bytes)
    requires Typed(f) && (f.CLen? || f.CVal?)
    ensures var o := Parse(f, input);
            o.Finished? ==> o.f.Done? && o.f.p.Connect? && o.f.p.keepAlive == f.m.keepAlive
    decreases |input|
  {
    hide HasUser, HasPass, HasWill;
    var n := Need(f);
    if 0 < n <= |input| {
      var g := Take(f, input[..n]).f;
      if !g.Done? { ParseKeepsAlive(g, input[n..]); }
    }
  }

  lemma DeliveredKeepAlive(p: Packet, pad: byte)
    requires p.Connect? && Accepted(p)
    ensures var o := Parse(Receiver(p, pad), BodyBytes(p));
            o.Finished? ==> o.f.Done? && o.f.p.Connect? && o.f.p.keepAlive == Arrived(p, pad).keepAlive
  {
    hide Parse, HasUser, HasPass, HasWill, PackString;
    var q := SentConnect(p);
    var more := PackString(p.cid) + ConnectTail(p);
    var head := ConnectHead(q.flags, p.keepAlive);
    HeadBytes(q.flags, p.keepAlive);
    assert BodyBytes(p) == head + more;
    ParseField(CVar(p.hflags, pad), head, more);
    ParseKeepsAlive(CLen(Cid, Connect(p.hflags, q.flags, UnpackShort([p.keepAlive % 0x100, pad]), [], [], [], [], [])),
                    more);
  }

  /** The keep-alive of a CONNECT happens to arrive. */
  predicate KeepAliveArrives(p: Packet, pad: byte) {
    p.Connect? ==> p.keepAlive / 0x100 == p.keepAlive % 0x100 == pad
  }

  /** The whole law: the receiver ends with the very message that was sent, and with nothing left, if and
      only if the message survives and its keep-alive, if it has one, happens to arrive. */
  lemma ArrivesAsSentIff(p: Packet, pad: byte)
    requires Accepted(p)
    ensures Parse(Receiver(p, pad), BodyBytes(p)) == Finished(Done(Sent(p)), [])
            <==> Survives(p) && KeepAliveArrives(p, pad)
  {
    hide Parse, BodyBytes, BodyLength, Receiver, Survives, Accepted, Print;
    RoundTripIff(p, pad);
    HeaderArrives(p);
    if p.Connect? {
      KeepAliveIff(p, pad);
      DeliveredKeepAlive(p, pad);
      ArrivedKeepAlive(p, pad);
    }
  }

  lemma HeaderArrives(p: Packet)
    requires Accepted(p)
    ensures Parse(HType, Print(p))
         == Finished(HDone(TypeCode(p), HeaderFlags(p), Wrap32(BodyLength(p))), BodyBytes(p))
  {
    hide Parse;
    HeaderRoundTrip(TypeCode(p), HeaderFlags(p), Wrap32(BodyLength(p)), BodyBytes(p));
  }

  lemma ArrivedKeepAlive(p: Packet, pad: byte)
    requires p.Connect?
    ensures Sent(p).Connect? && Arrived(p, pad).Connect?
    ensures Arrived(p, pad) == Sent(p) <==> Arrived(p, pad).keepAlive == Sent(p).keepAlive
  {
  }

  function SentAll(ps: seq<Packet>): seq<Packet> {
    if ps == [] then [] else [Sent(ps[0])] + SentAll(ps[1..])
  }

  lemma ArrivedIff(p: Packet, pad: byte)
    ensures Arrived(p, pad) == Sent(p) <==> KeepAliveArrives(p, pad)
  {
    if p.Connect? { KeepAliveIff(p, pad); }
  }

  /** Every keep-alive among the messages happens to arrive; the first message is the n-th object of the receiver. */
  predicate KeepAlivesArrive(ps: seq<Packet>, env: Env, n: nat) {
    ps == [] || (KeepAliveArrives(ps[0], env.pad(n)) && KeepAlivesArrive(ps[1..], env, n + 1))
  }

  lemma {:induction false} ArrivedAllIff(ps: seq<Packet>, env: Env, n: nat)
    ensures ArrivedAll(ps, env, n) == SentAll(ps) <==> KeepAlivesArrive(ps, env, n)
  {
    hide Arrived, Sent, KeepAliveArrives;
    if ps != [] {
      var a, s := ArrivedAll(ps[1..], env, n + 1), SentAll(ps[1..]);
      ArrivedIff(ps[0], env.pad(n));
      ArrivedAllIff(ps[1..], env, n + 1);
      assert ArrivedAll(ps, env, n)[0] == Arrived(ps[0], env.pad(n)) && ArrivedAll(ps, env, n)[1..] == a;
      assert SentAll(ps)[0] == Sent(ps[0]) && SentAll(ps)[1..] == s;
    }
  }

  /** The whole law of the pipeline: in any cut, the messages delivered are the messages sent, in order and with
      nothing pending, if and only if every keep-alive among them happens to arrive. */
  lemma PipelinedAsSentIff(ps: seq<Packet>, chunks: seq<bytes>, env: Env)
    requires forall p | p in ps :: Accepted(p) && Survives(p)
    requires forall l :: env.handler(l)
    requires Concat(chunks) == PrintAll(ps)
    ensures FeedAll(IDLE, chunks, env) == Open(HType, [], SentAll(ps)) <==> KeepAlivesArrive(ps, env, 0)
  {
    hide Accepted, Survives, PrintAll, KeepAlivesArrive;
    PipelinedRoundTrip(ps, chunks, env);
    ArrivedAllIff(ps, env, 0);
  }

  /** The default keep-alive of 300 seconds never arrives. */
  lemma DefaultKeepAliveLost(p: Packet, pad: byte)
    requires p.Connect? && p.keepAlive == 300
    ensures Arrived(p, pad) != Sent(p)
  {
    KeepAliveIff(p, pad);
  }

  /** A QoS 0 PUBLISH without payload never ends: its reader waits for a byte that belongs to the next
      message, and closes the connection when that byte comes. */
  lemma EmptyPublishStuck(p: Packet, pad: byte, next: bytes)
    requires p.Publish? && Accepted(p) && Qos(p.hflags) == 0 && p.payloadLen == 0
    requires 0 < |p.topic| <= MAX_STRING
    ensures Parse(Receiver(p, pad), BodyBytes(p) + next) ==
            if next == [] then Pending(PPayload(Sent(p).hflags, 0, p.topic, 0), []) else Bad
  {
    hide PackString;
    assert BodyBytes(p) + next == PackString(p.topic) + next;
    ParseTopic(Sent(p).hflags, 2 + |p.topic|, p.topic, next);
  }

  /** One topic of UNSUBSCRIBE: topic_ is not cleared, so the topic before stands in front of it and is
      counted once more. */
  lemma ParseGluedTopic(hf: nibble, len: nat, nread: nat, id: ushort, ts: seq<bytes>, s: bytes, rest: bytes)
    requires 0 < |s| <= MAX_STRING
    ensures Parse(ULen(hf, len, nread, id, ts), PackString(s) + rest) ==
            var glued := Last(ts) + s;
            var total := nread + 2 + |glued|;
            if nread + 2 >= len then Bad
            else if total >= len then Finished(Done(Unsubscribe(hf, id, ts + [glued])), rest)
            else Parse(ULen(hf, len, total, id, ts + [glued]), rest)
  {
    hide Parse;
    PackStringFits(s);
    assert PackString(s) + rest == PackShort(|s|) + (s + rest);
    ParseField(ULen(hf, len, nread, id, ts), PackShort(|s|), s + rest);
    if nread + 2 < len {
      ParseField(UVal(hf, len, nread + 2, id, ts, |s|), s, rest);
    }
  }

  lemma ParseUnsubscribeId(len: nat, id: ushort, rest: bytes)
    requires len > 2
    ensures Parse(UVar(2, len), PackShort(id) + rest) == Parse(ULen(2, len, 2, id, []), rest)
  {
    hide Parse;
    ParseField(UVar(2, len), PackShort(id), rest);
  }

  /** Two topics a and b of UNSUBSCRIBE arrive as a and ab. */
  lemma UnsubscribeTwoTopics(id: ushort, a: bytes, b: bytes, rest: bytes)
    requires 0 < |a| <= MAX_STRING && 0 < |b| <= MAX_STRING
    ensures Parse(UVar(2, 6 + |a| + |b|), PackShort(id) + (PackString(a) + (PackString(b) + rest)))
         == Finished(Done(Unsubscribe(2, id, [a, a + b])), rest)
  {
    hide Parse, PackString, PackShort, Take, Need;
    var len := 6 + |a| + |b|;
    ParseUnsubscribeId(len, id, PackString(a) + (PackString(b) + rest));
    ParseGluedTopic(2, len, 2, id, [], a, PackString(b) + rest);
    assert [] + a == a && [] + [a] == [a];
    ParseGluedTopic(2, len, 4 + |a|, id, [a], b, rest);
    assert [a] + [a + b] == [a, a + b];
  }

  /** With three topics even the end of the message depends on their sizes: all three are read, or the
      connection is closed, or the third topic is taken for the next message. */
  lemma UnsubscribeThreeTopics(id: ushort, a: bytes, b: bytes, c: bytes, rest: bytes)
    requires 0 < |a| <= MAX_STRING && 0 < |b| <= MAX_STRING && 0 < |c| <= MAX_STRING
    ensures Parse(UVar(2, 8 + |a| + |b| + |c|),
                  PackShort(id) + (PackString(a) + (PackString(b) + (PackString(c) + rest))))
         == if |a| < |c| then Finished(Done(Unsubscribe(2, id, [a, a + b, a + b + c])), rest)
            else if |a| < |c| + 2 then Bad
            else Finished(Done(Unsubscribe(2, id, [a, a + b])), PackString(c) + rest)
  {
    hide Parse, PackString, PackShort, Take, Need;
    var len := 8 + |a| + |b| + |c|;
    var r1 := PackString(b) + (PackString(c) + rest);
    ParseUnsubscribeId(len, id, PackString(a) + r1);
    ParseGluedTopic(2, len, 2, id, [], a, r1);
    assert [] + a == a && [] + [a] == [a];
    ParseGluedTopic(2, len, 4 + |a|, id, [a], b, PackString(c) + rest);
    assert [a] + [a + b] == [a, a + b];
    if |a| < |c| + 2 {
      ParseGluedTopic(2, len, 6 + 2 * |a| + |b|, id, [a, a + b], c, rest);
      assert [a, a + b] + [a + b + c] == [a, a + b, a + b + c];
    }
  }
}
