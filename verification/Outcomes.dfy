/** What a parser makes of bytes that no printer wrote: where in them a message ends, and which of them it refuses. */
module Outcomes {
  import opened Bytes
  import opened Packets
  import opened Fields
  import opened Framing
  import opened RoundTrip
  import opened Limits

  /** Two bytes of an input as a length, the high one first. */
  function Short(x: bytes, i: nat): (n: nat)
    requires i + 2 <= |x|
  {
    (x[i] as int) * 0x100 + x[i + 1] as int
  }

  // ----- fixed header

  lemma {:induction false} LengthRefuses(t: ptype, hf: nibble, lens: bytes, x: bytes)
    requires |lens| <= 3
    ensures Parse(HLen(t, hf, lens), x) == Bad
            <==> |lens| + |x| >= 4 && forall i | 0 <= i < 4 - |lens| :: x[i] >= 0x80
    decreases |x|
  {
    if x != [] {
      ParseCut(HLen(t, hf, lens), x);
      if x[0] >= 0x80 && |lens| < 3 {
        LengthRefuses(t, hf, lens + x[..1], x[1..]);
        assert forall i | 1 <= i < 4 - |lens| && i < |x| :: x[i] == x[1..][i - 1];
      }
    }
  }

  /** One field at the front of an input. */
  lemma ParseCut(f: Field, x: bytes)
    requires Typed(f) && !Stops(f) && 0 < Need(f) <= |x|
    ensures Parse(f, x) ==
            match Take(f, x[..Need(f)])
            case Reject => Bad
            case Go(g) => if Stops(g) then Finished(g, x[Need(f)..]) else Parse(g, x[Need(f)..])
  {
    hide Parse, Take, Need;
    var n := Need(f);
    assert x[..n] + x[n..] == x;
    ParseField(f, x[..n], x[n..]);
  }

  /** A field for which there are too few bytes, or that is empty. */
  lemma ParseWaits(f: Field, x: bytes)
    requires Typed(f) && !Stops(f) && (|x| < Need(f) || Need(f) == 0)
    ensures Parse(f, x) == if Need(f) > 0 || x == [] then Pending(f, x) else Bad
  {
  }

  /** A header is refused exactly for types 0 and 15 and for a length of more than four bytes. */
  lemma HeaderRefusedIff(x: bytes)
    ensures Parse(HType, x) == Bad
            <==> x != [] && (x[0] < 0x10 || x[0] >= 0xF0
                             || (|x| >= 5 && forall i | 1 <= i < 5 :: x[i] >= 0x80))
  {
    if x != [] {
      ParseCut(HType, x);
      if 0x10 <= x[0] < 0xF0 {
        hide Parse;
        LengthRefuses(x[0] / 0x10, x[0] % 0x10, [], x[1..]);
        assert |x| >= 5 ==> forall i | 1 <= i < 5 :: x[i] == x[1..][i - 1];
      }
    }
  }

  // ----- CONNECT

  /** Behind an announced will topic that is not empty, and where no will is announced, nothing is refused any more. */
  predicate Assured(f: Field) {
    match f
    case CLen(slot, _) => !slot.Cid? && !slot.WillTopic?
    case CVal(slot, n, _) => !slot.Cid? && n > 0
    case _ => f.Done?
  }

  lemma {:induction false} AssuredEnds(f: Field, x: bytes)
    requires Typed(f) && Assured(f)
    ensures Parse(f, x) != Bad
    decreases |x|
  {
    if !Stops(f) && |x| >= Need(f) {
      ParseCut(f, x);
      var g := Take(f, x[..Need(f)]).f;
      hide Parse;
      AssuredEnds(g, x[Need(f)..]);
    }
  }

  lemma WillTopicEnds(m: Packet, x: bytes)
    requires m.Connect?
    ensures Parse(CLen(WillTopic, m), x) == Bad <==> |x| > 2 && x[0] == x[1] == 0
  {
    hide Parse;
    if |x| < 2 {
      ParseWaits(CLen(WillTopic, m), x);
    } else {
      var n := Short(x, 0);
      ParseCut(CLen(WillTopic, m), x);
      if n == 0 {
        ParseWaits(CVal(WillTopic, 0, m), x[2..]);
      } else {
        AssuredEnds(CVal(WillTopic, n, m), x[2..]);
      }
    }
  }

  /** The strings behind the client identifier. */
  lemma TailRefusedIff(m: Packet, x: bytes)
    requires m.Connect?
    ensures Parse(After(Cid, m), x) == Bad <==> HasWill(m.flags) && |x| > 2 && x[0] == x[1] == 0
  {
    hide Parse, HasUser, HasPass, HasWill;
    if HasWill(m.flags) {
      WillTopicEnds(m, x);
    } else {
      AssuredEnds(After(Cid, m), x);
    }
  }

  lemma CidEnds(m: Packet, x: bytes)
    requires m.Connect?
    ensures Parse(CLen(Cid, m), x) == Bad
            <==> |x| >= 2 && var k := 2 + Short(x, 0);
                 HasWill(m.flags) && |x| > k + 2 && x[k] == x[k + 1] == 0
  {
    hide Parse, HasUser, HasPass, HasWill;
    if |x| < 2 {
      ParseWaits(CLen(Cid, m), x);
    } else {
      ParseCut(CLen(Cid, m), x);
      var n, z := Short(x, 0), x[2..];
      if n == 0 {
        TailRefusedIff(m, z);
      } else if |z| < n {
        ParseWaits(CVal(Cid, n, m), z);
      } else {
        ParseCut(CVal(Cid, n, m), z);
        hide After;
        TailRefusedIff(Put(m, Cid, z[..n]), z[n..]);
      }
    }
  }

  /** A CONNECT is refused exactly at the byte behind an empty will topic, whatever else it holds. */
  lemma ConnectRefusedIff(hf: nibble, pad: byte, x: bytes)
    ensures Parse(CVar(hf, pad), x) == Bad
            <==> |x| >= 12 && var k := 12 + Short(x, 10);
                 HasWill(x[7]) && |x| > k + 2 && x[k] == x[k + 1] == 0
  {
    hide Parse, HasUser, HasPass, HasWill;
    if |x| < 10 {
      ParseWaits(CVar(hf, pad), x);
    } else {
      ParseCut(CVar(hf, pad), x);
      CidEnds(Connect(hf, x[7], UnpackShort([x[9], pad]), [], [], [], [], []), x[10..]);
    }
  }

  // ----- PUBLISH

  /** QoS 1 and 2; the reserved value 3 counts as 0. */
  predicate WithId(hf: nibble) {
    hf / 2 % 4 == 1 || hf / 2 % 4 == 2
  }

  /** The payload of `n` bytes. */
  lemma PayloadOutcome(hf: nibble, n: nat, topic: bytes, id: ushort, x: bytes)
    ensures var o := Parse(PPayload(hf, n, topic, id), x);
            if n == 0 then o == (if x == [] then Pending(PPayload(hf, 0, topic, id), []) else Bad)
            else if |x| < n then o.Pending?
            else o == Finished(Done(Publish(hf, topic, id, n, x[..n])), x[n..])
  {
    hide Parse;
    if n > 0 && |x| >= n {
      ParseCut(PPayload(hf, n, topic, id), x);
    } else {
      ParseWaits(PPayload(hf, n, topic, id), x);
    }
  }

  lemma ShortIs(x: bytes)
    requires |x| >= 2
    ensures UnpackShort(x[..2]) == Short(x, 0)
  {
  }

  lemma TakeId(hf: nibble, len: nat, topic: bytes, y: bytes)
    requires |y| == 2
    ensures Need(PPktId(hf, len, topic)) == 2
    ensures var head, id := |topic| + 4, UnpackShort(y);
            Take(PPktId(hf, len, topic), y) ==
              if len == 0 || len == head then Go(Done(Publish(hf, topic, id, 0, [])))
              else if len < head then Reject
              else Go(PPayload(hf, len - head, topic, id))
  {
  }

  lemma IdField(hf: nibble, len: nat, topic: bytes, x: bytes)
    requires |x| >= 2
    ensures var head, id := |topic| + 4, Short(x, 0);
            Parse(PPktId(hf, len, topic), x) ==
              if len == 0 || len == head then Finished(Done(Publish(hf, topic, id, 0, [])), x[2..])
              else if len < head then Bad
              else Parse(PPayload(hf, len - head, topic, id), x[2..])
  {
    hide Parse, Take, Need, UnpackShort, Short;
    TakeId(hf, len, topic, x[..2]);
    ShortIs(x);
    ParseCut(PPktId(hf, len, topic), x);
  }

  /** Packet id and payload. */
  lemma IdOutcome(hf: nibble, len: nat, topic: bytes, x: bytes)
    ensures var head := |topic| + 4;
            var o := Parse(PPktId(hf, len, topic), x);
            if |x| < 2 then o.Pending?
            else if len == 0 || len == head then o == Finished(Done(Publish(hf, topic, Short(x, 0), 0, [])), x[2..])
            else if len < head then o == Bad
            else if |x| < 2 + len - head then o.Pending?
            else o == Finished(Done(Publish(hf, topic, Short(x, 0), len - head, x[2..][..len - head])),
                               x[2..][len - head..])
  {
    hide Parse, Take;
    var head := |topic| + 4;
    if |x| < 2 {
      ParseWaits(PPktId(hf, len, topic), x);
    } else {
      IdField(hf, len, topic, x);
      if len > head {
        hide Need;
        PayloadOutcome(hf, len - head, topic, Short(x, 0), x[2..]);
      }
    }
  }

  lemma TakeTopicLen(hf: nibble, len: nat, y: bytes)
    requires |y| == 2
    ensures Need(PTopicLen(hf, len)) == 2
    ensures Take(PTopicLen(hf, len), y) ==
            if UnpackShort(y) == 0 then Reject else Go(PTopicVal(hf, len, UnpackShort(y)))
  {
  }

  lemma TakeTopicVal(hf: nibble, len: nat, y: bytes)
    requires y != []
    ensures Need(PTopicVal(hf, len, |y|)) == |y|
    ensures Take(PTopicVal(hf, len, |y|), y) ==
            if WithId(hf) then Go(PPktId(hf, len, y))
            else Go(PPayload(hf, (len - (|y| + 2)) % 0x1_0000_0000, y, 0))
  {
  }

  lemma TopicVal(hf: nibble, len: nat, n: nat, x: bytes)
    requires n > 0
    ensures var o := Parse(PTopicVal(hf, len, n), x);
            if |x| < n then o.Pending?
            else o == Parse(if WithId(hf) then PPktId(hf, len, x[..n])
                            else PPayload(hf, (len - (n + 2)) % 0x1_0000_0000, x[..n], 0), x[n..])
  {
    hide Parse, Take, WithId;
    if |x| < n {
      ParseWaits(PTopicVal(hf, len, n), x);
    } else {
      TakeTopicVal(hf, len, x[..n]);
      ParseCut(PTopicVal(hf, len, n), x);
    }
  }

  lemma TopicLen(hf: nibble, len: nat, x: bytes)
    requires |x| >= 2
    ensures Parse(PTopicLen(hf, len), x) ==
            if Short(x, 0) == 0 then Bad else Parse(PTopicVal(hf, len, Short(x, 0)), x[2..])
  {
    hide Parse, Take, Need, UnpackShort, Short;
    ShortIs(x);
    TakeTopicLen(hf, len, x[..2]);
    ParseCut(PTopicLen(hf, len), x);
  }

  /** Any bytes at all behind the header of a PUBLISH, split at the offsets that its topic length and its remaining
      length give.  Above QoS 0, a remaining length of 0 stands for an empty payload, and one that ends in front of the
      payload is refused; at QoS 0 the payload has what is left in 32-bit arithmetic, and an empty one never ends. */
  lemma PublishOutcome(hf: nibble, len: nat, x: bytes)
    ensures var o := Parse(PTopicLen(hf, len), x);
            if |x| < 2 then o.Pending?
            else
              var k, z := Short(x, 0), x[2..];
              if k == 0 then o == Bad
              else if |z| < k then o.Pending?
              else
                var topic, y := z[..k], z[k..];
                if WithId(hf) then
                  if |y| < 2 then o.Pending?
                  else if len == 0 || len == k + 4 then
                    o == Finished(Done(Publish(hf, topic, Short(y, 0), 0, [])), y[2..])
                  else if len < k + 4 then o == Bad
                  else
                    var n := len - (k + 4);
                    if |y| < 2 + n then o.Pending?
                    else o == Finished(Done(Publish(hf, topic, Short(y, 0), n, y[2..][..n])), y[2..][n..])
                else
                  var n := (len - (k + 2)) % 0x1_0000_0000;
                  if n == 0 then if y == [] then o.Pending? else o == Bad
                  else if |y| < n then o.Pending?
                  else o == Finished(Done(Publish(hf, topic, 0, n, y[..n])), y[n..])
  {
    hide Parse, Take, Need, WithId, Short;
    if |x| < 2 {
      TooShort(hf, len, x);
    } else {
      TopicLen(hf, len, x);
      var k, z := Short(x, 0), x[2..];
      if k > 0 {
        TopicVal(hf, len, k, z);
        if k <= |z| {
          IdOutcome(hf, len, z[..k], z[k..]);
          PayloadOutcome(hf, (len - (k + 2)) % 0x1_0000_0000, z[..k], 0, z[k..]);
        }
      }
    }
  }

  lemma TooShort(hf: nibble, len: nat, x: bytes)
    requires |x| < 2
    ensures Parse(PTopicLen(hf, len), x).Pending?
  {
    ParseWaits(PTopicLen(hf, len), x);
  }

  // ----- SUBSCRIBE and SUBACK

  lemma TakeTopics(len: nat, nread: nat, id: ushort, ts: seq<bytes>, qs: bytes, y: bytes)
    requires |y| == 2
    ensures Need(SLen(len, nread, id, ts, qs)) == 2
    ensures Take(SLen(len, nread, id, ts, qs), y) ==
            if len <= nread + 2 || UnpackShort(y) == 0 then Reject
            else Go(SVal(len, nread + 2, id, ts, qs, UnpackShort(y)))
  {
  }

  lemma SubscriptionWaits(len: nat, nread: nat, id: ushort, ts: seq<bytes>, qs: bytes, n: nat, x: bytes)
    requires 0 < n && |x| < n + 1
    ensures Parse(SVal(len, nread, id, ts, qs, n), x).Pending?
  {
    hide Parse;
    var f := SVal(len, nread, id, ts, qs, n);
    if |x| < n {
      ParseWaits(f, x);
    } else {
      ParseCut(f, x);
      ParseWaits(SQos(len, nread + n, id, ts, qs, x[..n]), x[n..]);
    }
  }

  /** The next topic of a SUBSCRIBE. */
  lemma TopicOutcome(len: nat, nread: nat, id: ushort, ts: seq<bytes>, qs: bytes, x: bytes)
    requires |x| >= 2
    ensures var o := Parse(SLen(len, nread, id, ts, qs), x);
            if len <= nread + 2 || Short(x, 0) == 0 then o == Bad
            else |x| < 3 + Short(x, 0) ==> o.Pending?
  {
    hide Parse, Take, Need, UnpackShort, Short;
    ShortIs(x);
    TakeTopics(len, nread, id, ts, qs, x[..2]);
    ParseCut(SLen(len, nread, id, ts, qs), x);
    var n := Short(x, 0);
    if nread + 2 < len && 0 < n && |x| < 3 + n {
      SubscriptionWaits(len, nread + 2, id, ts, qs, n, x[2..]);
    }
  }

  /** A SUBSCRIBE of which the topics `ts` have been read is refused exactly when its announced length has no room for
      another topic, or that topic is empty; it waits when the bytes for it are not there. */
  lemma SubscribeOutcome(len: nat, id: ushort, ts: seq<bytes>, qs: bytes, x: bytes)
    requires |ts| == |qs| && FitsAll(ts) && (ts == [] || Covered(ts) < len)
    requires |x| >= 2
    ensures var o := Parse(SVar(len), PackShort(id) + (PackSubscriptions(ts, qs) + x));
            if len <= Covered(ts) + 2 || Short(x, 0) == 0 then o == Bad
            else |x| < 3 + Short(x, 0) ==> o.Pending?
  {
    hide Parse, PackString;
    if len <= 2 {
      assert PackSubscriptions(ts, qs) + x == x;
      ParseField(SVar(len), PackShort(id), x);
    } else {
      ReadTopics(len, id, ts, qs, x);
      TopicOutcome(len, Covered(ts), id, ts, Granted(qs), x);
    }
  }

  lemma PackFront(x: bytes)
    requires |x| >= 2
    ensures PackShort(Short(x, 0)) == x[..2]
  {
  }

  lemma NoCodes(len: nat, x: bytes)
    requires len <= 2 <= |x|
    ensures Parse(BVar(len), x) == Finished(Done(Suback(Short(x, 0), [])), x[2..])
  {
    hide Parse;
    ParseCut(BVar(len), x);
  }

  lemma AllCodes(len: nat, x: bytes)
    requires 2 < len <= |x|
    ensures Parse(BVar(len), x) == Finished(Done(Suback(Short(x, 0), Granted(x[2..len]))), x[len..])
  {
    hide Parse, Granted, PackShort, Take, Need;
    var id, cs, rest := Short(x, 0), x[2..len], x[len..];
    PackFront(x);
    SplitBehind(x, len);
    ReadCodes(len, id, cs, rest);
  }

  lemma SplitBehind(x: bytes, k: nat)
    requires 2 <= k <= |x|
    ensures x == x[..2] + (x[2..k] + x[k..])
  {
  }

  lemma SomeCodes(len: nat, x: bytes)
    requires 2 <= |x| < len
    ensures Parse(BVar(len), x).Pending?
  {
    hide Parse, Granted, PackShort, Take;
    var id, cs := Short(x, 0), x[2..];
    PackFront(x);
    assert x == x[..2] + (cs + []);
    ReadCodes(len, id, cs, []);
    ParseWaits(BQos(len, id, Granted(cs)), []);
  }

  /** Nothing is refused in a SUBACK; one without room for a code has none. */
  lemma SubackOutcome(len: nat, x: bytes)
    ensures var o := Parse(BVar(len), x);
            if |x| < 2 || |x| < len then o.Pending?
            else if len <= 2 then o == Finished(Done(Suback(Short(x, 0), [])), x[2..])
            else o == Finished(Done(Suback(Short(x, 0), Granted(x[2..len]))), x[len..])
  {
    hide Parse, Granted, Take, Short;
    if |x| < 2 {
      ParseWaits(BVar(len), x);
    } else if len <= 2 {
      NoCodes(len, x);
    } else if len <= |x| {
      AllCodes(len, x);
    } else {
      SomeCodes(len, x);
    }
  }

  // ----- UNSUBSCRIBE

  /** The topics that the code makes of those on the wire: each with all the topics before it in front. */
  function Glued(ts: seq<bytes>): seq<bytes> {
    if ts == [] then []
    else
      var k := |ts| - 1;
      Glued(ts[..k]) + [Last(Glued(ts[..k])) + ts[k]]
  }

  lemma {:induction false} GluedIsConcat(ts: seq<bytes>)
    ensures |Glued(ts)| == |ts|
    ensures forall i | 0 <= i < |ts| :: Glued(ts)[i] == Concat(ts[..i + 1])
  {
    if ts != [] {
      var k := |ts| - 1;
      GluedIsConcat(ts[..k]);
      forall i | 0 <= i < k ensures Glued(ts)[i] == Concat(ts[..i + 1]) { assert ts[..k][..i + 1] == ts[..i + 1]; }
      ConcatSnoc(ts);
      assert ts[..k + 1] == ts;
      assert k > 0 ==> ts[..k][..k - 1 + 1] == ts[..k];
    }
  }

  lemma {:induction false} ConcatSnoc(ts: seq<bytes>)
    requires ts != []
    ensures Concat(ts) == Concat(ts[..|ts| - 1]) + ts[|ts| - 1]
    decreases |ts|
  {
    if |ts| > 1 {
      var k := |ts| - 1;
      ConcatSnoc(ts[1..]);
      assert ts[..k][1..] == ts[1..][..k - 1] && ts[..k][0] == ts[0];
    }
  }

  /** Bytes that the code counts for these topics. */
  function Counted(ts: seq<bytes>): nat {
    2 + TopicBytes(Glued(ts))
  }

  lemma LastTopic(ts: seq<bytes>, rest: bytes)
    requires ts != []
    ensures var k := |ts| - 1;
            && PackTopics(ts) + rest == PackTopics(ts[..k]) + (PackString(ts[k]) + rest)
            && Glued(ts) == Glued(ts[..k]) + [Last(Glued(ts[..k])) + ts[k]]
            && Counted(ts) == Counted(ts[..k]) + 2 + |Last(Glued(ts[..k])) + ts[k]|
  {
    hide PackString;
    var k := |ts| - 1;
    TopicBytesAppend(Glued(ts[..k]), Last(Glued(ts[..k])) + ts[k]);
  }

  /** An UNSUBSCRIBE whose announced length goes beyond what the code has counted has read these topics. */
  lemma {:induction false} ReadGlued(hf: nibble, len: nat, id: ushort, ts: seq<bytes>, rest: bytes)
    requires FitsAll(ts) && Counted(ts) < len
    ensures Parse(UVar(hf, len), PackShort(id) + (PackTopics(ts) + rest))
         == Parse(ULen(hf, len, Counted(ts), id, Glued(ts)), rest)
    decreases |ts|
  {
    hide Parse, PackString;
    if ts == [] {
      assert PackTopics(ts) + rest == rest;
      ParseField(UVar(hf, len), PackShort(id), rest);
    } else {
      hide Counted, Glued;
      var k := |ts| - 1;
      LastTopic(ts, rest);
      ReadGlued(hf, len, id, ts[..k], PackString(ts[k]) + rest);
      ParseGluedTopic(hf, len, Counted(ts[..k]), id, Glued(ts[..k]), ts[k], rest);
    }
  }

  /** Any UNSUBSCRIBE: with each topic the code counts all topics before it once more, and the message ends when this
      count reaches the announced length, or is refused when it leaves no room for another topic. */
  lemma UnsubscribeOutcome(hf: nibble, len: nat, id: ushort, ts: seq<bytes>, rest: bytes)
    requires ts != [] && FitsAll(ts) && Counted(ts[..|ts| - 1]) < len
    ensures var o := Parse(UVar(hf, len), PackShort(id) + (PackTopics(ts) + rest));
            if len <= Counted(ts[..|ts| - 1]) + 2 then o == Bad
            else if len <= Counted(ts) then o == Finished(Done(Unsubscribe(hf, id, Glued(ts))), rest)
            else o == Parse(ULen(hf, len, Counted(ts), id, Glued(ts)), rest)
  {
    hide Parse, PackString, Counted, Glued;
    var k := |ts| - 1;
    LastTopic(ts, rest);
    ReadGlued(hf, len, id, ts[..k], PackString(ts[k]) + rest);
    ParseGluedTopic(hf, len, Counted(ts[..k]), id, Glued(ts[..k]), ts[k], rest);
  }

  /** No room for any topic, and an empty topic. */
  lemma UnsubscribeRefuses(hf: nibble, len: nat, id: ushort, ts: seq<bytes>, x: bytes)
    requires FitsAll(ts) && |x| >= 2
    ensures len <= 2 ==> Parse(UVar(hf, len), PackShort(id) + x) == Bad
    ensures Counted(ts) < len && Short(x, 0) == 0 ==>
              Parse(UVar(hf, len), PackShort(id) + (PackTopics(ts) + x)) == Bad
  {
    hide Parse, PackString, Counted;
    if len <= 2 {
      ParseField(UVar(hf, len), PackShort(id), x);
    }
    if Counted(ts) < len && Short(x, 0) == 0 {
      ReadGlued(hf, len, id, ts, x);
      ParseCut(ULen(hf, len, Counted(ts), id, Glued(ts)), x);
    }
  }
}
