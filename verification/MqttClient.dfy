/** mqtt_client: header, factory, body parser and message handler, and the loop that drains a read. */
module MqttClient {
  import opened Bytes
  import opened Packets
  import opened Fields
  import opened Framing
  import opened Updates
  import opened MqttHeader
  import opened MqttMessage

  /** A header that is read to its end, or not. */
  lemma DrainHeader(f: Field, data: bytes, left: int, g: Field, log: seq<Packet>, env: Env)
    requires Typed(f) && InHeader(f) && !f.HDone? && data != []
    requires if left < 0 then Refused(f, [], data, left) else Reads(Parse(f, [] + data), data, left, g, [])
    ensures left < 0 ==> Drain(f, data, log, env) == Closed(log)
    ensures left >= 0 && !g.HDone? ==> left == 0 && Drain(f, data, log, env) == Open(g, [], log)
    ensures left >= 0 && g.HDone? ==>
              left < |data| && Drain(f, data, log, env) ==
                Drain(Body(g.t, g.hf, g.len, env.pad(|log|)), data[|data| - left..], log, env)
  {
    hide Take, Need, Body;
    assert [] + data == data;
    var o := Parse(f, data);
    assert o.Finished? ==> o.f.HDone? && |o.rest| < |data|;
    assert o.Pending? ==> Typed(o.f) && InHeader(o.f) && !o.f.HDone?;
    hide Parse;
  }

  /** A message that is read to its end, or not. */
  lemma DrainBody(f: Field, part: bytes, data: bytes, left: int, g: Field, part': bytes, log: seq<Packet>, env: Env)
    requires Typed(f) && !InHeader(f)
    requires if left < 0 then Refused(f, part, data, left)
             else Reads(Parse(f, part + data), data, left, g, part')
    ensures left < 0 ==> Drain(f, part + data, log, env) == Closed(log)
    ensures left >= 0 && !g.Done? ==> left == 0 && Drain(f, part + data, log, env) == Open(g, part', log)
    ensures left >= 0 && g.Done? ==>
              left <= |data| && Drain(f, part + data, log, env) ==
                var all := log + [g.p];
                if env.handler(all) then Drain(HType, data[|data| - left..], all, env) else Closed(all)
  {
    hide Take, Need, Body;
  }

  class Client {
    const header: Header
    const env: Env
    var message: Message
    var delivered: seq<Packet>
    var closed: bool

    ghost predicate Valid()
      reads this, header, header.hbuf, Frame(message)
    {
      && header.Receiving()
      && {this, header, header.hbuf} !! Frame(message)
      && (if header.finished then Receiving(message) && !Complete(message) else message == NoMessage)
    }

    ghost function State(): (s: Session)
      requires Valid()
      reads this, header, header.hbuf, Frame(message)
      ensures Live(s)
    {
      if closed then Closed(delivered)
      else if header.finished then Open(AsField(message), Part(message), delivered)
      else Open(header.AsField(), [], delivered)
    }

    constructor (e: Env)
      ensures Valid() && State() == IDLE && env == e && fresh(header) && fresh(header.hbuf)
    {
      header := new Header(0);
      env, message, delivered, closed := e, NoMessage, [], false;
    }

    /** Between header and body: the message has just been made, or is still being read. */
    ghost predicate InBody()
      reads this, header, header.hbuf, Frame(message)
    {
      && header.Receiving() && header.finished && !closed
      && {this, header, header.hbuf} !! Frame(message)
      && Receiving(message)
    }

    /** The end of handle_data for a complete message: hands it out and waits for the next header. */
    method Deliver() returns (ok: bool)
      requires InBody() && Complete(message)
      modifies `message, `delivered, header, header.hbuf
      ensures delivered == old(delivered) + [old(Content(message))] && ok == env.handler(delivered)
      ensures Valid() && Frame(message) == {} && State() == Open(HType, [], delivered)
    {
      hide Receiving, Complete, Content, Frame;
      NoFrame();
      delivered := delivered + [Content(message)];
      ok := env.handler(delivered);
      header.Reset();
      message := NoMessage;
    }

    /** What the two ends of ReadBody have in common: `f`, `part` and `log` are the session before. */
    ghost predicate Read(f: Field, part: bytes, log: seq<Packet>, data: bytes, left: int)
      requires Typed(f) && !f.HDone?
      reads this, header, header.hbuf, Frame(message)
    {
      && Valid() && !closed && 0 <= left <= |data|
      && Drain(f, part + data, log, env) == Feed(State(), data[|data| - left..], env)
      && (left == 0 ==> Drain(f, part + data, log, env) == State())
    }

    /** The message is complete, and `left` bytes of `data` are behind it. */
    method EndBody(data: bytes, left: int, ghost f: Field, ghost part: bytes) returns (ok: bool)
      requires InBody() && Complete(message) && 0 <= left <= |data|
      requires Typed(f) && !InHeader(f) && Reads(Parse(f, part + data), data, left, AsField(message), Part(message))
      modifies `message, `delivered, header, header.hbuf
      ensures !closed && Frame(message) == {}
      ensures if ok then Read(f, part, old(delivered), data, left)
              else Drain(f, part + data, old(delivered), env) == Closed(delivered)
    {
      hide Drain, Parse, Reads, Need, Take, Receiving, AsField, Part, Complete, Content, Frame;
      CompleteField(message);
      DrainBody(f, part, data, left, AsField(message), Part(message), delivered, env);
      ok := Deliver();
      assert [] + data[|data| - left..] == data[|data| - left..];
      if left == 0 { DrainNothing(delivered, env); }
    }

    /** The message waits for more bytes. */
    lemma KeepBody(data: bytes, left: int, f: Field, part: bytes)
      requires InBody() && !Complete(message) && 0 <= left <= |data|
      requires Typed(f) && !InHeader(f) && Reads(Parse(f, part + data), data, left, AsField(message), Part(message))
      ensures Read(f, part, delivered, data, left)
    {
      hide Drain, Parse, Reads, Need, Take, Receiving, AsField, Part, Complete, Content, Frame;
      CompleteField(message);
      DrainBody(f, part, data, left, AsField(message), Part(message), delivered, env);
      DrainWaits(AsField(message), Part(message), delivered, env);
      assert data[|data| - left..] == [];
    }

    /** The part of handle_data behind the header: gives the bytes to the message, and passes it to the
        handler when it is complete. */
    method ReadBody(data: bytes) returns (left: int)
      requires InBody()
      modifies this, header, header.hbuf, Frame(message)
      ensures !closed && Frame(message) <= old(Frame(message))
      ensures left < 0 ==>
                Drain(old(AsField(message)), old(Part(message)) + data, old(delivered), env) == Closed(delivered)
      ensures left >= 0 ==> Read(old(AsField(message)), old(Part(message)), old(delivered), data, left)
      ensures data != [] && !old(Complete(message)) ==> left < |data|
    {
      hide Drain, Parse, Refused, Need, Take, Receiving, AsField, Part, Complete, Content, Frame, Read;
      ghost var f, part, log := AsField(message), Part(message), delivered;
      CompleteField(message);
      left := |data|;
      if |data| > 0 {
        left := UpdateMessage(message, data);
        if left < 0 {
          DrainBody(f, part, data, left, f, part, log, env);
          return -1;
        }
        if !Stops(f) { Progress(f, part, data); }
      } else {
        ReadsNothing(f, part);
      }
      if Complete(message) {
        var ok := EndBody(data, left, f, part);
        if !ok {
          return -1;
        }
      } else {
        KeepBody(data, left, f, part);
      }
    }

    /** Reads at most one message; returns the number of bytes behind it, or -1 to close. */
    method HandleData(data: bytes) returns (left: int)
      requires Valid() && !closed && data != []
      modifies this, header, header.hbuf, Frame(message)
      ensures !closed && forall o | o in Frame(message) :: o in old(Frame(message)) || fresh(o)
      ensures left < 0 ==> Feed(old(State()), data, env) == Closed(delivered)
      ensures left >= 0 ==>
                Valid() && left < |data| && Feed(old(State()), data, env) == Feed(State(), data[|data| - left..], env)
      ensures left == 0 ==> Feed(old(State()), data, env) == State()
    {
      hide Drain, Parse, Reads, Refused, Body, Need, Take, Receiving, AsField, Part, Complete, Content, Frame;
      left := |data|;
      ghost var rest := data;
      assert [] + data == data == data[0..];
      if header.finished {
        left := ReadBody(data);
      } else {
        ghost var f := header.AsField();
        left := header.Update(data);
        ghost var g := if left < 0 then f else header.AsField();
        DrainHeader(f, data, left, g, delivered, env);
        if left < 0 {
          return -1;
        }
        if !header.finished {
          DrainWaits(g, [], delivered, env);
          return 0;
        }
        message := CreateMessage(header, env.pad(|delivered|));
        ghost var k := left;
        assert [] + data[|data| - k..] == data[|data| - k..];
        left := ReadBody(data[|data| - left..]);
        if left >= 0 {
          assert data[|data| - k..][k - left..] == data[|data| - left..];
        }
      }
    }

    /** One readable event: `data` is what the socket had.  Nothing or an error closes the connection. */
    method OnRead(data: bytes)
      requires Valid() && !closed
      modifies this, header, header.hbuf, Frame(message)
      ensures forall o | o in Frame(message) :: o in old(Frame(message)) || fresh(o)
      ensures if data == [] then closed && delivered == old(delivered)
              else Shows(Feed(old(State()), data, env))
    {
      hide Drain, Parse, Body, Need, Take, Feed, Receiving, AsField, Part, Complete, Content, Frame;
      if data == [] {
        closed := true;
        return;
      }
      ghost var s := State();
      var left := |data|;
      assert data[0..] == data;
      while true
        invariant 0 < left <= |data| && Valid() && !closed
        invariant forall o | o in Frame(message) :: o in old(Frame(message)) || fresh(o)
        invariant Feed(s, data, env) == Feed(State(), data[|data| - left..], env)
        decreases left
      {
        var rest := data[|data| - left..];
        var ret := HandleData(rest);
        if ret < 0 {
          closed := true;
          break;
        } else if ret > 0 {
          assert rest[|rest| - ret..] == data[|data| - ret..];
          left := ret;
        } else {
          break;
        }
      }
    }

    /** The callback of read_await: the read timer has expired, or there is something to read.  `stays` says that
        there is a timeout handler and that it accepts. */
    method ReadCallback(expired: bool, stays: bool, data: bytes)
      requires Valid() && !closed
      modifies this, header, header.hbuf, Frame(message)
      ensures forall o | o in Frame(message) :: o in old(Frame(message)) || fresh(o)
      ensures expired ==> delivered == old(delivered) && closed == !stays
      ensures expired && stays ==> Valid() && State() == old(State())
      ensures !expired && data == [] ==> closed && delivered == old(delivered)
      ensures !expired && data != [] ==> Shows(Feed(old(State()), data, env))
    {
      hide Receiving, AsField, Part, Complete, Content, Frame, Feed;
      if expired {
        if !stays {
          closed := true;
        }
        return;
      }
      OnRead(data);
    }

    /** A run of readable events with data. */
    method ReadAll(chunks: seq<bytes>)
      requires Valid() && !closed && [] !in chunks
      modifies this, header, header.hbuf, Frame(message)
      ensures Shows(FeedAll(old(State()), chunks, env))
    {
      hide Drain, Parse, Body, Need, Take, Feed, Receiving, AsField, Part, Complete, Content, Frame;
      ghost var s := State();
      var i := 0;
      assert chunks[0..] == chunks;
      while i < |chunks| && !closed
        invariant i <= |chunks| && (closed || Valid())
        invariant FeedAll(s, chunks, env) == FeedAll(if closed then Closed(delivered) else State(), chunks[i..], env)
        invariant forall o | o in Frame(message) :: o in old(Frame(message)) || fresh(o)
      {
        assert chunks[i..][1..] == chunks[i + 1..];
        OnRead(chunks[i]);
        i := i + 1;
      }
      if closed { ClosedStays(delivered, chunks[i..], env); }
    }

    /** The object is in the state `s`; once closed, only the delivered messages matter. */
    ghost predicate Shows(s: Session)
      reads this, header, header.hbuf, Frame(message)
    {
      if closed then s == Closed(delivered) else Valid() && s == State()
    }
  }

  lemma {:induction false} ClosedStays(log: seq<Packet>, chunks: seq<bytes>, env: Env)
    ensures FeedAll(Closed(log), chunks, env) == Closed(log)
    decreases |chunks|
  {
    if chunks != [] { ClosedStays(log, chunks[1..], env); }
  }

  lemma NoFrame()
    ensures Frame(NoMessage) == {}
  {
  }

  lemma DrainWaits(f: Field, part: bytes, log: seq<Packet>, env: Env)
    requires Typed(f) && !f.HDone? && Waits(f, part)
    ensures Drain(f, part, log, env) == Open(f, part, log)
    ensures Feed(Open(f, part, log), [], env) == Open(f, part, log)
  {
    hide Take, Need;
    assert part + [] == part;
  }

  /** A message that waits for bytes takes at least one. */
  lemma Progress(f: Field, part: bytes, data: bytes)
    requires Typed(f) && Waits(f, part) && data != []
    ensures var o := Parse(f, part + data); o.Finished? ==> |o.rest| < |data|
  {
    hide Take, Need;
    if 0 < Need(f) <= |part + data| {
      TakeIfFull(f, part + data);
    }
  }

  lemma TakeIfFull(f: Field, input: bytes)
    requires Typed(f) && !Stops(f) && 0 < Need(f) <= |input|
    ensures var o := Parse(f, input); o.Finished? ==> |o.rest| <= |input| - Need(f)
  {
    hide Take, Need;
  }

  lemma ReadsNothing(f: Field, part: bytes)
    requires Typed(f) && (if Stops(f) then part == [] else Waits(f, part))
    ensures Reads(Parse(f, part + []), [], 0, f, part)
  {
    hide Take, Need;
    assert part + [] == part;
  }
}
