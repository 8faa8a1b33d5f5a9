/** What a connection delivers for a stream of bytes, and that the way in which the network cuts the
    stream into reads makes no difference. */
module Framing {
  import opened Bytes
  import opened Packets
  import opened Fields

  /** An outcome carried on with more input. */
  function Resume(o: Outcome, more: bytes): Outcome
    requires o.Pending? ==> Typed(o.f)
  {
    match o
    case Bad => Bad
    case Pending(f, part) => Parse(f, part + more)
    case Finished(f, rest) => Finished(f, rest + more)
  }

  /** Reading a ++ b is reading a and then b, wherever the cut falls. */
  lemma {:induction false} ParseAppend(f: Field, a: bytes, b: bytes)
    requires Typed(f)
    ensures Parse(f, a + b) == Resume(Parse(f, a), b)
    decreases |a|
  {
    hide Take, Need;
    var n := Need(f);
    if Stops(f) {
    } else if n == 0 {
      if a == [] { assert a + b == [] + b; }
    } else if |a| >= n {
      assert (a + b)[..n] == a[..n] && (a + b)[n..] == a[n..] + b;
      if Take(f, a[..n]).Go? {
        TakeTyped(f, a[..n]);
        ParseAppend(Take(f, a[..n]).f, a[n..], b);
      }
    }
  }

  /** One field. */
  lemma ParseField(f: Field, x: bytes, rest: bytes)
    requires Typed(f) && !Stops(f) && |x| == Need(f) > 0
    ensures Parse(f, x + rest) ==
            match Take(f, x)
            case Reject => Bad
            case Go(g) => if Stops(g) then Finished(g, rest) else Parse(g, rest)
  {
    hide Take, Need;
    if Take(f, x).Go? { TakeTyped(f, x); }
    assert (x + rest)[..|x|] == x && (x + rest)[|x|..] == rest;
  }

  /** A pending field stays pending on its own part. */
  lemma {:induction false} PendingStays(f: Field, a: bytes)
    requires Typed(f) && Parse(f, a).Pending?
    ensures Parse(Parse(f, a).f, Parse(f, a).part) == Parse(f, a)
    decreases |a|
  {
    hide Take, Need;
    var n := Need(f);
    if n > 0 && |a| >= n {
      TakeTyped(f, a[..n]);
      PendingStays(Take(f, a[..n]).f, a[n..]);
    }
  }

  // ----- the client

  /** What the outside decides: whether the message handler accepts, given all messages delivered up
      to now, and the byte that lies behind the buffer of the n-th message object. */
  datatype Env = Env(handler: seq<Packet> -> bool, pad: nat -> byte)

  /** State of a connection: the field being read and its bytes so far, and the delivered messages. */
  datatype Session = Open(f: Field, part: bytes, log: seq<Packet>) | Closed(log: seq<Packet>)

  const IDLE: Session := Open(HType, [], [])

  /** All messages that an input completes, in order; an error or a refusing handler closes the
      connection and drops the rest. */
  function Drain(f: Field, input: bytes, log: seq<Packet>, env: Env): (s: Session)
    requires Typed(f) && !f.HDone?
    ensures s.Open? ==> Typed(s.f) && !s.f.HDone?
    decreases |input|, if InHeader(f) then 0 else 1
  {
    match Parse(f, input)
    case Bad => Closed(log)
    case Pending(g, part) => Open(g, part, log)
    case Finished(g, rest) =>
      if g.HDone? then Drain(Body(g.t, g.hf, g.len, env.pad(|log|)), rest, log, env)
      else
        var all := log + [g.p];
        if env.handler(all) then Drain(HType, rest, all, env) else Closed(all)
  }

  lemma DrainNothing(log: seq<Packet>, env: Env)
    ensures Drain(HType, [], log, env) == Open(HType, [], log)
  {
  }

  predicate Live(s: Session) {
    s.Open? ==> Typed(s.f) && !s.f.HDone?
  }

  /** One read from the socket. */
  function Feed(s: Session, data: bytes, env: Env): (r: Session)
    requires Live(s)
    ensures Live(r)
  {
    if s.Closed? then s else Drain(s.f, s.part + data, s.log, env)
  }

  function FeedAll(s: Session, chunks: seq<bytes>, env: Env): (r: Session)
    requires Live(s)
    ensures Live(r)
    decreases |chunks|
  {
    if chunks == [] then s else FeedAll(Feed(s, chunks[0], env), chunks[1..], env)
  }

  lemma {:induction false} DrainAppend(f: Field, a: bytes, b: bytes, log: seq<Packet>, env: Env)
    requires Typed(f) && !f.HDone?
    ensures Drain(f, a + b, log, env) == Feed(Drain(f, a, log, env), b, env)
    decreases |a|, if InHeader(f) then 0 else 1
  {
    hide Parse, Take, Need, Body;
    ParseAppend(f, a, b);
    match Parse(f, a)
    case Bad =>
    case Pending(g, part) =>
      PendingStays(f, a);
      ParseAppend(g, part, b);
      assert Parse(f, a + b) == Parse(g, part + b);
    case Finished(g, rest) =>
      if g.HDone? {
        DrainAppend(Body(g.t, g.hf, g.len, env.pad(|log|)), rest, b, log, env);
      } else if env.handler(log + [g.p]) {
        DrainAppend(HType, rest, b, log + [g.p], env);
      }
  }

  /** A session that Drain leaves open stays as it is when nothing arrives. */
  lemma {:induction false} DrainStable(f: Field, a: bytes, log: seq<Packet>, env: Env)
    requires Typed(f) && !f.HDone?
    ensures Feed(Drain(f, a, log, env), [], env) == Drain(f, a, log, env)
  {
    assert a + [] == a;
    DrainAppend(f, a, [], log, env);
  }

  /** Fragmentation invariance: for arbitrary bytes, from any state a connection can be in, what is
      delivered, the verdict and the state left behind depend only on the concatenation of the reads. */
  lemma {:induction false} FragmentationInvariance(s: Session, chunks: seq<bytes>, env: Env)
    requires Live(s) && Feed(s, [], env) == s
    ensures FeedAll(s, chunks, env) == Feed(s, Concat(chunks), env)
    decreases |chunks|
  {
    hide Parse, Drain;
    if chunks != [] && s.Open? {
      var c, cs := chunks[0], chunks[1..];
      var t := Feed(s, c, env);
      DrainStable(s.f, s.part + c, s.log, env);
      FragmentationInvariance(t, cs, env);
      DrainAppend(s.f, s.part + c, Concat(cs), s.log, env);
      assert s.part + c + Concat(cs) == s.part + Concat(chunks);
    } else if chunks != [] {
      FragmentationInvariance(s, chunks[1..], env);
    }
  }
}
