/** The outgoing bytes of an event_proc or client_socket: what the kernel does not take at once is buffered and
    flushed when the descriptor is ready. */
module Outgoing {

  type Bytes = seq<bv8>

  /** What a call of the kernel's write does: it takes some of the bytes, would block, or fails. */
  datatype Outcome = Sent(n: nat) | Again | Failed

  ghost predicate Possible(o: Outcome, data: Bytes) {
    o.Sent? ==> o.n <= |data|
  }

  /** The value write returns. */
  function Ret(o: Outcome): int {
    if o.Sent? then o.n else -1
  }

  datatype Callback = None | OnWrite | OnError

  /** The bytes that wait, and those the kernel has taken, both in order. */
  datatype Stream = Stream(buf: Bytes, sent: Bytes)

  /** A call of write with the byte in front of the data in memory and the outcome of write_await, if it is asked;
      or a descriptor that became ready. */
  datatype Event = Write(data: Bytes, before: bv8, o: Outcome, watch: bool) | Ready(o: Outcome)

  /** A write that goes to the kernel at once, as nothing waits, and would block. */
  ghost predicate Blocks(s: Stream, e: Event) {
    e.Write? && s.buf == [] && e.o.Again?
  }

  ghost predicate Allowed(s: Stream, e: Event) {
    match e
    case Write(data, _, o, _) => s.buf == [] ==> Possible(o, data)
    case Ready(o) => s.buf != [] ==> Possible(o, s.buf)
  }

  /** What is left of the bytes behind the first `ret`; for -1 these begin one byte in front of the data. */
  function From(data: Bytes, before: bv8, ret: int): Bytes
    requires -1 <= ret <= |data|
  {
    if ret == -1 then [before] + data else data[ret..]
  }

  ghost function WriteStep(s: Stream, data: Bytes, before: bv8, o: Outcome): Stream
    requires s.buf == [] ==> Possible(o, data)
  {
    if s.buf != [] then Stream(s.buf + data, s.sent)
    else match o
      case Failed => s
      case Again => Stream([before] + data, s.sent)
      case Sent(n) => Stream(data[n..], s.sent + data[..n])
  }

  ghost function FlushStep(s: Stream, o: Outcome): Stream
    requires s.buf != [] ==> Possible(o, s.buf)
  {
    if s.buf == [] || !o.Sent? then s else Stream(s.buf[o.n..], s.sent + s.buf[..o.n])
  }

  ghost function Step(s: Stream, e: Event): Stream
    requires Allowed(s, e)
  {
    match e
    case Write(data, before, o, _) => WriteStep(s, data, before, o)
    case Ready(o) => FlushStep(s, o)
  }

  ghost predicate AllAllowed(s: Stream, events: seq<Event>)
    decreases |events|
  {
    events != [] ==> Allowed(s, events[0]) && AllAllowed(Step(s, events[0]), events[1..])
  }

  ghost function Run(s: Stream, events: seq<Event>): Stream
    requires AllAllowed(s, events)
    decreases |events|
  {
    if events == [] then s else Run(Step(s, events[0]), events[1..])
  }

  /** What one event brings into the stream. */
  ghost function Taken(s: Stream, e: Event): Bytes {
    if e.Write? && !(s.buf == [] && e.o.Failed?) then e.data else []
  }

  /** The data of all writes that did not fail. */
  ghost function Accepted(s: Stream, events: seq<Event>): Bytes
    requires AllAllowed(s, events)
    decreases |events|
  {
    if events == [] then [] else Taken(s, events[0]) + Accepted(Step(s, events[0]), events[1..])
  }

  /** What write returns. */
  function Returned(buf: Bytes, data: Bytes, o: Outcome, watch: bool): int {
    if buf != [] then 0
    else if o == Sent(|data|) then |data|
    else if o.Failed? || !watch then -1
    else Ret(o)
  }

  /** What flush returns. */
  function Flushed(buf: Bytes, o: Outcome): int {
    if buf == [] || o.Again? then 0 else Ret(o)
  }

  /** The data that a caller must take for accepted: write did not return -1. */
  ghost function Promised(s: Stream, e: Event): Bytes {
    if e.Write? && Returned(s.buf, e.data, e.o, e.watch) != -1 then e.data else []
  }

  ghost function AllPromised(s: Stream, events: seq<Event>): Bytes
    requires AllAllowed(s, events)
    decreases |events|
  {
    if events == [] then [] else Promised(s, events[0]) + AllPromised(Step(s, events[0]), events[1..])
  }

  /** A write that reports a failure although its data goes out: it would block, or the kernel takes a part of the
      data and the descriptor cannot be registered for the rest. */
  ghost predicate Denies(s: Stream, e: Event) {
    e.Write? && s.buf == [] && (e.o.Again? || (e.o.Sent? && e.o.n != |e.data| && !e.watch))
  }

  ghost predicate NoneDenies(s: Stream, events: seq<Event>)
    requires AllAllowed(s, events)
    decreases |events|
  {
    events == [] || (!Denies(s, events[0]) && NoneDenies(Step(s, events[0]), events[1..]))
  }

  ghost function Blocked(s: Stream, events: seq<Event>): nat
    requires AllAllowed(s, events)
    decreases |events|
  {
    if events == [] then 0
    else (if Blocks(s, events[0]) then 1 else 0) + Blocked(Step(s, events[0]), events[1..])
  }

  /** Every write that would block brings one byte too many into the stream. */
  lemma {:induction false} StreamLength(s: Stream, events: seq<Event>)
    requires AllAllowed(s, events)
    ensures |Run(s, events).sent + Run(s, events).buf|
            == |s.sent + s.buf| + |Accepted(s, events)| + Blocked(s, events)
    decreases |events|
  {
    if events != [] {
      StreamLength(Step(s, events[0]), events[1..]);
    }
  }

  lemma StepContents(s: Stream, e: Event)
    requires Allowed(s, e) && !Blocks(s, e)
    ensures Step(s, e).sent + Step(s, e).buf == s.sent + s.buf + Taken(s, e)
  {
    if e.Write? {
      if s.buf == [] && e.o.Sent? {
        assert e.data == e.data[..e.o.n] + e.data[e.o.n..];
      }
    } else if s.buf != [] && e.o.Sent? {
      assert s.buf == s.buf[..e.o.n] + s.buf[e.o.n..];
    }
  }

  lemma {:induction false} StreamContents(s: Stream, events: seq<Event>)
    requires AllAllowed(s, events) && Blocked(s, events) == 0
    ensures Run(s, events).sent + Run(s, events).buf == s.sent + s.buf + Accepted(s, events)
    decreases |events|
  {
    if events != [] {
      StepContents(s, events[0]);
      StreamContents(Step(s, events[0]), events[1..]);
      hide Step, Blocks, Taken;
    }
  }

  /** Over any run, what was sent followed by what waits is what was accepted, exactly when no write met a kernel that
      would block. */
  lemma ConservedIff(s: Stream, events: seq<Event>)
    requires AllAllowed(s, events)
    ensures Run(s, events).sent + Run(s, events).buf == s.sent + s.buf + Accepted(s, events)
            <==> Blocked(s, events) == 0
  {
    StreamLength(s, events);
    if Blocked(s, events) == 0 {
      StreamContents(s, events);
    }
  }

  lemma StepPromised(s: Stream, e: Event)
    requires Allowed(s, e)
    ensures var t := Step(s, e);
            && |t.sent + t.buf| >= |s.sent + s.buf| + |Promised(s, e)|
            && (Denies(s, e) ==> |t.sent + t.buf| > |s.sent + s.buf| + |Promised(s, e)|)
            && (!Denies(s, e) ==> t.sent + t.buf == s.sent + s.buf + Promised(s, e))
  {
    if !Blocks(s, e) { StepContents(s, e); }
  }

  /** The stream never lacks a byte that was promised. */
  lemma {:induction false} PromisedLength(s: Stream, events: seq<Event>)
    requires AllAllowed(s, events)
    ensures |Run(s, events).sent + Run(s, events).buf| >= |s.sent + s.buf| + |AllPromised(s, events)|
    ensures !NoneDenies(s, events) ==>
              |Run(s, events).sent + Run(s, events).buf| > |s.sent + s.buf| + |AllPromised(s, events)|
    decreases |events|
  {
    if events != [] {
      StepPromised(s, events[0]);
      PromisedLength(Step(s, events[0]), events[1..]);
      hide Step, Denies, Promised;
    }
  }

  lemma {:induction false} PromisedContents(s: Stream, events: seq<Event>)
    requires AllAllowed(s, events) && NoneDenies(s, events)
    ensures Run(s, events).sent + Run(s, events).buf == s.sent + s.buf + AllPromised(s, events)
    decreases |events|
  {
    if events != [] {
      StepPromised(s, events[0]);
      PromisedContents(Step(s, events[0]), events[1..]);
      hide Step, Denies, Promised;
    }
  }

  /** The law as the caller sees it: over any run, what was sent followed by what waits is the data of exactly the
      writes that did not return -1, if and only if no write denied data that it took. */
  lemma PromisedIff(s: Stream, events: seq<Event>)
    requires AllAllowed(s, events)
    ensures Run(s, events).sent + Run(s, events).buf == s.sent + s.buf + AllPromised(s, events)
            <==> NoneDenies(s, events)
  {
    PromisedLength(s, events);
    if NoneDenies(s, events) {
      PromisedContents(s, events);
    }
  }

  // ----- what the kernel takes and what the caller is told

  /** The value the call returns to its caller. */
  ghost function Reported(s: Stream, e: Event): int {
    match e
    case Write(data, _, o, watch) => Returned(s.buf, data, o, watch)
    case Ready(o) => Flushed(s.buf, o)
  }

  /** The call reaches the kernel, and the kernel takes bytes. */
  ghost predicate Takes(s: Stream, e: Event) {
    (s.buf == [] <==> e.Write?) && e.o.Sent?
  }

  /** A write reports a failure although the kernel took a part of its data. */
  ghost predicate Hides(s: Stream, e: Event) {
    e.Write? && s.buf == [] && e.o.Sent? && 0 < e.o.n < |e.data| && !e.watch
  }

  /** Where the kernel takes n bytes, these are the first n of what it was given, and n is what the caller is told. */
  lemma TakesReported(s: Stream, e: Event)
    requires Allowed(s, e)
    ensures Step(s, e).sent == s.sent + if Takes(s, e) then (if e.Write? then e.data else s.buf)[..e.o.n] else []
    ensures |Step(s, e).sent| == |s.sent| + if Takes(s, e) then e.o.n else 0
    ensures Reported(s, e) >= -1
    ensures Reported(s, e) != -1 ==> |Step(s, e).sent| == |s.sent| + Reported(s, e)
    ensures Reported(s, e) == -1 ==> (|Step(s, e).sent| > |s.sent| <==> Hides(s, e))
    ensures Reported(s, e) == -1 <==> ((s.buf == [] <==> e.Write?) && e.o.Failed?) || Denies(s, e)
  {
  }

  /** The sum of the values returned, failures left out. */
  ghost function AllReported(s: Stream, events: seq<Event>): nat
    requires AllAllowed(s, events)
    decreases |events|
  {
    if events == [] then 0
    else
      var r := Reported(s, events[0]);
      (if r > 0 then r else 0) + AllReported(Step(s, events[0]), events[1..])
  }

  /** The sum of the bytes taken in the calls of the kernel. */
  ghost function AllTaken(s: Stream, events: seq<Event>): nat
    requires AllAllowed(s, events)
    decreases |events|
  {
    if events == [] then 0
    else (if Takes(s, events[0]) then events[0].o.n else 0) + AllTaken(Step(s, events[0]), events[1..])
  }

  ghost predicate NoneHides(s: Stream, events: seq<Event>)
    requires AllAllowed(s, events)
    decreases |events|
  {
    events == [] || (!Hides(s, events[0]) && NoneHides(Step(s, events[0]), events[1..]))
  }

  /** Over any run, what was sent grows by what the kernel took; the values returned never add up to more, and they add
      up to this if and only if no write reported a failure for data of which the kernel had taken a part. */
  lemma {:induction false} ReportedIff(s: Stream, events: seq<Event>)
    requires AllAllowed(s, events)
    ensures |Run(s, events).sent| == |s.sent| + AllTaken(s, events)
    ensures AllReported(s, events) <= AllTaken(s, events)
    ensures AllReported(s, events) == AllTaken(s, events) <==> NoneHides(s, events)
    decreases |events|
  {
    if events != [] {
      TakesReported(s, events[0]);
      ReportedIff(Step(s, events[0]), events[1..]);
      hide Step, Takes, Hides, Reported;
    }
  }

  /** What was sent before stays sent, and in its place. */
  lemma {:induction false} SentStays(s: Stream, events: seq<Event>)
    requires AllAllowed(s, events)
    ensures s.sent <= Run(s, events).sent
    decreases |events|
  {
    if events != [] {
      TakesReported(s, events[0]);
      SentStays(Step(s, events[0]), events[1..]);
      hide Step, Takes, Hides, Reported;
    }
  }

  /** The peer then receives a byte that nobody wrote. */
  lemma BlockedWrite()
    ensures var events := [Write([0x41], 0, Again, true), Ready(Sent(2))];
            var s := Stream([], []);
            && AllAllowed(s, events) && Accepted(s, events) == [0x41]
            && Run(s, events) == Stream([], [0, 0x41])
  {
    var e, f := Write([0x41], 0, Again, true), Ready(Sent(2));
    var s, t := Stream([], []), Stream([0, 0x41], []);
    assert Step(s, e) == t;
    assert Step(t, f) == Stream([], [0, 0x41]);
    assert [e, f][1..] == [f] && [f][1..] == [];
    assert AllAllowed(t, [f]) && Run(t, [f]) == Stream([], [0, 0x41]) && Accepted(t, [f]) == [];
  }
}
