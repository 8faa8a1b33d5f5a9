/** What deferring saves: how many calls of the back end the two modes make for each file. */
module Batching {
  import opened Registration

  /** A flush calls the back end once for each direction whose bit has to change, and for no other. */
  lemma FlushMinimal(v: View)
    requires Pending(v)
    ensures var now, later := v.mask, Desired(v);
            multiset(FlushCalls(v)) ==
              multiset(If(now.r != later.r, if later.r then CallAddRead else CallDelRead))
              + multiset(If(now.w != later.w, if later.w then CallAddWrite else CallDelWrite))
  {
  }

  function Work(v: View): nat {
    |FlushCalls(v)|
  }

  function StepWork(v: View, t: Traits, direct: bool, both: bool, c: Call): nat {
    |StepCalls(v, t, direct, both, c)|
  }

  /** What a deferred call makes now or leaves to the next flush, the direct call makes at once, unless it cancels
      what was left to the flush before. */
  lemma StepSaves(d: View, e: View, t: Traits, both: bool, c: Call)
    requires Agree(d, e)
    ensures StepWork(d, t, false, both, c) + Work(Step(d, t, false, c).0) <= StepWork(e, t, true, both, c) + Work(d)
  {
  }

  /** The calls that an event makes for the file with descriptor `fd`. */
  function EventCalls(s: State, traits: int -> Traits, direct: bool, both: bool, e: Event, fd: int): seq<BackendCall>
    requires fd in s
  {
    match e
    case Wait => if direct then [] else FlushCalls(s[fd])
    case On(g, call) => if g == fd then StepCalls(s[fd], traits(fd), direct, both, call) else []
  }

  function RunCalls(s: State, traits: int -> Traits, direct: bool, both: bool, events: seq<Event>, fd: int)
    : seq<BackendCall>
    requires fd in s
    decreases |events|
  {
    if events == [] then []
    else
      EventCalls(s, traits, direct, both, events[0], fd)
      + RunCalls(Next(s, traits, direct, events[0]), traits, direct, both, events[1..], fd)
  }

  function EventWork(s: State, traits: int -> Traits, direct: bool, both: bool, e: Event, fd: int): nat
    requires fd in s
  {
    |EventCalls(s, traits, direct, both, e, fd)|
  }

  function RunWork(s: State, traits: int -> Traits, direct: bool, both: bool, events: seq<Event>, fd: int): nat
    requires fd in s
  {
    |RunCalls(s, traits, direct, both, events, fd)|
  }

  lemma NextSaves(d: State, e: State, traits: int -> Traits, both: bool, ev: Event, fd: int)
    requires AgreeAll(d, e) && fd in d
    ensures EventWork(d, traits, false, both, ev, fd) + Work(Next(d, traits, false, ev)[fd])
         <= EventWork(e, traits, true, both, ev, fd) + Work(d[fd])
  {
    hide Step, StepCalls, Agree;
    match ev
    case Wait =>
    case On(g, call) => if g == fd { StepSaves(d[fd], e[fd], traits(fd), both, call); }
  }

  lemma {:induction false} RunSaves(d: State, e: State, traits: int -> Traits, both: bool, events: seq<Event>, fd: int)
    requires AgreeAll(d, e) && fd in d
    ensures fd in Run(d, traits, false, events).0
    ensures RunWork(d, traits, false, both, events, fd) + Work(Run(d, traits, false, events).0[fd])
         <= RunWork(e, traits, true, both, events, fd) + Work(d[fd])
    decreases |events|
  {
    hide Work, EventCalls, Next, Result, AgreeAll;
    if events != [] {
      var d1, e1 := Next(d, traits, false, events[0]), Next(e, traits, true, events[0]);
      NextKeys(d, e, traits, events[0]);
      NextSaves(d, e, traits, both, events[0], fd);
      NextAgrees(d, e, traits, events[0]);
      RunSaves(d1, e1, traits, both, events[1..], fd);
    }
  }

  lemma NextKeys(d: State, e: State, traits: int -> Traits, ev: Event)
    requires AgreeAll(d, e)
    ensures Next(d, traits, false, ev).Keys == d.Keys == Next(e, traits, true, ev).Keys
  {
    hide Step, Flush, Agree;
  }

  /** Deferring never costs: over every interleaving of calls and waits, a last flush included, the back end is called
      for no file more often than it is in direct mode. */
  lemma DeferredCallsNoMore(fds: set<int>, traits: int -> Traits, both: bool, events: seq<Event>)
    ensures var s: State := map fd | fd in fds :: FRESH;
            forall fd | fd in fds ::
              fd in Run(s, traits, false, events).0
              && RunWork(s, traits, false, both, events, fd) + Work(Run(s, traits, false, events).0[fd])
                 <= RunWork(s, traits, true, both, events, fd)
  {
    hide Run, RunWork, RunCalls;
    var s: State := map fd | fd in fds :: FRESH;
    forall fd | fd in fds
      ensures fd in Run(s, traits, false, events).0
      ensures RunWork(s, traits, false, both, events, fd) + Work(Run(s, traits, false, events).0[fd])
           <= RunWork(s, traits, true, both, events, fd) {
      RunSaves(s, s, traits, both, events, fd);
    }
  }

  // ----- what the back end is told

  /** What the back end waits for after a call. */
  function Told(m: Mask, c: BackendCall): Mask {
    match c
    case CallAddRead => Mask(true, m.w)
    case CallDelRead => Mask(false, m.w)
    case CallAddWrite => Mask(m.r, true)
    case CallDelWrite => Mask(m.r, false)
    case CallDelReadWrite => Mask(false, false)
  }

  function ToldAll(m: Mask, calls: seq<BackendCall>): Mask
    decreases |calls|
  {
    if calls == [] then m else ToldAll(Told(m, calls[0]), calls[1..])
  }

  /** Each call changes what the back end waits for. */
  predicate Useful(m: Mask, calls: seq<BackendCall>)
    decreases |calls|
  {
    calls != [] ==> Told(m, calls[0]) != m && Useful(Told(m, calls[0]), calls[1..])
  }

  /** The calls lead from one mask to the other, and none of them is for nothing. */
  predicate Leads(m: Mask, calls: seq<BackendCall>, later: Mask) {
    ToldAll(m, calls) == later && Useful(m, calls)
  }

  lemma {:induction false} LeadsOn(m: Mask, a: seq<BackendCall>, mid: Mask, b: seq<BackendCall>, later: Mask)
    requires Leads(m, a, mid) && Leads(mid, b, later)
    ensures Leads(m, a + b, later)
    decreases |a|
  {
    if a == [] {
      assert a + b == b;
    } else {
      LeadsOn(Told(m, a[0]), a[1..], mid, b, later);
      assert (a + b)[1..] == a[1..] + b;
    }
  }

  lemma LeadsIf(m: Mask, cond: bool, c: BackendCall)
    requires cond ==> Told(m, c) != m
    ensures Leads(m, If(cond, c), if cond then Told(m, c) else m)
    ensures |If(cond, c)| <= 1
  {
  }

  lemma StepLeads(v: View, t: Traits, direct: bool, both: bool, c: Call)
    ensures Leads(v.mask, StepCalls(v, t, direct, both, c), Step(v, t, direct, c).0.mask)
    ensures both ==> |StepCalls(v, t, direct, both, c)| <= 1
  {
    hide Leads, If;
    match c
    case AddRead(proc) =>
      LeadsIf(v.mask, direct && t.fits && !v.mask.r && KindAfterCheck(v, t) == Socket, CallAddRead);
    case AddWrite(proc) =>
      LeadsIf(v.mask, direct && t.fits && !v.mask.w && KindAfterCheck(v, t) == Socket, CallAddWrite);
    case DelRead => LeadsIf(v.mask, direct && v.mask.r, CallDelRead);
    case DelWrite => LeadsIf(v.mask, direct && v.mask.w, CallDelWrite);
    case DelReadWrite => StopLeads(v.mask, both);
  }

  lemma StopLeads(m: Mask, both: bool)
    ensures Leads(m, StopCalls(m, both), NONE)
    ensures both ==> |StopCalls(m, both)| <= 1
  {
    hide Leads;
    if both {
      LeadsIf(m, m != NONE, CallDelReadWrite);
    } else {
      LeadsIf(m, m.r, CallDelRead);
      LeadsIf(Mask(false, m.w), m.w, CallDelWrite);
      LeadsOn(m, If(m.r, CallDelRead), Mask(false, m.w), If(m.w, CallDelWrite), NONE);
    }
  }

  lemma FlushLeads(v: View)
    requires Pending(v)
    ensures Leads(v.mask, FlushCalls(v), Flush(v).mask)
  {
    if v.linked {
      hide Leads, If;
      var m, p := v.mask, v.oper;
      var m1 := if p.delR then Mask(false, m.w) else m;
      var m2 := if p.delW then Mask(m1.r, false) else m1;
      var m3 := if p.addR then Mask(true, m2.w) else m2;
      LeadsIf(m, p.delR, CallDelRead);
      LeadsIf(m1, p.delW, CallDelWrite);
      LeadsIf(m2, p.addR, CallAddRead);
      LeadsIf(m3, p.addW, CallAddWrite);
      var a, b := If(p.delR, CallDelRead), If(p.delW, CallDelWrite);
      var c, d := If(p.addR, CallAddRead), If(p.addW, CallAddWrite);
      LeadsOn(m, a, m1, b, m2);
      LeadsOn(m, a + b, m2, c, m3);
      LeadsOn(m, a + b + c, m3, d, Flush(v).mask);
    }
  }

  lemma EventLeads(s: State, traits: int -> Traits, direct: bool, both: bool, e: Event, fd: int)
    requires fd in s && (direct || Pending(s[fd]))
    ensures var v := Next(s, traits, direct, e);
            && fd in v && (direct || Pending(v[fd]))
            && Leads(s[fd].mask, EventCalls(s, traits, direct, both, e, fd), v[fd].mask)
  {
    hide Step, StepCalls, Flush, FlushCalls, Pending;
    match e
    case Wait =>
      if !direct {
        FlushLeads(s[fd]);
        FlushPending(s[fd]);
      }
    case On(g, call) =>
      if g == fd {
        StepLeads(s[fd], traits(fd), direct, both, call);
        if !direct { StepPending(s[fd], traits(fd), call); }
      }
  }

  /** In either mode and over any run, the calls that the back end gets for a file lead to the mask of the file, and
      each of them changes what the back end waits for: none is repeated and none is for nothing. */
  lemma {:induction false} RunLeads(s: State, traits: int -> Traits, direct: bool, both: bool, events: seq<Event>,
                                    fd: int)
    requires fd in s && (direct || Pending(s[fd]))
    ensures fd in Run(s, traits, direct, events).0
    ensures Leads(s[fd].mask, RunCalls(s, traits, direct, both, events, fd),
                  Run(s, traits, direct, events).0[fd].mask)
    decreases |events|
  {
    if events != [] {
      hide Next, EventCalls, Leads, Pending;
      var s1 := Next(s, traits, direct, events[0]);
      EventLeads(s, traits, direct, both, events[0], fd);
      RunLeads(s1, traits, direct, both, events[1..], fd);
      LeadsOn(s[fd].mask, EventCalls(s, traits, direct, both, events[0], fd), s1[fd].mask,
              RunCalls(s1, traits, direct, both, events[1..], fd), Run(s, traits, direct, events).0[fd].mask);
    }
  }
}
