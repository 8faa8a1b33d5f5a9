/** What a list of calls leaves behind in a file, read off the list alone: which callbacks are registered, what every
    call returned, and what the file is waited for.  The registration functions are proved to agree with it. */
module History {
  import opened Registration

  /** The descriptor can be waited for. */
  predicate Usable(t: Traits) {
    t.fits && t.socket
  }

  /** The event is a call for file `fd`. */
  predicate Of(e: Event, fd: int) {
    e.On? && e.fd == fd
  }

  // ----- the last call that matters

  /** The callback of the last AddRead, unless a DelRead follows it. */
  function Reader(events: seq<Event>, fd: int): Proc {
    if events == [] then NoProc
    else
      var k := |events| - 1;
      if Of(events[k], fd) && events[k].call.AddRead? then events[k].call.proc
      else if Of(events[k], fd) && events[k].call.DelRead? then NoProc
      else Reader(events[..k], fd)
  }

  function Writer(events: seq<Event>, fd: int): Proc {
    if events == [] then NoProc
    else
      var k := |events| - 1;
      if Of(events[k], fd) && events[k].call.AddWrite? then events[k].call.proc
      else if Of(events[k], fd) && events[k].call.DelWrite? then NoProc
      else Writer(events[..k], fd)
  }

  /** The last call that concerns reading is an AddRead. */
  predicate Reads(events: seq<Event>, fd: int) {
    events != [] &&
    var k := |events| - 1;
    if Of(events[k], fd) && (events[k].call.DelRead? || events[k].call.DelReadWrite?) then false
    else (Of(events[k], fd) && events[k].call.AddRead?) || Reads(events[..k], fd)
  }

  predicate Writes(events: seq<Event>, fd: int) {
    events != [] &&
    var k := |events| - 1;
    if Of(events[k], fd) && (events[k].call.DelWrite? || events[k].call.DelReadWrite?) then false
    else (Of(events[k], fd) && events[k].call.AddWrite?) || Writes(events[..k], fd)
  }

  /** The events up to the last wait, or none when the file has been stopped since. */
  function UntilWait(events: seq<Event>, fd: int): seq<Event> {
    if events == [] then []
    else
      var k := |events| - 1;
      if events[k].Wait? then events
      else if Of(events[k], fd) && events[k].call.DelReadWrite? then []
      else UntilWait(events[..k], fd)
  }

  /** The descriptor has been checked: somebody has asked to wait for it. */
  predicate Asked(events: seq<Event>, fd: int) {
    exists i | 0 <= i < |events| :: Of(events[i], fd) && (events[i].call.AddRead? || events[i].call.AddWrite?)
  }

  /** Since the last wait, and since it was stopped last, there has been a call that would change the mask `m`. */
  predicate Queued(events: seq<Event>, fd: int, m: Mask) {
    events != [] &&
    var k := |events| - 1;
    if events[k].Wait? || (Of(events[k], fd) && events[k].call.DelReadWrite?) then false
    else (Of(events[k], fd) && Changes(events[k].call, m)) || Queued(events[..k], fd, m)
  }

  predicate Changes(c: Call, m: Mask) {
    (c.AddRead? && !m.r) || (c.AddWrite? && !m.w) || (c.DelRead? && m.r) || (c.DelWrite? && m.w)
  }

  // ----- one event

  /** The check of the descriptor has found out what it is, and nothing is registered for one that is unusable. */
  predicate Checked(v: View, t: Traits) {
    && (v.kind.Socket? ==> t.socket) && (v.kind.NotSocket? ==> !t.socket)
    && (!Usable(t) ==> v.mask == NONE && v.oper == IDLE && v.rProc == v.wProc == NoProc)
  }

  lemma StepChecked(v: View, t: Traits, direct: bool, c: Call)
    requires Checked(v, t)
    ensures Checked(Step(v, t, direct, c).0, t)
    ensures Step(v, t, direct, c).1 == if (c.AddRead? || c.AddWrite?) && Usable(t) then 1 else 0
  {
  }

  lemma StepCallbacks(v: View, t: Traits, direct: bool, c: Call)
    requires Checked(v, t)
    ensures var u := Step(v, t, direct, c).0;
            && u.rProc == (if c.AddRead? && Usable(t) then c.proc else if c.DelRead? then NoProc else v.rProc)
            && u.wProc == (if c.AddWrite? && Usable(t) then c.proc else if c.DelWrite? then NoProc else v.wProc)
  {
  }

  lemma StepMask(v: View, t: Traits, c: Call)
    requires Checked(v, t)
    ensures var m := Step(v, t, true, c).0.mask;
            && m.r == (if c.AddRead? then Usable(t) else v.mask.r && !c.DelRead? && !c.DelReadWrite?)
            && m.w == (if c.AddWrite? then Usable(t) else v.mask.w && !c.DelWrite? && !c.DelReadWrite?)
  {
  }

  /** A deferred call leaves the mask alone, but for the one that stops both directions. */
  lemma StepDefers(v: View, t: Traits, c: Call)
    ensures Step(v, t, false, c).0.mask == if c.DelReadWrite? then NONE else v.mask
  {
  }

  // ----- runs

  function Fresh(fds: set<int>): State {
    map fd | fd in fds :: FRESH
  }

  lemma {:induction false} RunSnoc(s: State, traits: int -> Traits, direct: bool, events: seq<Event>)
    requires events != []
    ensures var k := |events| - 1;
            var (s1, results) := Run(s, traits, direct, events[..k]);
            Run(s, traits, direct, events)
            == (Next(s1, traits, direct, events[k]), results + [Result(s1, traits, direct, events[k])])
    decreases |events|
  {
    hide Next, Result;
    var k := |events| - 1;
    var s1, x := Next(s, traits, direct, events[0]), [Result(s, traits, direct, events[0])];
    var r := Run(s1, traits, direct, events[1..]);
    assert Run(s, traits, direct, events) == (r.0, x + r.1);
    if k > 0 {
      RunSnoc(s1, traits, direct, events[1..]);
      assert events[..k][1..] == events[1..][..k - 1] && events[..k][0] == events[0];
      var a := Run(s1, traits, direct, events[1..][..k - 1]);
      assert Run(s, traits, direct, events[..k]) == (a.0, x + a.1);
      assert x + (a.1 + [Result(a.0, traits, direct, events[k])]) == x + a.1 + [Result(a.0, traits, direct, events[k])];
    } else {
      assert r == (s1, []) && x + [] == [] + x;
    }
  }

  /** One event, seen from one file. */
  lemma NextOf(s: State, traits: int -> Traits, direct: bool, e: Event, fd: int)
    requires fd in s
    ensures var s1 := Next(s, traits, direct, e);
            && fd in s1
            && s1[fd] == if Of(e, fd) then Step(s[fd], traits(fd), direct, e.call).0
                         else if e.Wait? && !direct then Flush(s[fd]) else s[fd]
  {
    hide Step, Flush;
  }

  /** The callbacks of a file after any run are those of the last calls that name one. */
  lemma {:induction false} CallbacksOfRun(fds: set<int>, traits: int -> Traits, direct: bool, events: seq<Event>,
                                          fd: int)
    requires fd in fds
    ensures var s := Run(Fresh(fds), traits, direct, events).0;
            && fd in s && Checked(s[fd], traits(fd))
            && s[fd].rProc == (if Usable(traits(fd)) then Reader(events, fd) else NoProc)
            && s[fd].wProc == (if Usable(traits(fd)) then Writer(events, fd) else NoProc)
  {
    if events != [] {
      hide Run, Next, Step;
      var k, t := |events| - 1, traits(fd);
      CallbacksOfRun(fds, traits, direct, events[..k], fd);
      RunSnoc(Fresh(fds), traits, direct, events);
      var s := Run(Fresh(fds), traits, direct, events[..k]).0;
      NextOf(s, traits, direct, events[k], fd);
      if Of(events[k], fd) {
        StepChecked(s[fd], t, direct, events[k].call);
        StepCallbacks(s[fd], t, direct, events[k].call);
      }
    }
  }

  /** Registration returns 1 exactly for descriptors that fit and are sockets; the other functions return nothing. */
  lemma {:induction false} ResultsOfRun(fds: set<int>, traits: int -> Traits, direct: bool, events: seq<Event>)
    ensures var results := Run(Fresh(fds), traits, direct, events).1;
            && |results| == |events|
            && forall i | 0 <= i < |events| ::
                 results[i] == match events[i]
                               case Wait => 0
                               case On(fd, c) =>
                                 if fd in fds && (c.AddRead? || c.AddWrite?) && Usable(traits(fd)) then 1 else 0
  {
    if events != [] {
      hide Run, Next, Step, Checked;
      var k := |events| - 1;
      ResultsOfRun(fds, traits, direct, events[..k]);
      RunSnoc(Fresh(fds), traits, direct, events);
      RunKeys(Fresh(fds), traits, direct, events[..k]);
      var s := Run(Fresh(fds), traits, direct, events[..k]).0;
      if events[k].On? && events[k].fd in fds {
        CallbacksOfRun(fds, traits, direct, events[..k], events[k].fd);
        StepChecked(s[events[k].fd], traits(events[k].fd), direct, events[k].call);
      }
    }
  }

  /** A direct engine waits at any time for what the last calls ask for. */
  lemma {:induction false} DirectMasks(fds: set<int>, traits: int -> Traits, events: seq<Event>, fd: int)
    requires fd in fds
    ensures var s := Run(Fresh(fds), traits, true, events).0;
            && fd in s
            && s[fd].mask == if Usable(traits(fd)) then Mask(Reads(events, fd), Writes(events, fd)) else NONE
  {
    if events != [] {
      hide Run, Next, Step, Checked;
      var k, t := |events| - 1, traits(fd);
      DirectMasks(fds, traits, events[..k], fd);
      CallbacksOfRun(fds, traits, true, events[..k], fd);
      RunSnoc(Fresh(fds), traits, true, events);
      var s := Run(Fresh(fds), traits, true, events[..k]).0;
      NextOf(s, traits, true, events[k], fd);
      if Of(events[k], fd) { StepMask(s[fd], t, events[k].call); }
    }
  }

  /** A deferred engine does so after its next wait. */
  lemma FlushedMasks(fds: set<int>, traits: int -> Traits, events: seq<Event>, fd: int)
    requires fd in fds
    ensures var s := Run(Fresh(fds), traits, false, events).0;
            && fd in s
            && Flush(s[fd]).mask == if Usable(traits(fd)) then Mask(Reads(events, fd), Writes(events, fd)) else NONE
  {
    hide Run;
    DirectMasks(fds, traits, events, fd);
    DeferredRefinesDirect(fds, traits, events);
    var d, e := Run(Fresh(fds), traits, false, events).0, Run(Fresh(fds), traits, true, events).0;
    assert FlushAll(d)[fd].mask == e[fd].mask;
  }

  /** Until then it waits for what the calls in front of its last wait asked for, or for nothing once both directions
      have been stopped. */
  lemma {:induction false} DeferredMasks(fds: set<int>, traits: int -> Traits, events: seq<Event>, fd: int)
    requires fd in fds
    ensures var s := Run(Fresh(fds), traits, false, events).0;
            var past := UntilWait(events, fd);
            && fd in s
            && s[fd].mask == if Usable(traits(fd)) then Mask(Reads(past, fd), Writes(past, fd)) else NONE
  {
    if events != [] {
      hide Run, Next, Step, Flush;
      var k, t := |events| - 1, traits(fd);
      DeferredMasks(fds, traits, events[..k], fd);
      FlushedMasks(fds, traits, events[..k], fd);
      RunSnoc(Fresh(fds), traits, false, events);
      var s := Run(Fresh(fds), traits, false, events[..k]).0;
      NextOf(s, traits, false, events[k], fd);
      if Of(events[k], fd) { StepDefers(s[fd], t, events[k].call); }
    }
  }

  lemma StepKind(v: View, t: Traits, c: Call)
    requires Checked(v, t) && (v.mask != NONE ==> v.kind.Socket?)
    ensures var u := Step(v, t, true, c).0;
            && u.kind == (if (c.AddRead? || c.AddWrite?) && t.fits then (if t.socket then Socket else NotSocket)
                          else v.kind)
            && (u.mask != NONE ==> u.kind.Socket?)
  {
  }

  function KindFound(events: seq<Event>, fd: int, t: Traits): Kind {
    if !t.fits || !Asked(events, fd) then Unknown else if t.socket then Socket else NotSocket
  }

  lemma {:induction false} KindDirect(fds: set<int>, traits: int -> Traits, events: seq<Event>, fd: int)
    requires fd in fds
    ensures var s := Run(Fresh(fds), traits, true, events).0;
            && fd in s && s[fd].kind == KindFound(events, fd, traits(fd)) && (s[fd].mask != NONE ==> s[fd].kind.Socket?)
  {
    if events != [] {
      hide Run, Next, Step, Checked, Asked;
      var k, t := |events| - 1, traits(fd);
      KindDirect(fds, traits, events[..k], fd);
      CallbacksOfRun(fds, traits, true, events[..k], fd);
      RunSnoc(Fresh(fds), traits, true, events);
      var s := Run(Fresh(fds), traits, true, events[..k]).0;
      NextOf(s, traits, true, events[k], fd);
      AskedSnoc(events, fd);
      if Of(events[k], fd) { StepKind(s[fd], t, events[k].call); }
    }
  }

  /** A descriptor is checked by the first call that asks for it, and the answer is kept. */
  lemma KindOfRun(fds: set<int>, traits: int -> Traits, direct: bool, events: seq<Event>, fd: int)
    requires fd in fds
    ensures var s := Run(Fresh(fds), traits, direct, events).0;
            fd in s && s[fd].kind == KindFound(events, fd, traits(fd))
  {
    hide Run, KindFound;
    KindDirect(fds, traits, events, fd);
    DeferredRefinesDirect(fds, traits, events);
    var d, e := Run(Fresh(fds), traits, false, events).0, Run(Fresh(fds), traits, true, events).0;
    assert FlushAll(d)[fd].kind == e[fd].kind;
  }

  lemma AskedSnoc(events: seq<Event>, fd: int)
    requires events != []
    ensures var k := |events| - 1;
            Asked(events, fd)
            <==> Asked(events[..k], fd) || (Of(events[k], fd) && (events[k].call.AddRead? || events[k].call.AddWrite?))
  {
    var k := |events| - 1;
    if Asked(events[..k], fd) {
      var i :| 0 <= i < k && Of(events[..k][i], fd) && (events[..k][i].call.AddRead? || events[..k][i].call.AddWrite?);
      assert events[i] == events[..k][i];
    }
    if i :| 0 <= i < k && Of(events[i], fd) && (events[i].call.AddRead? || events[i].call.AddWrite?) {
      assert events[i] == events[..k][i];
    }
  }

  lemma StepQueues(v: View, t: Traits, c: Call)
    requires Checked(v, t)
    ensures Step(v, t, false, c).0.linked ==
            (!c.DelReadWrite? && (v.linked || (Usable(t) && Changes(c, v.mask))))
  {
  }

  /** A file is on the ring exactly when a call since the last wait would have changed its mask, also when a later one
      has taken that back. */
  lemma {:induction false} LinkedOfRun(fds: set<int>, traits: int -> Traits, events: seq<Event>, fd: int)
    requires fd in fds
    ensures var s := Run(Fresh(fds), traits, false, events).0;
            fd in s && (s[fd].linked <==> Usable(traits(fd)) && Queued(events, fd, s[fd].mask))
  {
    if events != [] {
      hide Run, Next, Step, Flush, Checked, Changes, Usable;
      var k, t := |events| - 1, traits(fd);
      LinkedOfRun(fds, traits, events[..k], fd);
      CallbacksOfRun(fds, traits, false, events[..k], fd);
      RunSnoc(Fresh(fds), traits, false, events);
      var s := Run(Fresh(fds), traits, false, events[..k]).0;
      NextOf(s, traits, false, events[k], fd);
      FlushUnlinks(s[fd]);
      if Of(events[k], fd) {
        StepQueues(s[fd], t, events[k].call);
        StepDefers(s[fd], t, events[k].call);
      }
    }
  }

  lemma FlushUnlinks(v: View)
    ensures !Flush(v).linked
  {
  }
}
