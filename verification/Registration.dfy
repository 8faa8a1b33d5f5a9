/** What nio_event.c promises about one file: registering at once (NIO_EVENT_DIRECT) and registering at
    the next wait lead to the same interest set and the same callbacks. */
module Registration {

  /** NIO_EVENT_READ and NIO_EVENT_WRITE. */
  datatype Mask = Mask(r: bool, w: bool)

  const NONE := Mask(false, false)

  /** The bits of `oper`. */
  datatype Oper = Oper(addR: bool, delR: bool, addW: bool, delW: bool)

  const IDLE := Oper(false, false, false, false)

  datatype Kind = Unknown | Socket | NotSocket

  /** A callback, or none. */
  datatype Proc = NoProc | Proc(name: int)

  /** The part of a file record that the registration functions work on; `linked` says whether the
      file waits in the ring of the next flush. */
  datatype View = View(kind: Kind, mask: Mask, oper: Oper, rProc: Proc, wProc: Proc, linked: bool)

  datatype Call = AddRead(proc: Proc) | AddWrite(proc: Proc) | DelRead | DelWrite | DelReadWrite

  /** What does not change: whether the descriptor fits into the set, and whether it is a socket. */
  datatype Traits = Traits(fits: bool, socket: bool)

  function KindAfterCheck(v: View, t: Traits): Kind {
    if v.kind != Unknown then v.kind else if t.socket then Socket else NotSocket
  }

  /** An ADD is recorded, and done or queued. */
  function AskRead(v: View, direct: bool): View {
    var v1 := v.(oper := v.oper.(addR := true));
    if direct then v1.(mask := v.mask.(r := true)) else v1.(linked := true)
  }

  /** The new state before the callback is stored, and whether the descriptor can be waited for. */
  function RequestRead(v: View, t: Traits, direct: bool): (View, bool) {
    var v1 := v.(oper := v.oper.(delR := false));
    if v.mask.r then (v1, true)
    else if KindAfterCheck(v, t) == NotSocket then (v1.(kind := NotSocket), false)
    else (AskRead(v1.(kind := Socket), direct), true)
  }

  function DoAddRead(v: View, t: Traits, direct: bool, proc: Proc): (View, int) {
    if v.kind == NotSocket || !t.fits then (v, 0)
    else
      var (u, ok) := RequestRead(v, t, direct);
      if ok then (u.(rProc := proc), 1) else (u, 0)
  }

  /** An ADD is recorded, and done or queued. */
  function AskWrite(v: View, direct: bool): View {
    var v1 := v.(oper := v.oper.(addW := true));
    if direct then v1.(mask := v.mask.(w := true)) else v1.(linked := true)
  }

  /** The new state before the callback is stored, and whether the descriptor can be waited for. */
  function RequestWrite(v: View, t: Traits, direct: bool): (View, bool) {
    var v1 := v.(oper := v.oper.(delW := false));
    if v.mask.w then (v1, true)
    else if KindAfterCheck(v, t) == NotSocket then (v1.(kind := NotSocket), false)
    else (AskWrite(v1.(kind := Socket), direct), true)
  }

  function DoAddWrite(v: View, t: Traits, direct: bool, proc: Proc): (View, int) {
    if v.kind == NotSocket || !t.fits then (v, 0)
    else
      var (u, ok) := RequestWrite(v, t, direct);
      if ok then (u.(wProc := proc), 1) else (u, 0)
  }

  function DoDelRead(v: View, direct: bool): View {
    var v1 := v.(oper := v.oper.(addR := false), rProc := NoProc);
    if !v.mask.r then v1
    else if direct then v1.(mask := v.mask.(r := false))
    else v1.(oper := v1.oper.(delR := true), linked := true)
  }

  function DoDelWrite(v: View, direct: bool): View {
    var v1 := v.(oper := v.oper.(addW := false), wProc := NoProc);
    if !v.mask.w then v1
    else if direct then v1.(mask := v.mask.(w := false))
    else v1.(oper := v1.oper.(delW := true), linked := true)
  }

  /** Both directions at once: never deferred, and what was pending is forgotten. */
  function DoDelReadWrite(v: View): View {
    v.(mask := NONE, oper := IDLE, linked := false)
  }

  /** One call for a file: its new state and the value returned (0 for the functions that return none). */
  function Step(v: View, t: Traits, direct: bool, c: Call): (View, int) {
    match c
    case AddRead(proc) => DoAddRead(v, t, direct, proc)
    case AddWrite(proc) => DoAddWrite(v, t, direct, proc)
    case DelRead => (DoDelRead(v, direct), 0)
    case DelWrite => (DoDelWrite(v, direct), 0)
    case DelReadWrite => (DoDelReadWrite(v), 0)
  }

  /** The interest set that the calls made so far ask for. */
  function Desired(v: View): Mask {
    Mask((v.mask.r && !v.oper.delR) || v.oper.addR, (v.mask.w && !v.oper.delW) || v.oper.addW)
  }

  /** nio_event_prepare for one file. */
  function Flush(v: View): View {
    if v.linked then v.(mask := Desired(v), oper := IDLE, linked := false) else v
  }

  // ----- calls of the back end

  /** What a back end is asked to do for one file; only epoll has a call for both directions. */
  datatype BackendCall = CallAddRead | CallDelRead | CallAddWrite | CallDelWrite | CallDelReadWrite

  predicate Reading(c: BackendCall) {
    c.CallAddRead? || c.CallDelRead?
  }

  function If(cond: bool, c: BackendCall): seq<BackendCall> {
    if cond then [c] else []
  }

  /** The calls that a flush makes for one file, in their order. */
  function FlushCalls(v: View): seq<BackendCall> {
    if !v.linked then []
    else
      If(v.oper.delR, CallDelRead) + If(v.oper.delW, CallDelWrite)
      + If(v.oper.addR, CallAddRead) + If(v.oper.addW, CallAddWrite)
  }

  /** The calls that nio_event_del_readwrite makes; `both` says whether the back end has a call for both directions. */
  function StopCalls(m: Mask, both: bool): seq<BackendCall> {
    if both then If(m != NONE, CallDelReadWrite) else If(m.r, CallDelRead) + If(m.w, CallDelWrite)
  }

  function AddCalls(v: View, t: Traits, direct: bool, has: bool, c: BackendCall): seq<BackendCall> {
    If(direct && t.fits && !has && KindAfterCheck(v, t) == Socket, c)
  }

  lemma RequestReadAsks(v: View, t: Traits, direct: bool)
    requires v.kind != NotSocket && t.fits
    ensures If(direct && RequestRead(v, t, direct).1 && !v.mask.r, CallAddRead)
         == AddCalls(v, t, direct, v.mask.r, CallAddRead)
  {
  }

  lemma RequestWriteAsks(v: View, t: Traits, direct: bool)
    requires v.kind != NotSocket && t.fits
    ensures If(direct && RequestWrite(v, t, direct).1 && !v.mask.w, CallAddWrite)
         == AddCalls(v, t, direct, v.mask.w, CallAddWrite)
  {
  }

  /** The calls that one registration call makes. */
  function StepCalls(v: View, t: Traits, direct: bool, both: bool, c: Call): seq<BackendCall> {
    match c
    case AddRead(_) => AddCalls(v, t, direct, v.mask.r, CallAddRead)
    case AddWrite(_) => AddCalls(v, t, direct, v.mask.w, CallAddWrite)
    case DelRead => If(direct && v.mask.r, CallDelRead)
    case DelWrite => If(direct && v.mask.w, CallDelWrite)
    case DelReadWrite => StopCalls(v.mask, both)
  }

  /** Pending work of a file: only what changes the mask, never both ways, and always on the ring. */
  predicate Pending(v: View) {
    && (v.oper.addR ==> !v.mask.r && !v.oper.delR) && (v.oper.delR ==> v.mask.r)
    && (v.oper.addW ==> !v.mask.w && !v.oper.delW) && (v.oper.delW ==> v.mask.w)
    && (v.oper != IDLE ==> v.linked)
    && (v.kind != Socket ==> v.mask == NONE && v.oper == IDLE)
  }

  /** Every deferred call keeps the pending work of a file in order. */
  lemma StepPending(v: View, t: Traits, c: Call)
    requires Pending(v)
    ensures Pending(Step(v, t, false, c).0)
  {
    match c
    case AddRead(proc) => AddReadAgrees(v, Flushed(v), t, proc);
    case AddWrite(proc) => AddWriteAgrees(v, Flushed(v), t, proc);
    case DelRead => DelAgrees(v, Flushed(v));
    case DelWrite => DelAgrees(v, Flushed(v));
    case DelReadWrite =>
  }

  lemma FlushPending(v: View)
    requires Pending(v)
    ensures Pending(Flush(v))
  {
  }

  function Flushed(v: View): View {
    v.(mask := Desired(v), linked := false)
  }

  /** A file in the deferred mode and the same file in the direct mode. */
  predicate Agree(d: View, e: View) {
    && Pending(d) && !e.linked && Desired(d) == e.mask
    && d.rProc == e.rProc && d.wProc == e.wProc && d.kind == e.kind
  }

  lemma RequestReadAgrees(d: View, e: View, t: Traits)
    requires Agree(d, e)
    ensures Agree(RequestRead(d, t, false).0, RequestRead(e, t, true).0)
    ensures RequestRead(d, t, false).1 == RequestRead(e, t, true).1
  {
  }

  lemma AddReadAgrees(d: View, e: View, t: Traits, proc: Proc)
    requires Agree(d, e)
    ensures Agree(DoAddRead(d, t, false, proc).0, DoAddRead(e, t, true, proc).0)
    ensures DoAddRead(d, t, false, proc).1 == DoAddRead(e, t, true, proc).1
  {
    hide RequestRead;
    RequestReadAgrees(d, e, t);
  }

  lemma RequestWriteAgrees(d: View, e: View, t: Traits)
    requires Agree(d, e)
    ensures Agree(RequestWrite(d, t, false).0, RequestWrite(e, t, true).0)
    ensures RequestWrite(d, t, false).1 == RequestWrite(e, t, true).1
  {
  }

  lemma AddWriteAgrees(d: View, e: View, t: Traits, proc: Proc)
    requires Agree(d, e)
    ensures Agree(DoAddWrite(d, t, false, proc).0, DoAddWrite(e, t, true, proc).0)
    ensures DoAddWrite(d, t, false, proc).1 == DoAddWrite(e, t, true, proc).1
  {
    hide RequestWrite;
    RequestWriteAgrees(d, e, t);
  }

  lemma DelAgrees(d: View, e: View)
    requires Agree(d, e)
    ensures Agree(DoDelRead(d, false), DoDelRead(e, true))
    ensures Agree(DoDelWrite(d, false), DoDelWrite(e, true))
    ensures Agree(DoDelReadWrite(d), DoDelReadWrite(e))
  {
  }

  lemma StepAgrees(d: View, e: View, t: Traits, c: Call)
    requires Agree(d, e)
    ensures Agree(Step(d, t, false, c).0, Step(e, t, true, c).0)
    ensures Step(d, t, false, c).1 == Step(e, t, true, c).1
  {
    hide Agree, DoAddRead, DoAddWrite, DoDelRead, DoDelWrite, DoDelReadWrite;
    match c
    case AddRead(proc) => AddReadAgrees(d, e, t, proc);
    case AddWrite(proc) => AddWriteAgrees(d, e, t, proc);
    case DelRead => DelAgrees(d, e);
    case DelWrite => DelAgrees(d, e);
    case DelReadWrite => DelAgrees(d, e);
  }

  lemma FlushAgrees(d: View, e: View)
    requires Agree(d, e)
    ensures Agree(Flush(d), e)
    ensures Flush(d).mask == e.mask && Flush(d).oper == IDLE && !Flush(d).linked
  {
  }

  // ----- runs over many files

  datatype Event = On(fd: int, call: Call) | Wait

  type State = map<int, View>

  function FlushAll(s: State): State {
    map fd | fd in s :: Flush(s[fd])
  }

  /** One event; a direct engine has nothing to do when it waits. */
  function Next(s: State, traits: int -> Traits, direct: bool, e: Event): State {
    match e
    case Wait => if direct then s else FlushAll(s)
    case On(fd, call) => if fd in s then s[fd := Step(s[fd], traits(fd), direct, call).0] else s
  }

  function Result(s: State, traits: int -> Traits, direct: bool, e: Event): int {
    match e
    case Wait => 0
    case On(fd, call) => if fd in s then Step(s[fd], traits(fd), direct, call).1 else 0
  }

  function Run(s: State, traits: int -> Traits, direct: bool, events: seq<Event>): (State, seq<int>) {
    if events == [] then (s, [])
    else
      var rest := Run(Next(s, traits, direct, events[0]), traits, direct, events[1..]);
      (rest.0, [Result(s, traits, direct, events[0])] + rest.1)
  }

  ghost predicate AgreeAll(d: State, e: State) {
    d.Keys == e.Keys && forall fd | fd in d :: Agree(d[fd], e[fd])
  }

  lemma NextAgrees(d: State, e: State, traits: int -> Traits, ev: Event)
    requires AgreeAll(d, e)
    ensures AgreeAll(Next(d, traits, false, ev), Next(e, traits, true, ev))
    ensures Result(d, traits, false, ev) == Result(e, traits, true, ev)
  {
    hide Step, Flush, Agree;
    match ev
    case Wait =>
      forall fd | fd in d ensures Agree(Flush(d[fd]), e[fd]) { FlushAgrees(d[fd], e[fd]); }
    case On(fd, call) =>
      if fd in d { StepAgrees(d[fd], e[fd], traits(fd), call); }
  }

  lemma {:induction false} RunAgrees(d: State, e: State, traits: int -> Traits, events: seq<Event>)
    requires AgreeAll(d, e)
    ensures AgreeAll(Run(d, traits, false, events).0, Run(e, traits, true, events).0)
    ensures Run(d, traits, false, events).1 == Run(e, traits, true, events).1
    decreases |events|
  {
    hide Next, Result, AgreeAll;
    if events != [] {
      NextAgrees(d, e, traits, events[0]);
      RunAgrees(Next(d, traits, false, events[0]), Next(e, traits, true, events[0]), traits, events[1..]);
    }
  }

  /** A file as nio_file_alloc makes it. */
  const FRESH := View(Unknown, NONE, IDLE, NoProc, NoProc, false)

  /** Deferred registration refines direct registration: for every interleaving of calls and waits over
      any set of files, every call returns the same, and after a last flush every file has the same
      interest set and the same callbacks as if each call had acted at once. */
  lemma DeferredRefinesDirect(fds: set<int>, traits: int -> Traits, events: seq<Event>)
    ensures var s: State := map fd | fd in fds :: FRESH;
            var d, e := Run(s, traits, false, events), Run(s, traits, true, events);
            && d.1 == e.1 && d.0.Keys == e.0.Keys == fds
            && forall fd | fd in fds ::
                 var v, w := FlushAll(d.0)[fd], e.0[fd];
                 v.mask == w.mask && v.rProc == w.rProc && v.wProc == w.wProc && v.kind == w.kind
                 && v.oper == IDLE && !v.linked
  {
    hide Run, Flush;
    var s: State := map fd | fd in fds :: FRESH;
    RunAgrees(s, s, traits, events);
    RunKeys(s, traits, true, events);
    var d, e := Run(s, traits, false, events), Run(s, traits, true, events);
    assert d.0.Keys == e.0.Keys == fds;
    forall fd | fd in fds ensures Agree(FlushAll(d.0)[fd], e.0[fd]) && Flush(d.0[fd]).mask == e.0[fd].mask
                                  && Flush(d.0[fd]).oper == IDLE && !Flush(d.0[fd]).linked {
      FlushAgrees(d.0[fd], e.0[fd]);
    }
  }

  lemma {:induction false} RunKeys(s: State, traits: int -> Traits, direct: bool, events: seq<Event>)
    ensures Run(s, traits, direct, events).0.Keys == s.Keys
    decreases |events|
  {
    hide Step, Flush;
    if events != [] { RunKeys(Next(s, traits, direct, events[0]), traits, direct, events[1..]); }
  }
}
