/** Whole runs of an engine: registration calls for any of its files, with waits in between. */
module NioRun {
  import opened Registration
  import opened Batching
  import opened History
  import opened NioFile
  import opened NioEvent
  import B = NioBackend

  type Table = map<int, File>

  /** The files of an engine by their descriptors. */
  ghost predicate Serves(engine: Engine, table: Table) {
    table.Values == engine.files && forall fd <- table :: table[fd].fd == fd
  }

  ghost function Views(table: Table): State
    reads table.Values, set f | f in table.Values :: f.me
  {
    map fd | fd in table :: table[fd].View()
  }

  ghost function Features(engine: Engine, table: Table): int -> Traits {
    fd => if fd in table then engine.TraitsOf(table[fd]) else Traits(false, false)
  }

  /** One call for a file. */
  method Perform(engine: Engine, fe: File, call: Call) returns (ret: int)
    requires engine.Valid() && fe in engine.files
    modifies engine.Nodes(), engine.files`id, B.Frame(engine.backend)
    modifies fe`kind, fe`oper, fe`mask, fe`rProc, fe`wProc, fe`calls
    ensures engine.Valid()
    ensures (fe.View(), ret) == Step(old(fe.View()), engine.TraitsOf(fe), engine.direct, call)
    ensures fe.calls == old(fe.calls) + engine.CallsOf(fe, old(fe.View()), call)
    ensures forall f <- engine.files | f != fe :: f.View() == old(f.View())
  {
    hide engine.Valid;
    ret := 0;
    match call
    case AddRead(proc) => ret := engine.AddRead(fe, proc);
    case AddWrite(proc) => ret := engine.AddWrite(fe, proc);
    case DelRead => engine.DelRead(fe);
    case DelWrite => engine.DelWrite(fe);
    case DelReadWrite => engine.DelReadWrite(fe);
  }

  /** In direct mode there is nothing to flush. */
  lemma NothingToFlush(engine: Engine, table: Table)
    requires engine.Valid() && engine.direct && Serves(engine, table)
    ensures FlushAll(Views(table)) == Views(table)
    ensures forall fd <- table :: FlushCalls(table[fd].View()) == []
  {
    engine.NoneLinked();
    forall fd <- table ensures Flush(table[fd].View()) == table[fd].View() && FlushCalls(table[fd].View()) == [] {
      assert table[fd] in engine.files;
    }
  }

  method HandleWait(engine: Engine, table: Table)
    requires engine.Valid() && Serves(engine, table)
    modifies engine.Nodes(), engine.files, B.Frame(engine.backend)
    ensures engine.Valid()
    ensures Views(table) == FlushAll(old(Views(table)))
    ensures forall fd <- table :: table[fd].calls == old(table[fd].calls) + FlushCalls(old(table[fd].View()))
  {
    hide engine.Valid, Flush, FlushCalls;
    assert forall fd <- table :: table[fd] in engine.files;
    engine.Prepare();
  }

  method HandleCall(engine: Engine, table: Table, fd: int, call: Call) returns (ret: int)
    requires engine.Valid() && Serves(engine, table) && fd in table
    modifies engine.Nodes(), engine.files, B.Frame(engine.backend)
    ensures engine.Valid()
    ensures var (v, r) := Step(old(table[fd].View()), engine.TraitsOf(table[fd]), engine.direct, call);
            Views(table) == old(Views(table))[fd := v] && ret == r
    ensures table[fd].calls == old(table[fd].calls) + engine.CallsOf(table[fd], old(table[fd].View()), call)
    ensures forall g <- table | g != fd :: table[g].calls == old(table[g].calls)
  {
    hide engine.Valid, Step, StepCalls;
    assert forall g <- table | g != fd :: table[g] != table[fd];
    ret := Perform(engine, table[fd], call);
  }

  /** One event of a run.  A call for an unknown descriptor does nothing. */
  method Handle(engine: Engine, table: Table, e: Event) returns (ret: int)
    requires engine.Valid() && Serves(engine, table)
    modifies engine.Nodes(), engine.files, B.Frame(engine.backend)
    ensures engine.Valid()
    ensures Views(table) == Next(old(Views(table)), Features(engine, table), engine.direct, e)
    ensures ret == Result(old(Views(table)), Features(engine, table), engine.direct, e)
    ensures forall fd <- table ::
              table[fd].calls == old(table[fd].calls)
                + EventCalls(old(Views(table)), Features(engine, table), engine.direct, B.Both(engine.backend), e, fd)
  {
    hide Step, FlushAll, StepCalls, FlushCalls, engine.Valid;
    ret := 0;
    match e
    case Wait =>
      if engine.direct { NothingToFlush(engine, table); }
      HandleWait(engine, table);
    case On(fd, call) =>
      if fd in table {
        ret := HandleCall(engine, table, fd, call);
      }
  }

  predicate Adds(c: Call) {
    c.AddRead? || c.AddWrite?
  }

  /** A file can be waited for. */
  predicate Eligible(engine: Engine, fe: File) {
    fe.fd < engine.setsize && fe.socket
  }

  /** The callbacks and the mask of a file follow from the calls for it; in deferred mode the mask is that of the last
      wait. */
  predicate Follows(v: View, eligible: bool, direct: bool, events: seq<Event>, fd: int) {
    var past := if direct then events else UntilWait(events, fd);
    if eligible then
      && v.rProc == Reader(events, fd) && v.wProc == Writer(events, fd)
      && v.mask == Mask(Reads(past, fd), Writes(past, fd))
    else v.rProc == v.wProc == NoProc && v.mask == NONE
  }

  /** What a program may expect of the calls it has made, read off their list: what each returned, and for every file
      its callbacks and the descriptors that are waited for. */
  ghost predicate Answers(engine: Engine, table: Table, events: seq<Event>, results: seq<int>)
    reads table.Values, set f | f in table.Values :: f.me
  {
    && |results| == |events|
    && (forall i | 0 <= i < |events| ::
          results[i] == if events[i].On? && Adds(events[i].call) && events[i].fd in table
                           && Eligible(engine, table[events[i].fd]) then 1 else 0)
    && forall fd <- table ::
         Follows(table[fd].View(), Eligible(engine, table[fd]), engine.direct, events, fd)
  }

  lemma FreshAnswers(engine: Engine, table: Table, traits: int -> Traits, events: seq<Event>, results: seq<int>)
    requires Serves(engine, table) && forall fd <- table :: traits(fd) == engine.TraitsOf(table[fd])
    requires Views(table) == Run(Fresh(table.Keys), traits, engine.direct, events).0
    requires results == Run(Fresh(table.Keys), traits, engine.direct, events).1
    ensures Answers(engine, table, events, results)
  {
    hide Run, Reader, Writer, Reads, Writes, UntilWait, Checked;
    ResultsOfRun(table.Keys, traits, engine.direct, events);
    forall fd <- table
      ensures Follows(table[fd].View(), Eligible(engine, table[fd]), engine.direct, events, fd)
    {
      CallbacksOfRun(table.Keys, traits, engine.direct, events, fd);
      if engine.direct {
        DirectMasks(table.Keys, traits, events, fd);
      } else {
        DeferredMasks(table.Keys, traits, events, fd);
      }
    }
  }

  lemma FeaturesOf(engine: Engine, table: Table)
    ensures forall fd <- table :: Features(engine, table)(fd) == engine.TraitsOf(table[fd])
  {
  }

  /** A run: all results, all views and all back-end calls are those of the run on values. */
  method Execute(engine: Engine, table: Table, events: seq<Event>) returns (results: seq<int>)
    requires engine.Valid() && Serves(engine, table)
    modifies engine.Nodes(), engine.files, B.Frame(engine.backend)
    ensures engine.Valid()
    ensures Views(table) == Run(old(Views(table)), Features(engine, table), engine.direct, events).0
    ensures results == Run(old(Views(table)), Features(engine, table), engine.direct, events).1
    ensures forall fd <- table ::
              table[fd].calls == old(table[fd].calls)
                + RunCalls(old(Views(table)), Features(engine, table), engine.direct, B.Both(engine.backend), events,
                           fd)
    ensures old(Views(table)) == Fresh(table.Keys) ==> Answers(engine, table, events, results)
  {
    hide Answers, Fresh, Serves, Next, Result, EventCalls, Features, engine.Valid;
    ghost var traits, both := Features(engine, table), B.Both(engine.backend);
    FeaturesOf(engine, table);
    results := [];
    var i := 0;
    assert events[0..] == events;
    while i < |events|
      invariant 0 <= i <= |events| && engine.Valid()
      invariant Run(old(Views(table)), traits, engine.direct, events).0
             == Run(Views(table), traits, engine.direct, events[i..]).0
      invariant Run(old(Views(table)), traits, engine.direct, events).1
             == results + Run(Views(table), traits, engine.direct, events[i..]).1
      invariant forall fd <- table ::
                  old(table[fd].calls) + RunCalls(old(Views(table)), traits, engine.direct, both, events, fd)
                  == table[fd].calls + RunCalls(Views(table), traits, engine.direct, both, events[i..], fd)
    {
      assert events[i..][1..] == events[i + 1..];
      var r := Handle(engine, table, events[i]);
      results := results + [r];
      i := i + 1;
    }
    assert events[i..] == [];
    if old(Views(table)) == Fresh(table.Keys) {
      FreshAnswers(engine, table, traits, events, results);
    }
  }
}
