/** nio_event.c: registration of files, at once or at the next wait. */
module NioEvent {
  import opened Sequences
  import opened NioRing
  import opened Registration
  import opened NioFile
  import B = NioBackend

  class Engine {
    const events: Node
    const backend: B.Backend
    const direct: bool
    const setsize: nat
    /** The files that may be passed to the functions. */
    ghost const files: set<File>

    /** The head of the ring and the nodes of all files. */
    ghost function Nodes(): (s: set<object>)
      ensures forall o <- s :: o is Node
    {
      (set f | f in files :: f.me as object) + {events}
    }

    /** The ring of the engine holds exactly the linked files. */
    ghost predicate Queue()
      reads Nodes()
    {
      && (forall f <- files :: f.me != events)
      && (forall n <- events.entries :: n in Nodes())
      && events.Ring()
      && (forall f <- files :: f.me.appl == f && f.me.entries == [])
      && (forall f <- files :: if f.me.parent == f.me then f.me.Unlinked() else f.me in events.entries)
    }

    ghost predicate Valid()
      reads Nodes(), files, B.Frame(backend)
    {
      && Queue() && B.Valid(backend, files)
      && (direct ==> events.entries == []) && InOrder()
    }

    /** In deferred mode, the pending work of every file is in order. */
    ghost predicate InOrder()
      reads files, Nodes()
    {
      !direct ==> forall f <- files :: Pending(f.View())
    }

    ghost function TraitsOf(f: File): Traits {
      Traits(f.fd < setsize, f.socket)
    }

    constructor (backend: B.Backend, direct: bool, setsize: nat, ghost files: set<File>)
      requires B.Valid(backend, files) && forall f <- files :: f.View() == FRESH && f.me.Unlinked() && f.me.appl == f
      ensures Valid() && fresh(events)
      ensures this.backend == backend && this.direct == direct && this.setsize == setsize && this.files == files
    {
      events := new Node();
      this.backend, this.direct, this.setsize, this.files := backend, direct, setsize, files;
    }

    /** Puts a file at the end of the ring, unless it is on the ring. */
    method Enqueue(fe: File)
      requires Queue() && fe in files
      modifies Nodes()
      ensures Queue() && fe.Linked()
      ensures events.entries == if old(fe.Linked()) then old(events.entries) else old(events.entries) + [fe.me]
      ensures forall f <- files | f != fe :: f.Linked() == old(f.Linked())
    {
      if fe.me.parent == fe.me {
        events.Prepend(fe.me);
      }
    }

    method StartRead(fe: File)
      requires Queue() && B.Valid(backend, files) && fe in files && !fe.mask.r && (direct ==> events.entries == [])
      modifies Nodes(), files`id, fe`mask, fe`calls, B.Frame(backend)
      ensures Queue() && B.Valid(backend, files) && (direct ==> events.entries == [])
      ensures fe.mask == if direct then Mask(true, old(fe.mask.w)) else old(fe.mask)
      ensures fe.calls == old(fe.calls) + If(direct, CallAddRead)
      ensures fe.Linked() == (old(fe.Linked()) || !direct)
      ensures forall f <- files | f != fe :: f.Linked() == old(f.Linked())
    {
      hide Queue, B.Valid;
      if direct {
        B.AddRead(backend, fe, files);
      } else {
        Enqueue(fe);
      }
    }

    method StartWrite(fe: File)
      requires Queue() && B.Valid(backend, files) && fe in files && !fe.mask.w && (direct ==> events.entries == [])
      modifies Nodes(), files`id, fe`mask, fe`calls, B.Frame(backend)
      ensures Queue() && B.Valid(backend, files) && (direct ==> events.entries == [])
      ensures fe.mask == if direct then Mask(old(fe.mask.r), true) else old(fe.mask)
      ensures fe.calls == old(fe.calls) + If(direct, CallAddWrite)
      ensures fe.Linked() == (old(fe.Linked()) || !direct)
      ensures forall f <- files | f != fe :: f.Linked() == old(f.Linked())
    {
      hide Queue, B.Valid;
      if direct {
        B.AddWrite(backend, fe, files);
      } else {
        Enqueue(fe);
      }
    }

    method StopRead(fe: File)
      requires Queue() && B.Valid(backend, files) && fe in files && fe.mask.r && (direct ==> events.entries == [])
      modifies Nodes(), files`id, fe`mask, fe`calls, B.Frame(backend)
      ensures Queue() && B.Valid(backend, files) && (direct ==> events.entries == [])
      ensures fe.mask == if direct then Mask(false, old(fe.mask.w)) else old(fe.mask)
      ensures fe.calls == old(fe.calls) + If(direct, CallDelRead)
      ensures fe.Linked() == (old(fe.Linked()) || !direct)
      ensures forall f <- files | f != fe :: f.Linked() == old(f.Linked())
    {
      hide Queue, B.Valid;
      if direct {
        B.DelRead(backend, fe, files);
      } else {
        Enqueue(fe);
      }
    }

    method StopWrite(fe: File)
      requires Queue() && B.Valid(backend, files) && fe in files && fe.mask.w && (direct ==> events.entries == [])
      modifies Nodes(), files`id, fe`mask, fe`calls, B.Frame(backend)
      ensures Queue() && B.Valid(backend, files) && (direct ==> events.entries == [])
      ensures fe.mask == if direct then Mask(old(fe.mask.r), false) else old(fe.mask)
      ensures fe.calls == old(fe.calls) + If(direct, CallDelWrite)
      ensures fe.Linked() == (old(fe.Linked()) || !direct)
      ensures forall f <- files | f != fe :: f.Linked() == old(f.Linked())
    {
      hide Queue, B.Valid;
      if direct {
        B.DelWrite(backend, fe, files);
      } else {
        Enqueue(fe);
      }
    }

    /** What a registration call makes the back end do for a file. */
    ghost function CallsOf(f: File, v: View, c: Call): seq<BackendCall> {
      StepCalls(v, TraitsOf(f), direct, B.Both(backend), c)
    }

    /** checkfd is asked the first time that a file is registered. */
    method CheckOnce(fe: File) returns (ok: bool)
      requires fe.kind != NotSocket
      modifies fe`kind
      ensures fe.kind == KindAfterCheck(old(fe.View()), TraitsOf(fe)) && ok == (fe.kind == Socket)
    {
      if fe.kind == Unknown {
        if !fe.socket {
          fe.kind := NotSocket;
          return false;
        }
        fe.kind := Socket;
      }
      return true;
    }

    method AskRead(fe: File)
      requires Queue() && B.Valid(backend, files) && fe in files && !fe.mask.r && (direct ==> events.entries == [])
      modifies Nodes(), files`id, fe`oper, fe`mask, fe`calls, B.Frame(backend)
      ensures Queue() && B.Valid(backend, files) && (direct ==> events.entries == [])
      ensures fe.View() == Registration.AskRead(old(fe.View()), direct)
      ensures fe.calls == old(fe.calls) + If(direct, CallAddRead)
      ensures forall f <- files | f != fe :: f.Linked() == old(f.Linked())
    {
      hide Queue, B.Valid;
      StartRead(fe);
      fe.oper := fe.oper.(addR := true);
    }

    method RequestRead(fe: File) returns (ok: bool)
      requires Queue() && B.Valid(backend, files) && fe in files && fe.kind != NotSocket
      requires direct ==> events.entries == []
      modifies Nodes(), files`id, fe`kind, fe`oper, fe`mask, fe`calls, B.Frame(backend)
      ensures Queue() && B.Valid(backend, files) && (direct ==> events.entries == [])
      ensures (fe.View(), ok) == Registration.RequestRead(old(fe.View()), TraitsOf(fe), direct)
      ensures fe.calls == old(fe.calls) + If(direct && ok && !old(fe.mask.r), CallAddRead)
      ensures forall f <- files | f != fe :: f.Linked() == old(f.Linked())
    {
      hide Queue, B.Valid, Registration.AskRead;
      if fe.oper.delR {
        fe.oper := fe.oper.(delR := false);
      }
      if !fe.mask.r {
        var socket := CheckOnce(fe);
        if !socket {
          return false;
        }
        AskRead(fe);
      }
      return true;
    }

    method RegisterRead(fe: File, proc: Proc) returns (ret: int)
      requires Queue() && B.Valid(backend, files) && fe in files && (direct ==> events.entries == [])
      modifies Nodes(), files`id, fe`kind, fe`oper, fe`mask, fe`rProc, fe`calls, B.Frame(backend)
      ensures Queue() && B.Valid(backend, files) && (direct ==> events.entries == [])
      ensures (fe.View(), ret) == DoAddRead(old(fe.View()), TraitsOf(fe), direct, proc)
      ensures fe.calls == old(fe.calls) + CallsOf(fe, old(fe.View()), Call.AddRead(proc))
      ensures forall f <- files | f != fe :: f.Linked() == old(f.Linked())
    {
      hide Queue, B.Valid, Registration.RequestRead;
      if fe.kind == NotSocket {
        return 0;
      }
      if fe.fd >= setsize {
        return 0;
      }
      RequestReadAsks(fe.View(), TraitsOf(fe), direct);
      var ok := RequestRead(fe);
      if !ok {
        return 0;
      }
      fe.rProc := proc;
      return 1;
    }

    /** nio_event_add_read. */
    method AddRead(fe: File, proc: Proc) returns (ret: int)
      requires Valid() && fe in files
      modifies Nodes(), files`id, fe`kind, fe`oper, fe`mask, fe`rProc, fe`calls, B.Frame(backend)
      ensures Valid()
      ensures (fe.View(), ret) == DoAddRead(old(fe.View()), TraitsOf(fe), direct, proc)
      ensures fe.calls == old(fe.calls) + CallsOf(fe, old(fe.View()), Call.AddRead(proc))
      ensures forall f <- files | f != fe :: f.View() == old(f.View())
    {
      hide Queue, B.Valid, Pending, DoAddRead, CallsOf;
      if !direct { StepPending(fe.View(), TraitsOf(fe), Call.AddRead(proc)); }
      ret := RegisterRead(fe, proc);
    }

    method AskWrite(fe: File)
      requires Queue() && B.Valid(backend, files) && fe in files && !fe.mask.w && (direct ==> events.entries == [])
      modifies Nodes(), files`id, fe`oper, fe`mask, fe`calls, B.Frame(backend)
      ensures Queue() && B.Valid(backend, files) && (direct ==> events.entries == [])
      ensures fe.View() == Registration.AskWrite(old(fe.View()), direct)
      ensures fe.calls == old(fe.calls) + If(direct, CallAddWrite)
      ensures forall f <- files | f != fe :: f.Linked() == old(f.Linked())
    {
      hide Queue, B.Valid;
      StartWrite(fe);
      fe.oper := fe.oper.(addW := true);
    }

    method RequestWrite(fe: File) returns (ok: bool)
      requires Queue() && B.Valid(backend, files) && fe in files && fe.kind != NotSocket
      requires direct ==> events.entries == []
      modifies Nodes(), files`id, fe`kind, fe`oper, fe`mask, fe`calls, B.Frame(backend)
      ensures Queue() && B.Valid(backend, files) && (direct ==> events.entries == [])
      ensures (fe.View(), ok) == Registration.RequestWrite(old(fe.View()), TraitsOf(fe), direct)
      ensures fe.calls == old(fe.calls) + If(direct && ok && !old(fe.mask.w), CallAddWrite)
      ensures forall f <- files | f != fe :: f.Linked() == old(f.Linked())
    {
      hide Queue, B.Valid, Registration.AskWrite;
      if fe.oper.delW {
        fe.oper := fe.oper.(delW := false);
      }
      if !fe.mask.w {
        var socket := CheckOnce(fe);
        if !socket {
          return false;
        }
        AskWrite(fe);
      }
      return true;
    }

    method RegisterWrite(fe: File, proc: Proc) returns (ret: int)
      requires Queue() && B.Valid(backend, files) && fe in files && (direct ==> events.entries == [])
      modifies Nodes(), files`id, fe`kind, fe`oper, fe`mask, fe`wProc, fe`calls, B.Frame(backend)
      ensures Queue() && B.Valid(backend, files) && (direct ==> events.entries == [])
      ensures (fe.View(), ret) == DoAddWrite(old(fe.View()), TraitsOf(fe), direct, proc)
      ensures fe.calls == old(fe.calls) + CallsOf(fe, old(fe.View()), Call.AddWrite(proc))
      ensures forall f <- files | f != fe :: f.Linked() == old(f.Linked())
    {
      hide Queue, B.Valid, Registration.RequestWrite;
      if fe.kind == NotSocket {
        return 0;
      }
      if fe.fd >= setsize {
        return 0;
      }
      RequestWriteAsks(fe.View(), TraitsOf(fe), direct);
      var ok := RequestWrite(fe);
      if !ok {
        return 0;
      }
      fe.wProc := proc;
      return 1;
    }

    /** nio_event_add_write. */
    method AddWrite(fe: File, proc: Proc) returns (ret: int)
      requires Valid() && fe in files
      modifies Nodes(), files`id, fe`kind, fe`oper, fe`mask, fe`wProc, fe`calls, B.Frame(backend)
      ensures Valid()
      ensures (fe.View(), ret) == DoAddWrite(old(fe.View()), TraitsOf(fe), direct, proc)
      ensures fe.calls == old(fe.calls) + CallsOf(fe, old(fe.View()), Call.AddWrite(proc))
      ensures forall f <- files | f != fe :: f.View() == old(f.View())
    {
      hide Queue, B.Valid, Pending, DoAddWrite, CallsOf;
      if !direct { StepPending(fe.View(), TraitsOf(fe), Call.AddWrite(proc)); }
      ret := RegisterWrite(fe, proc);
    }

    method ReleaseRead(fe: File)
      requires Queue() && B.Valid(backend, files) && fe in files && (direct ==> events.entries == [])
      modifies Nodes(), files`id, fe`oper, fe`mask, fe`rProc, fe`calls, B.Frame(backend)
      ensures Queue() && B.Valid(backend, files) && (direct ==> events.entries == [])
      ensures fe.View() == DoDelRead(old(fe.View()), direct)
      ensures fe.calls == old(fe.calls) + CallsOf(fe, old(fe.View()), Call.DelRead)
      ensures forall f <- files | f != fe :: f.Linked() == old(f.Linked())
    {
      hide Queue, B.Valid;
      if fe.oper.addR {
        fe.oper := fe.oper.(addR := false);
      }
      if fe.mask.r {
        StopRead(fe);
        if !direct {
          fe.oper := fe.oper.(delR := true);
        }
      }
      fe.rProc := NoProc;
    }

    /** nio_event_del_read. */
    method DelRead(fe: File)
      requires Valid() && fe in files
      modifies Nodes(), files`id, fe`oper, fe`mask, fe`rProc, fe`calls, B.Frame(backend)
      ensures Valid()
      ensures fe.View() == DoDelRead(old(fe.View()), direct)
      ensures fe.calls == old(fe.calls) + CallsOf(fe, old(fe.View()), Call.DelRead)
      ensures forall f <- files | f != fe :: f.View() == old(f.View())
    {
      hide Queue, B.Valid, Pending, DoDelRead, CallsOf;
      if !direct { StepPending(fe.View(), TraitsOf(fe), Call.DelRead); }
      ReleaseRead(fe);
    }

    method ReleaseWrite(fe: File)
      requires Queue() && B.Valid(backend, files) && fe in files && (direct ==> events.entries == [])
      modifies Nodes(), files`id, fe`oper, fe`mask, fe`wProc, fe`calls, B.Frame(backend)
      ensures Queue() && B.Valid(backend, files) && (direct ==> events.entries == [])
      ensures fe.View() == DoDelWrite(old(fe.View()), direct)
      ensures fe.calls == old(fe.calls) + CallsOf(fe, old(fe.View()), Call.DelWrite)
      ensures forall f <- files | f != fe :: f.Linked() == old(f.Linked())
    {
      hide Queue, B.Valid;
      if fe.oper.addW {
        fe.oper := fe.oper.(addW := false);
      }
      if fe.mask.w {
        StopWrite(fe);
        if !direct {
          fe.oper := fe.oper.(delW := true);
        }
      }
      fe.wProc := NoProc;
    }

    /** nio_event_del_write. */
    method DelWrite(fe: File)
      requires Valid() && fe in files
      modifies Nodes(), files`id, fe`oper, fe`mask, fe`wProc, fe`calls, B.Frame(backend)
      ensures Valid()
      ensures fe.View() == DoDelWrite(old(fe.View()), direct)
      ensures fe.calls == old(fe.calls) + CallsOf(fe, old(fe.View()), Call.DelWrite)
      ensures forall f <- files | f != fe :: f.View() == old(f.View())
    {
      hide Queue, B.Valid, Pending, DoDelWrite, CallsOf;
      if !direct { StepPending(fe.View(), TraitsOf(fe), Call.DelWrite); }
      ReleaseWrite(fe);
    }

    /** Both directions of a file, with one call where the back end has it. */
    method StopBoth(fe: File)
      requires B.Valid(backend, files) && fe in files
      modifies files`id, fe`mask, fe`calls, B.Frame(backend)
      ensures B.Valid(backend, files) && fe.mask == NONE
      ensures fe.calls == old(fe.calls) + StopCalls(old(fe.mask), B.Both(backend))
    {
      hide B.Valid;
      if B.Both(backend) {
        if fe.mask.r || fe.mask.w {
          B.DelReadWrite(backend, fe, files);
        }
      } else {
        if fe.mask.r {
          B.DelRead(backend, fe, files);
        }
        if fe.mask.w {
          B.DelWrite(backend, fe, files);
        }
      }
    }

    /** Takes a file that is on the ring off it. */
    method TakeOff(fe: File)
      requires Queue() && fe in files && fe.Linked()
      modifies Nodes()
      ensures Queue() && !fe.Linked() && fe.me !in events.entries
      ensures events.entries == Without(old(events.entries), fe.me) && |events.entries| < |old(events.entries)|
      ensures forall f <- files | f != fe :: f.View() == old(f.View())
    {
      LinkedOnce(fe);
      WithoutMembers(events.entries, fe.me);
      hide Without;
      fe.me.Detach();
    }

    /** Takes a file off the ring, if it is there. */
    method Dequeue(fe: File)
      requires Queue() && fe in files
      modifies Nodes()
      ensures Queue() && !fe.Linked() && fe.me !in events.entries
      ensures events.entries == if old(fe.Linked()) then Without(old(events.entries), fe.me) else old(events.entries)
      ensures old(fe.Linked()) ==> |events.entries| < |old(events.entries)|
      ensures forall f <- files | f != fe :: f.View() == old(f.View())
    {
      LinkedOnce(fe);
      hide Queue, Without;
      if fe.me.parent != fe.me {
        TakeOff(fe);
      }
    }

    /** A file is in the ring exactly if it is linked, and different files have different nodes. */
    lemma LinkedOnce(fe: File)
      requires Queue() && fe in files
      ensures forall f <- files :: f.Linked() <==> f.me in events.entries
      ensures forall f <- files | f != fe :: f.me != fe.me
      ensures fe.Linked() ==> fe.me.parent == events
    {
    }

    /** nio_event_del_readwrite: acts at once in both modes and forgets what is pending. */
    method DelReadWrite(fe: File)
      requires Valid() && fe in files
      modifies Nodes(), files`id, fe`oper, fe`mask, fe`calls, B.Frame(backend)
      ensures Valid() && B.Flushed(backend)
      ensures fe.View() == DoDelReadWrite(old(fe.View()))
      ensures fe.calls == old(fe.calls) + CallsOf(fe, old(fe.View()), Call.DelReadWrite)
      ensures forall f <- files | f != fe :: f.View() == old(f.View())
    {
      hide Queue, B.Valid, B.Flushed, Without, Pending;
      if !direct { StepPending(fe.View(), TraitsOf(fe), Call.DelReadWrite); }
      Forget(fe);
      B.Fflush(backend, files);
    }

    method Forget(fe: File)
      requires Valid() && fe in files
      modifies Nodes(), files`id, fe`oper, fe`mask, fe`calls, B.Frame(backend)
      ensures Queue() && B.Valid(backend, files) && (direct ==> events.entries == [])
      ensures fe.View() == DoDelReadWrite(old(fe.View()))
      ensures fe.calls == old(fe.calls) + StopCalls(old(fe.mask), B.Both(backend))
      ensures forall f <- files | f != fe :: f.View() == old(f.View())
    {
      hide Queue, B.Valid, Without;
      StopBoth(fe);
      Dequeue(fe);
      fe.oper := IDLE;
    }

    /** The pending work of one file. */
    method FlushFile(fe: File)
      requires B.Valid(backend, files) && fe in files && fe.Linked() && Pending(fe.View())
      modifies files`id, fe`mask, fe`calls, B.Frame(backend)
      ensures B.Valid(backend, files) && fe.mask == Desired(old(fe.View()))
      ensures fe.calls == old(fe.calls) + FlushCalls(old(fe.View()))
    {
      hide B.Valid;
      if fe.oper.delR {
        B.DelRead(backend, fe, files);
      }
      if fe.oper.delW {
        B.DelWrite(backend, fe, files);
      }
      if fe.oper.addR {
        B.AddRead(backend, fe, files);
      }
      if fe.oper.addW {
        B.AddWrite(backend, fe, files);
      }
    }

    /** nio_ring_first and nio_ring_to_appl: the file at the head of the ring. */
    function FirstFile(): (fe: File?)
      requires Queue()
      reads Nodes()
      ensures if events.entries == [] then fe == null
              else fe != null && fe in files && fe.me == events.entries[0] && fe.Linked()
    {
      var next := events.First();
      if next == null then null
      else
        FirstIsFile();
        next.appl as File
    }

    lemma FirstIsFile()
      requires Queue() && events.entries != []
      ensures var next := events.entries[0];
              next.appl is File && (next.appl as File) in files && (next.appl as File).me == next && next.parent != next
    {
      var next := events.entries[0];
      assert next in Nodes();
      var f :| f in files && f.me == next;
    }

    /** One round of nio_event_prepare: the pending work of one file, and off the ring with it. */
    method FlushOne(fe: File)
      requires Queue() && B.Valid(backend, files) && fe in files && fe.Linked() && Pending(fe.View())
      modifies Nodes(), files`id, fe`mask, fe`oper, fe`calls, B.Frame(backend)
      ensures Queue() && B.Valid(backend, files)
      ensures events.entries == Without(old(events.entries), fe.me) && |events.entries| < |old(events.entries)|
      ensures fe.View() == Flush(old(fe.View())) && !fe.Linked() && Pending(fe.View())
      ensures fe.calls == old(fe.calls) + FlushCalls(old(fe.View()))
      ensures forall f <- files | f != fe :: f.View() == old(f.View())
    {
      hide Queue, B.Valid, Without, Pending;
      FlushPending(fe.View());
      FlushFile(fe);
      Dequeue(fe);
      fe.oper := IDLE;
    }

    /** Every file is as in `v`, with the calls in `log`, or flushed if it is no longer on the ring. */
    ghost predicate Flushing(v: map<File, View>, log: map<File, seq<BackendCall>>)
      reads files, Nodes()
    {
      && v.Keys == log.Keys == files && InOrder()
      && (forall f <- files :: f.View() == if f.Linked() then v[f] else Flush(v[f]))
      && (forall f <- files :: f.calls == if f.Linked() then log[f] else log[f] + FlushCalls(v[f]))
    }

    method Round(fe: File, ghost v: map<File, View>, ghost log: map<File, seq<BackendCall>>)
      requires Queue() && B.Valid(backend, files) && Flushing(v, log) && !direct && fe in files && fe.Linked()
      modifies Nodes(), files`id, fe`mask, fe`oper, fe`calls, B.Frame(backend)
      ensures Queue() && B.Valid(backend, files) && Flushing(v, log) && |events.entries| < |old(events.entries)|
    {
      hide Queue, B.Valid, Pending, Flush, FlushCalls, Without;
      FlushOne(fe);
    }

    /** nio_event_prepare: the back end gets all that is pending, and the ring is empty afterwards.  A file that was
        not on the ring gets no call, and one that was gets those of FlushCalls. */
    method Prepare()
      requires Valid()
      modifies Nodes(), files`id, files`mask, files`oper, files`calls, B.Frame(backend)
      ensures Valid() && events.entries == []
      ensures forall f <- files :: f.View() == Flush(old(f.View()))
      ensures forall f <- files :: f.calls == old(f.calls) + FlushCalls(old(f.View()))
    {
      ghost var v := map f | f in files :: f.View();
      ghost var log := map f | f in files :: f.calls;
      SettledFiles();
      hide Queue, B.Valid, Pending, Flush, FlushCalls, InOrder;
      var fe := FirstFile();
      assert Flushing(v, log);
      while fe != null
        invariant Queue() && B.Valid(backend, files) && Flushing(v, log)
        invariant if fe == null then events.entries == [] else events.entries != [] && fe in files && fe.Linked()
        invariant direct ==> events.entries == []
        decreases |events.entries|
      {
        Round(fe, v, log);
        fe := FirstFile();
      }
      NoneLinked();
    }

    lemma SettledFiles()
      ensures forall f <- files | !f.Linked() ::
                Flush(f.View()) == f.View() && f.calls + FlushCalls(f.View()) == f.calls
    {
    }

    lemma NoneLinked()
      requires Queue() && events.entries == []
      ensures forall f <- files :: !f.Linked()
    {
    }
  }
}
