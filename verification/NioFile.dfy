/** NIO_FILE_: the record of a descriptor, and what all back ends have in common. */
module NioFile {
  import opened NioRing
  import opened Registration

  class File {
    const fd: int
    /** The outcome of checkfd: whether the descriptor can be waited for. */
    const socket: bool
    const me: Node
    var id: int
    var kind: Kind
    var oper: Oper
    var mask: Mask
    var rProc: Proc
    var wProc: Proc
    /** What the back end was asked to do for the file, in order. */
    ghost var calls: seq<BackendCall>

    constructor (fd: int, socket: bool)
      ensures this.fd == fd && this.socket == socket && id == -1 && View() == FRESH && calls == []
      ensures fresh(me) && me.Unlinked() && me.appl == this
    {
      this.fd, this.socket := fd, socket;
      me := new Node();
      id, kind, oper, mask, rProc, wProc := -1, Unknown, IDLE, NONE, NoProc, NoProc;
      calls := [];
      new;
      me.appl := this;
    }

    /** The file waits in the ring of the engine. */
    predicate Linked()
      reads me`parent
    {
      me.parent != me
    }

    function View(): View
      reads `kind, `mask, `oper, `rProc, `wProc, me`parent
    {
      Registration.View.View(kind, mask, oper, rProc, wProc, Linked())
    }
  }

  /** The files a back end serves have different descriptors. */
  ghost predicate Distinct(files: set<File>) {
    forall f, g | f in files && g in files && f.fd == g.fd :: f == g
  }

  /** Different files have different descriptors. */
  lemma {:induction false} FdsSize(files: set<File>)
    requires Distinct(files)
    ensures |Fds(files)| == |files|
    decreases |files|
  {
    if files != {} {
      var f :| f in files;
      var rest := files - {f};
      FdsSize(rest);
      assert files == rest + {f};
      assert Fds(files) == Fds(rest) + {f.fd};
    }
  }

  lemma OtherFds(fe: File, files: set<File>)
    requires fe in files && Distinct(files)
    ensures forall g <- files | g != fe :: g.fd != fe.fd
    ensures fe.fd in Fds(files)
  {
  }

  /** The files that are registered for anything. */
  ghost function Registered(files: set<File>): set<File>
    reads files`mask
  {
    set f | f in files && f.mask != NONE
  }

  ghost function Fds(files: set<File>): set<int> {
    set f | f in files :: f.fd
  }
}
