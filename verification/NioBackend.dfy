/** The function pointers of NIO_EVENT as a sum type over the four back ends. */
module NioBackend {
  import opened NioRing
  import opened Registration
  import opened NioFile
  import opened NioPoll
  import opened NioSelect
  import opened NioEpoll
  import opened NioKqueue

  datatype Backend =
    | PollRef(poll: Poll)
    | SelectRef(select: Select)
    | EpollRef(epoll: Epoll)
    | KqueueRef(kqueue: Kqueue)

  ghost function Frame(b: Backend): (s: set<object>)
    ensures forall o <- s :: !(o is Node) && !(o is File)
  {
    match b
    case PollRef(p) => {p, p.files, p.pfds}
    case SelectRef(s) => {s, s.files}
    case EpollRef(e) => {e}
    case KqueueRef(k) => {k, k.changes}
  }

  /** The slots, descriptor sets, interest list or filters of the back end are the masks of the files. */
  ghost predicate Valid(b: Backend, all: set<File>)
    reads Frame(b), all`mask, all`id
  {
    && Distinct(all)
    && match b
       case PollRef(p) => p.Valid(all)
       case SelectRef(s) => s.Valid(all)
       case EpollRef(e) => e.Valid(all)
       case KqueueRef(k) => k.Valid(all)
  }

  function FdCount(b: Backend): int
    reads Frame(b)
  {
    match b
    case PollRef(p) => p.fdcount
    case SelectRef(s) => s.fdcount
    case EpollRef(e) => e.fdcount
    case KqueueRef(k) => k.fdcount
  }

  /** Every back end counts the files with a non-empty mask. */
  lemma CountsRegistered(b: Backend, all: set<File>)
    requires Valid(b, all)
    ensures FdCount(b) == |Registered(all)|
  {
    match b
    case PollRef(p) => p.CountsRegistered(all);
    case SelectRef(s) => s.CountsRegistered(all);
    case EpollRef(e) => e.CountsRegistered(all);
    case KqueueRef(_) =>
  }

  /** The back end has a call for both directions. */
  predicate Both(b: Backend) {
    b.EpollRef?
  }

  /** No change waits to be handed to the kernel. */
  ghost predicate Flushed(b: Backend)
    reads Frame(b)
  {
    b.KqueueRef? ==> b.kqueue.nchanges == 0
  }

  // Every call is noted in the file it is made for.

  method AddRead(b: Backend, fe: File, ghost all: set<File>)
    requires Valid(b, all) && fe in all && !fe.mask.r
    modifies Frame(b), all`id, fe`mask, fe`calls
    ensures Valid(b, all) && fe.mask == Mask(true, old(fe.mask.w))
    ensures fe.calls == old(fe.calls) + [CallAddRead]
  {
    fe.calls := fe.calls + [CallAddRead];
    match b
    case PollRef(p) => var _ := p.AddRead(fe, all);
    case SelectRef(s) => var _ := s.AddRead(fe, all);
    case EpollRef(e) => var _ := e.AddRead(fe, all);
    case KqueueRef(k) => var _ := k.AddRead(fe, all);
  }

  method AddWrite(b: Backend, fe: File, ghost all: set<File>)
    requires Valid(b, all) && fe in all && !fe.mask.w
    modifies Frame(b), all`id, fe`mask, fe`calls
    ensures Valid(b, all) && fe.mask == Mask(old(fe.mask.r), true)
    ensures fe.calls == old(fe.calls) + [CallAddWrite]
  {
    fe.calls := fe.calls + [CallAddWrite];
    match b
    case PollRef(p) => var _ := p.AddWrite(fe, all);
    case SelectRef(s) => var _ := s.AddWrite(fe, all);
    case EpollRef(e) => var _ := e.AddWrite(fe, all);
    case KqueueRef(k) => var _ := k.AddWrite(fe, all);
  }

  method DelRead(b: Backend, fe: File, ghost all: set<File>)
    requires Valid(b, all) && fe in all && fe.mask.r
    modifies Frame(b), all`id, fe`mask, fe`calls
    ensures Valid(b, all) && fe.mask == Mask(false, old(fe.mask.w))
    ensures fe.calls == old(fe.calls) + [CallDelRead]
  {
    fe.calls := fe.calls + [CallDelRead];
    match b
    case PollRef(p) => var _ := p.DelRead(fe, all);
    case SelectRef(s) => var _ := s.DelRead(fe, all);
    case EpollRef(e) => var _ := e.DelRead(fe, all);
    case KqueueRef(k) => var _ := k.DelRead(fe, all);
  }

  method DelWrite(b: Backend, fe: File, ghost all: set<File>)
    requires Valid(b, all) && fe in all && fe.mask.w
    modifies Frame(b), all`id, fe`mask, fe`calls
    ensures Valid(b, all) && fe.mask == Mask(old(fe.mask.r), false)
    ensures fe.calls == old(fe.calls) + [CallDelWrite]
  {
    fe.calls := fe.calls + [CallDelWrite];
    match b
    case PollRef(p) => var _ := p.DelWrite(fe, all);
    case SelectRef(s) => var _ := s.DelWrite(fe, all);
    case EpollRef(e) => var _ := e.DelWrite(fe, all);
    case KqueueRef(k) => var _ := k.DelWrite(fe, all);
  }

  method DelReadWrite(b: Backend, fe: File, ghost all: set<File>)
    requires Valid(b, all) && fe in all && fe.mask != NONE && Both(b)
    modifies Frame(b), fe`mask, fe`calls
    ensures Valid(b, all) && fe.mask == NONE && fe.calls == old(fe.calls) + [CallDelReadWrite]
  {
    fe.calls := fe.calls + [CallDelReadWrite];
    var _ := b.epoll.DelReadWrite(fe, all);
  }

  /** event_fflush; only kqueue has one. */
  method Fflush(b: Backend, ghost all: set<File>)
    requires Valid(b, all)
    modifies Frame(b)
    ensures Valid(b, all) && Flushed(b)
  {
    match b
    case KqueueRef(k) => var _ := k.Fflush();
    case _ =>
  }
}
