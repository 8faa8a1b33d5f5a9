/** The epoll back end against the interest list of the kernel. */
module NioEpoll {
  import opened Registration
  import opened NioFile

  datatype Ctl = CtlAdd | CtlMod | CtlDel

  class Epoll {
    /** The interest list that the kernel keeps for the epoll descriptor. */
    var kernel: map<int, Mask>
    var fdcount: int

    /** The kernel knows the masks of the files, and nothing else. */
    ghost predicate Synced(all: set<File>)
      reads `kernel, `fdcount, all`mask
    {
      && (forall f <- all :: f.fd in kernel <==> f.mask != NONE)
      && (forall f <- all | f.mask != NONE :: kernel[f.fd] == f.mask)
      && kernel.Keys <= Fds(all) && fdcount == |kernel|
    }

    ghost predicate Valid(all: set<File>)
      reads this, all`mask
    {
      Distinct(all) && Synced(all)
    }

    constructor (ghost all: set<File>)
      requires Distinct(all) && forall f <- all :: f.mask == NONE
      ensures Valid(all)
    {
      kernel, fdcount := map[], 0;
    }

    /** epoll_ctl: fails when it adds what is there, or changes or removes what is not. */
    method EpollCtl(op: Ctl, fd: int, events: Mask) returns (ok: bool)
      modifies `kernel
      ensures ok == (if op.CtlAdd? then fd !in old(kernel) else fd in old(kernel))
      ensures kernel == if !ok then old(kernel)
                        else if op.CtlDel? then old(kernel) - {fd} else old(kernel)[fd := events]
    {
      ok := if op.CtlAdd? then fd !in kernel else fd in kernel;
      if ok {
        kernel := if op.CtlDel? then kernel - {fd} else kernel[fd := events];
      }
    }

    /** No call to the kernel fails: ADD is chosen for a descriptor that is new to it, MOD otherwise. */
    method AddRead(fe: File, ghost all: set<File>) returns (ret: int)
      requires Valid(all) && fe in all
      modifies this, fe`mask
      ensures Valid(all) && ret == 0 && fe.mask == Mask(true, old(fe.mask.w))
    {
      hide Distinct, Fds;
      OtherFds(fe, all);
      var events, op, n := Mask(true, false), CtlAdd, 1;
      if fe.mask.w {
        events, op, n := Mask(true, true), CtlMod, 0;
      } else if fe.mask.r {
        op, n := CtlMod, 0;
      }
      var ok := EpollCtl(op, fe.fd, events);
      assert ok;
      ret := -1;
      if ok {
        fe.mask := Mask(true, fe.mask.w);
        fdcount := fdcount + n;
        ret := 0;
      }
    }

    method AddWrite(fe: File, ghost all: set<File>) returns (ret: int)
      requires Valid(all) && fe in all
      modifies this, fe`mask
      ensures Valid(all) && ret == 0 && fe.mask == Mask(old(fe.mask.r), true)
    {
      hide Distinct, Fds;
      OtherFds(fe, all);
      var events, op, n := Mask(false, true), CtlAdd, 1;
      if fe.mask.r {
        events, op, n := Mask(true, true), CtlMod, 0;
      } else if fe.mask.w {
        op, n := CtlMod, 0;
      }
      var ok := EpollCtl(op, fe.fd, events);
      assert ok;
      ret := -1;
      if ok {
        fe.mask := Mask(fe.mask.r, true);
        fdcount := fdcount + n;
        ret := 0;
      }
    }

    /** A file that is registered for nothing is unknown to the kernel, whose refusal is returned. */
    method DelRead(fe: File, ghost all: set<File>) returns (ret: int)
      requires Valid(all) && fe in all
      modifies this, fe`mask
      ensures Valid(all) && ret == (if old(fe.mask) != NONE then 0 else -1) && fe.mask == Mask(false, old(fe.mask.w))
    {
      hide Distinct, Fds;
      OtherFds(fe, all);
      assert fe.fd in kernel <==> fe.mask != NONE;
      fe.mask := Mask(false, fe.mask.w);
      var events, op, n := NONE, CtlDel, -1;
      if fe.mask.w {
        events, op, n := Mask(false, true), CtlMod, 0;
      }
      var ok := EpollCtl(op, fe.fd, events);
      ret := -1;
      if ok {
        fdcount := fdcount + n;
        ret := 0;
      }
    }

    method DelWrite(fe: File, ghost all: set<File>) returns (ret: int)
      requires Valid(all) && fe in all
      modifies this, fe`mask
      ensures Valid(all) && ret == (if old(fe.mask) != NONE then 0 else -1) && fe.mask == Mask(old(fe.mask.r), false)
    {
      hide Distinct, Fds;
      OtherFds(fe, all);
      assert fe.fd in kernel <==> fe.mask != NONE;
      fe.mask := Mask(fe.mask.r, false);
      var events, op, n := NONE, CtlDel, -1;
      if fe.mask.r {
        events, op, n := Mask(true, false), CtlMod, 0;
      }
      var ok := EpollCtl(op, fe.fd, events);
      ret := -1;
      if ok {
        fdcount := fdcount + n;
        ret := 0;
      }
    }

    method DelReadWrite(fe: File, ghost all: set<File>) returns (ret: int)
      requires Valid(all) && fe in all
      modifies this, fe`mask
      ensures Valid(all) && ret == (if old(fe.mask) != NONE then 0 else -1) && fe.mask == NONE
    {
      hide Distinct, Fds;
      OtherFds(fe, all);
      fe.mask := NONE;
      var ok := EpollCtl(CtlDel, fe.fd, NONE);
      ret := -1;
      if ok {
        fdcount := fdcount - 1;
        ret := 0;
      }
    }

    lemma CountsRegistered(all: set<File>)
      requires Valid(all)
      ensures fdcount == |Registered(all)|
    {
      FdsSize(Registered(all));
      assert kernel.Keys == Fds(Registered(all));
    }
  }
}
