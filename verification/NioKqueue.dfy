/** The kqueue back end: changes are collected and handed to the kernel in batches. */
module NioKqueue {
  import opened Registration
  import opened NioFile

  datatype Filter = ReadFilter | WriteFilter

  datatype Change = Change(fd: int, filter: Filter, add: bool)

  /** The descriptors with a registered filter of each kind. */
  datatype Filters = Filters(readers: set<int>, writers: set<int>)

  /** The filters of the kernel after one change. */
  function Apply(k: Filters, c: Change): Filters {
    match (c.filter, c.add)
    case (ReadFilter, true) => Filters(k.readers + {c.fd}, k.writers)
    case (ReadFilter, false) => Filters(k.readers - {c.fd}, k.writers)
    case (WriteFilter, true) => Filters(k.readers, k.writers + {c.fd})
    case (WriteFilter, false) => Filters(k.readers, k.writers - {c.fd})
  }

  predicate Has(k: Filters, c: Change) {
    c.fd in if c.filter.ReadFilter? then k.readers else k.writers
  }

  function ApplyAll(k: Filters, cs: seq<Change>): Filters {
    if cs == [] then k else Apply(ApplyAll(k, cs[..|cs| - 1]), cs[|cs| - 1])
  }

  /** EV_DELETE of a filter that does not exist is an error. */
  predicate Legal(k: Filters, cs: seq<Change>) {
    cs == [] ||
    (var c := cs[|cs| - 1];
     Legal(k, cs[..|cs| - 1]) && (!c.add ==> Has(ApplyAll(k, cs[..|cs| - 1]), c)))
  }

  lemma AppendEffect(k: Filters, cs: seq<Change>, c: Change)
    requires Legal(k, cs)
    ensures ApplyAll(k, cs + [c]) == Apply(ApplyAll(k, cs), c)
    ensures Legal(k, cs + [c]) <==> c.add || Has(ApplyAll(k, cs), c)
  {
    assert (cs + [c])[..|cs|] == cs;
  }

  class Kqueue {
    /** The filters the kernel knows. */
    var kernel: Filters
    const changes: array<Change>
    var nchanges: nat
    var fdcount: int

    /** What the kernel will know when it has seen the pending changes. */
    ghost function Effective(): Filters
      requires nchanges <= changes.Length
      reads `kernel, `nchanges, changes
    {
      ApplyAll(kernel, changes[..nchanges])
    }

    ghost predicate Batch()
      reads `kernel, `nchanges, changes
    {
      && 0 < changes.Length && nchanges <= changes.Length
      && Legal(kernel, changes[..nchanges])
    }

    /** The filters are the masks of the files. */
    static ghost predicate Masks(all: set<File>, k: Filters)
      reads all`mask
    {
      && (forall f <- all :: (f.fd in k.readers <==> f.mask.r) && (f.fd in k.writers <==> f.mask.w))
      && k.readers + k.writers <= Fds(all)
    }

    /** The kernel takes all pending changes, and then knows the masks. */
    ghost predicate Synced(all: set<File>)
      reads `kernel, `nchanges, changes, all`mask
    {
      Batch() && Distinct(all) && Masks(all, Effective())
    }

    ghost predicate Valid(all: set<File>)
      reads this, changes, all`mask
    {
      Synced(all) && fdcount == |Registered(all)|
    }

    constructor (size: int, ghost all: set<File>)
      requires Distinct(all) && forall f <- all :: f.mask == NONE
      ensures Valid(all) && nchanges == 0 && fresh(changes)
    {
      var n := if size <= 0 || size > 1024 then 1024 else size;
      kernel, nchanges, fdcount := Filters({}, {}), 0, 0;
      changes := new Change[n](_ => Change(0, ReadFilter, false));
      new;
      assert Registered(all) == {};
    }

    /** kqueue_fflush, and the hand-over in kqueue_wait: kevent() takes all pending changes in order. */
    method Fflush() returns (n: int)
      requires Batch()
      modifies `kernel, `nchanges
      ensures Batch() && nchanges == 0 && n == old(nchanges)
      ensures kernel == Effective() == old(Effective())
    {
      kernel := ApplyAll(kernel, changes[..nchanges]);
      n := nchanges;
      nchanges := 0;
    }

    /** Appends a change, after a flush when the buffer is full.  The kernel will refuse it exactly when it deletes a
        filter that does not exist. */
    method Append(c: Change)
      requires Batch()
      modifies `kernel, `nchanges, changes
      ensures 0 < nchanges <= changes.Length && Effective() == Apply(old(Effective()), c)
      ensures Batch() <==> c.add || Has(old(Effective()), c)
    {
      if nchanges >= changes.Length {
        var _ := Fflush();
      }
      ghost var before := changes[..nchanges];
      AppendEffect(kernel, before, c);
      hide ApplyAll, Legal, Has, Apply;
      changes[nchanges] := c;
      nchanges := nchanges + 1;
      assert changes[..nchanges] == before + [c];
    }

    /** The mask of one file and the count of registered files. */
    lemma Counts(fe: File, all: set<File>) returns (others: set<File>)
      requires fe in all
      ensures others == Registered(all - {fe})
      ensures |Registered(all)| == |others| + if fe.mask == NONE then 0 else 1
    {
      others := Registered(all - {fe});
      assert Registered(all) == if fe.mask == NONE then others else others + {fe};
    }

    /** Appends a change and sets the mask of its file to match. */
    method Note(c: Change, fe: File, ghost all: set<File>)
      requires Synced(all) && fe in all && c.fd == fe.fd
      modifies `kernel, `nchanges, changes, fe`mask
      ensures fe.mask == if c.filter.ReadFilter? then Mask(c.add, old(fe.mask.w)) else Mask(old(fe.mask.r), c.add)
      ensures nchanges <= changes.Length && Masks(all, Effective())
      ensures Batch() <==> c.add || if c.filter.ReadFilter? then old(fe.mask.r) else old(fe.mask.w)
    {
      hide ApplyAll, Legal, Distinct, Fds;
      OtherFds(fe, all);
      Append(c);
      fe.mask := if c.filter.ReadFilter? then Mask(c.add, fe.mask.w) else Mask(fe.mask.r, c.add);
    }

    /** The files stay counted right unless this one is registered for reading only, and is counted again. */
    method AddRead(fe: File, ghost all: set<File>) returns (ret: int)
      requires Valid(all) && fe in all
      modifies this, changes, fe`mask
      ensures ret == 0 && fe.mask == Mask(true, old(fe.mask.w)) && Synced(all)
      ensures Valid(all) <==> !old(fe.mask.r) || old(fe.mask.w)
    {
      hide ApplyAll, Legal, Distinct, Fds, Registered, Masks, Batch;
      ghost var others := Counts(fe, all);
      Note(Change(fe.fd, ReadFilter, true), fe, all);
      if !fe.mask.w {
        fdcount := fdcount + 1;
      }
      ghost var same := Counts(fe, all);
      assert same == others;
      return 0;
    }

    /** As for reading. */
    method AddWrite(fe: File, ghost all: set<File>) returns (ret: int)
      requires Valid(all) && fe in all
      modifies this, changes, fe`mask
      ensures ret == 0 && fe.mask == Mask(old(fe.mask.r), true) && Synced(all)
      ensures Valid(all) <==> !old(fe.mask.w) || old(fe.mask.r)
    {
      hide ApplyAll, Legal, Distinct, Fds, Registered, Masks, Batch;
      ghost var others := Counts(fe, all);
      Note(Change(fe.fd, WriteFilter, true), fe, all);
      if !fe.mask.r {
        fdcount := fdcount + 1;
      }
      ghost var same := Counts(fe, all);
      assert same == others;
      return 0;
    }

    /** The kernel will refuse the change exactly when the file is not registered for reading. */
    method DelRead(fe: File, ghost all: set<File>) returns (ret: int)
      requires Valid(all) && fe in all
      modifies this, changes, fe`mask
      ensures ret == 0 && fe.mask == Mask(false, old(fe.mask.w))
      ensures Valid(all) <==> old(fe.mask.r)
    {
      hide ApplyAll, Legal, Distinct, Fds, Registered, Masks, Batch;
      ghost var others := Counts(fe, all);
      Note(Change(fe.fd, ReadFilter, false), fe, all);
      if !fe.mask.w {
        fdcount := fdcount - 1;
      }
      ghost var same := Counts(fe, all);
      assert same == others;
      return 0;
    }

    /** As for reading. */
    method DelWrite(fe: File, ghost all: set<File>) returns (ret: int)
      requires Valid(all) && fe in all
      modifies this, changes, fe`mask
      ensures ret == 0 && fe.mask == Mask(old(fe.mask.r), false)
      ensures Valid(all) <==> old(fe.mask.w)
    {
      hide ApplyAll, Legal, Distinct, Fds, Registered, Masks, Batch;
      ghost var others := Counts(fe, all);
      Note(Change(fe.fd, WriteFilter, false), fe, all);
      if !fe.mask.r {
        fdcount := fdcount - 1;
      }
      ghost var same := Counts(fe, all);
      assert same == others;
      return 0;
    }

    /** Without pending changes, the kernel watches exactly what the masks say; a file that nio_event_del_readwrite has
        just been called for has nothing registered or pending. */
    lemma NothingPending(all: set<File>)
      requires Valid(all) && nchanges == 0
      ensures forall f <- all :: (f.fd in kernel.readers <==> f.mask.r) && (f.fd in kernel.writers <==> f.mask.w)
    {
      assert changes[..nchanges] == [];
    }
  }
}
