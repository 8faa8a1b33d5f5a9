/** The select back end: three descriptor sets, a dense table of files, and the largest descriptor. */
module NioSelect {
  import opened Registration
  import opened NioFile
  import opened Sizes

  class Select {
    var rset: set<int>
    var wset: set<int>
    var xset: set<int>
    const files: array<File?>
    var count: nat
    var maxfd: int
    var dirty: bool
    var fdcount: int
    /** While the maximum is known to be exact: a file that has it. */
    ghost var top: File?

    /** The table of files, where those in `extra` have a slot besides the registered ones. */
    ghost predicate Table(all: set<File>, extra: set<File>)
      reads `count, `fdcount, files, all`mask, all`id
    {
      && count <= files.Length && |all| <= files.Length && fdcount == count
      && (forall f <- all ::
            if f in extra || f.mask != NONE then 0 <= f.id < count && files[f.id] == f else f.id == -1)
      && (forall i {:trigger files[i]} | 0 <= i < count :: files[i] != null && files[i] in all && files[i].id == i)
    }

    /** The descriptor sets are the masks; the third set holds every registered descriptor. */
    ghost predicate Sets(all: set<File>)
      reads `rset, `wset, `xset, all`mask
    {
      && Distinct(all)
      && (forall f <- all :: (f.fd in rset <==> f.mask.r) && (f.fd in wset <==> f.mask.w))
      && rset + wset == xset <= Fds(all)
    }

    ghost predicate AtMost(all: set<File>)
      reads `maxfd, `dirty, `top, all`mask
    {
      && (forall f <- all :: 0 <= f.fd && (f.mask != NONE ==> f.fd <= maxfd))
      && (!dirty ==> if top == null then maxfd == -1 else top in all && top.mask != NONE && top.fd == maxfd)
    }

    ghost predicate Valid(all: set<File>)
      reads this, files, all`mask, all`id
    {
      Table(all, {}) && Sets(all) && AtMost(all)
    }

    constructor (size: nat, ghost all: set<File>)
      requires |all| <= size && Distinct(all) && forall f <- all :: f.mask == NONE && f.id == -1 && f.fd >= 0
      ensures Valid(all) && fresh(files)
    {
      rset, wset, xset := {}, {}, {};
      files := new File?[size](_ => null);
      count, maxfd, dirty, fdcount, top := 0, -1, false, 0, null;
    }

    method TakeSlot(fe: File, ghost all: set<File>)
      requires Table(all, {}) && fe in all && fe.mask == NONE
      modifies `count, `fdcount, files, fe`id
      ensures Table(all, {fe})
    {
      FreeSlot(fe, all);
      assert count < files.Length;
      files[count] := fe;
      fe.id := count;
      count := count + 1;
      fdcount := fdcount + 1;
    }

    /** A file without a slot gets the next one. */
    method Occupy(fe: File, ghost all: set<File>)
      requires Valid(all) && fe in all
      modifies `count, `fdcount, `xset, `maxfd, `top, files, fe`id
      ensures Table(all, {fe}) && xset == old(xset) + {fe.fd}
      ensures forall f <- all | f == fe || f.mask != NONE :: f.fd <= maxfd
      ensures !dirty ==> top != null && top in all && (top == fe || top.mask != NONE) && top.fd == maxfd
    {
      hide Distinct, Fds;
      OtherFds(fe, all);
      if fe.fd in wset || fe.fd in rset {
        assert 0 <= fe.id < count;
        assert files[fe.id] == fe;
      } else {
        TakeSlot(fe, all);
        xset := xset + {fe.fd};
        if fe.fd > maxfd {
          maxfd := fe.fd;
          top := fe;
        }
      }
    }

    method AddRead(fe: File, ghost all: set<File>) returns (ret: int)
      requires Valid(all) && fe in all
      modifies this, files, fe`id, fe`mask
      ensures Valid(all) && ret == 0 && fe.mask == Mask(true, old(fe.mask.w))
    {
      hide Distinct, Fds;
      OtherFds(fe, all);
      Occupy(fe, all);
      fe.mask := Mask(true, fe.mask.w);
      assert Table(all, {}) by { hide Sets, AtMost; }
      hide Table;
      rset := rset + {fe.fd};
      assert Sets(all) by { hide AtMost; }
      hide Sets;
      assert AtMost(all);
      hide AtMost;
      return 0;
    }

    method AddWrite(fe: File, ghost all: set<File>) returns (ret: int)
      requires Valid(all) && fe in all
      modifies this, files, fe`id, fe`mask
      ensures Valid(all) && ret == 0 && fe.mask == Mask(old(fe.mask.r), true)
    {
      hide Distinct, Fds;
      OtherFds(fe, all);
      Occupy(fe, all);
      fe.mask := Mask(fe.mask.r, true);
      assert Table(all, {}) by { hide Sets, AtMost; }
      hide Table;
      wset := wset + {fe.fd};
      assert Sets(all) by { hide AtMost; }
      hide Sets;
      assert AtMost(all);
      hide AtMost;
      return 0;
    }

    /** The last file of the table moves into the slot of `fe`. */
    method CloseHole(fe: File, ghost all: set<File>)
      requires Table(all, {fe}) && fe in all && fe.mask == NONE
      modifies `count, `fdcount, files, all`id
      ensures Table(all, {})
    {
      count := count - 1;
      if fe.id < count {
        files[fe.id] := files[count];
        files[fe.id].id := fe.id;
      }
      fe.id := -1;
      fdcount := fdcount - 1;
    }

    method Release(fe: File, ghost all: set<File>)
      requires Table(all, {fe}) && fe in all && fe.mask == NONE
      modifies `xset, `count, `dirty, `fdcount, files, all`id
      ensures Table(all, {}) && xset == old(xset) - {fe.fd}
      ensures dirty == (old(dirty) || fe.fd == maxfd)
    {
      hide Table;
      xset := xset - {fe.fd};
      CloseHole(fe, all);
      if fe.fd == maxfd {
        dirty := true;
      }
    }

    lemma KeepsSlot(fe: File, all: set<File>)
      requires Table(all, {fe}) && fe.mask != NONE
      ensures Table(all, {})
    {
    }

    method DelRead(fe: File, ghost all: set<File>) returns (ret: int)
      requires Valid(all) && fe in all && fe.mask != NONE
      modifies this, files, all`id, fe`mask
      ensures Valid(all) && ret == 0 && fe.mask == Mask(false, old(fe.mask.w))
    {
      hide Distinct, Fds;
      OtherFds(fe, all);
      assert 0 <= fe.id < count;
      rset := rset - {fe.fd};
      fe.mask := Mask(false, fe.mask.w);
      assert Table(all, {fe}) by { hide Sets, AtMost; }
      hide Table;
      if fe.fd !in wset {
        Release(fe, all);
      } else {
        KeepsSlot(fe, all);
      }
      assert Sets(all) by { hide AtMost; }
      assert AtMost(all) by { hide Sets; }
      hide Sets, AtMost;
      return 0;
    }

    method DelWrite(fe: File, ghost all: set<File>) returns (ret: int)
      requires Valid(all) && fe in all && fe.mask != NONE
      modifies this, files, all`id, fe`mask
      ensures Valid(all) && ret == 0 && fe.mask == Mask(old(fe.mask.r), false)
    {
      hide Distinct, Fds;
      OtherFds(fe, all);
      assert 0 <= fe.id < count;
      wset := wset - {fe.fd};
      fe.mask := Mask(fe.mask.r, false);
      assert Table(all, {fe}) by { hide Sets, AtMost; }
      hide Table;
      if fe.fd !in rset {
        Release(fe, all);
      } else {
        KeepsSlot(fe, all);
      }
      assert Sets(all) by { hide AtMost; }
      assert AtMost(all) by { hide Sets; }
      hide Sets, AtMost;
      return 0;
    }

    /** The recomputation in front of select(): the maximum is exact afterwards. */
    method Recompute(ghost all: set<File>)
      requires Valid(all)
      modifies `maxfd
      ensures Valid(all)
      ensures forall f <- all | f.mask != NONE :: f.fd <= maxfd
      ensures maxfd == -1 || exists f :: f in all && f.mask != NONE && f.fd == maxfd
    {
      hide Sets;
      if dirty {
        maxfd := -1;
        ghost var largest: File? := null;
        var i := 0;
        while i < count
          invariant i <= count && -1 <= maxfd && Table(all, {})
          invariant forall j {:trigger files[j]} | 0 <= j < i :: files[j].fd <= maxfd
          invariant if largest == null then maxfd == -1
                    else largest in all && largest.mask != NONE && largest.fd == maxfd
        {
          var fe := files[i];
          if fe.fd > maxfd {
            maxfd, largest := fe.fd, fe;
          }
          i := i + 1;
        }
      }
    }

    /** fdcount is the number of registered files. */
    lemma CountsRegistered(all: set<File>)
      requires Table(all, {})
      ensures fdcount == count == |Registered(all)|
    {
      var slots: seq<File?> := files[..count];
      DistinctSize(slots);
      assert Registered(all) == set f | f in slots by {
        forall f | f in Registered(all) ensures f in slots { assert slots[f.id] == f; }
      }
    }

    /** The table is not full as long as some file is not registered. */
    lemma FreeSlot(fe: File, all: set<File>)
      requires Table(all, {}) && fe in all && fe.mask == NONE
      ensures count < files.Length
    {
      CountsRegistered(all);
      assert Registered(all) < all;
      ProperSubsetSmaller(Registered(all), all);
    }
  }
}
