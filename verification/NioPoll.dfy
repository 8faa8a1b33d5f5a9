/** The poll back end: a dense table of slots; the last slot moves into one that becomes free. */
module NioPoll {
  import opened Registration
  import opened NioFile
  import opened Sizes

  datatype PollFd = PollFd(fd: int, events: Mask, revents: int)

  class Poll {
    const files: array<File?>
    const pfds: array<PollFd>
    var count: nat
    var fdcount: int

    /** The slot of a file shows its descriptor and its mask. */
    ghost predicate InSlot(f: File)
      reads this, files, pfds, f`id, f`mask
    {
      && 0 <= f.id < count <= files.Length == pfds.Length && files[f.id] == f
      && pfds[f.id].fd == f.fd && pfds[f.id].events == f.mask
    }

    /** The table when, besides the registered files, those in `extra` have a slot. */
    ghost predicate Table(all: set<File>, extra: set<File>)
      reads this, files, pfds, all`mask, all`id
    {
      && files.Length == pfds.Length && count <= files.Length && |all| <= files.Length
      && fdcount == count
      && (forall f <- all :: if f in extra || f.mask != NONE then InSlot(f) else f.id == -1)
      && (forall i {:trigger files[i]} | 0 <= i < count :: files[i] != null && files[i] in all && files[i].id == i)
      && (forall i {:trigger pfds[i]} | count <= i < pfds.Length :: pfds[i].events == NONE)
    }

    ghost predicate Valid(all: set<File>)
      reads this, files, pfds, all`mask, all`id
    {
      Table(all, {})
    }

    /** `size` is the limit on open descriptors. */
    constructor (size: nat, ghost all: set<File>)
      requires |all| <= size && forall f <- all :: f.mask == NONE && f.id == -1
      ensures Valid(all) && fresh(files) && fresh(pfds)
    {
      files := new File?[size](_ => null);
      pfds := new PollFd[size](_ => PollFd(0, NONE, 0));
      count, fdcount := 0, 0;
      new;
    }

    /** The slot of a file: the one it has, or the first free one. */
    method Occupy(fe: File, ghost all: set<File>)
      requires Table(all, {}) && fe in all
      modifies this, files, pfds, fe`id
      ensures Table(all, {fe})
      ensures forall g <- all | g != fe && g.mask != NONE :: g.id == old(g.id) && pfds[g.id] == old(pfds[g.id])
    {
      if fe.id == -1 {
        FreeSlot(fe, all);
        assert count < files.Length;
        fe.id := count;
        count := count + 1;
      }
      if pfds[fe.id].events.r || pfds[fe.id].events.w {
        assert files[fe.id] == fe;
      } else {
        pfds[fe.id] := PollFd(fe.fd, NONE, 0);
        files[fe.id] := fe;
        fdcount := fdcount + 1;
      }
    }

    /** A file that is in the table keeps its slot, a new one gets the first free slot. */
    method AddRead(fe: File, ghost all: set<File>) returns (ret: int)
      requires Valid(all) && fe in all
      modifies this, files, pfds, fe`id, fe`mask
      ensures Valid(all) && ret == 0 && fe.mask == Mask(true, old(fe.mask.w))
      ensures forall g <- all | g != fe && g.mask != NONE :: g.id == old(g.id) && pfds[g.id] == old(pfds[g.id])
    {
      Occupy(fe, all);
      fe.mask := Mask(true, fe.mask.w);
      pfds[fe.id] := PollFd(pfds[fe.id].fd, Mask(true, pfds[fe.id].events.w), pfds[fe.id].revents);
      return 0;
    }

    method AddWrite(fe: File, ghost all: set<File>) returns (ret: int)
      requires Valid(all) && fe in all
      modifies this, files, pfds, fe`id, fe`mask
      ensures Valid(all) && ret == 0 && fe.mask == Mask(old(fe.mask.r), true)
      ensures forall g <- all | g != fe && g.mask != NONE :: g.id == old(g.id) && pfds[g.id] == old(pfds[g.id])
    {
      Occupy(fe, all);
      fe.mask := Mask(fe.mask.r, true);
      pfds[fe.id] := PollFd(pfds[fe.id].fd, Mask(pfds[fe.id].events.r, true), pfds[fe.id].revents);
      return 0;
    }

    /** The last slot, with all that is in it, moves into the one of `fe`. */
    method Release(fe: File, ghost all: set<File>)
      requires Table(all, {fe}) && fe in all && fe.mask == NONE
      modifies this, files, pfds, all`id
      ensures Table(all, {})
      ensures forall g <- all | g.mask != NONE :: pfds[g.id] == old(pfds[g.id])
    {
      ghost var last := files[count - 1];
      count := count - 1;
      if fe.id < count {
        pfds[fe.id] := pfds[count];
        files[fe.id] := files[count];
        files[fe.id].id := fe.id;
      }
      pfds[count] := PollFd(-1, NONE, 0);
      ghost var hole := fe.id;
      fe.id := -1;
      fdcount := fdcount - 1;
      forall g <- all | g.mask != NONE
        ensures InSlot(g) && pfds[g.id] == old(pfds[g.id])
      {
        assert old(InSlot(g));
        if g == last {
          assert g.id == hole;
        } else {
          assert g.id == old(g.id) && g.id != hole && g.id < count;
        }
      }
    }

    method DelRead(fe: File, ghost all: set<File>) returns (ret: int)
      requires Valid(all) && fe in all && fe.mask != NONE
      modifies this, files, pfds, all`id, fe`mask
      ensures Valid(all) && ret == 0 && fe.mask == Mask(false, old(fe.mask.w))
      ensures forall g <- all | g != fe && g.mask != NONE :: pfds[g.id] == old(pfds[g.id])
    {
      assert 0 <= fe.id < count;
      pfds[fe.id] := PollFd(pfds[fe.id].fd, Mask(false, pfds[fe.id].events.w), pfds[fe.id].revents);
      var gone := !pfds[fe.id].events.w;
      fe.mask := Mask(false, fe.mask.w);
      if gone {
        Release(fe, all);
      }
      return 0;
    }

    method DelWrite(fe: File, ghost all: set<File>) returns (ret: int)
      requires Valid(all) && fe in all && fe.mask != NONE
      modifies this, files, pfds, all`id, fe`mask
      ensures Valid(all) && ret == 0 && fe.mask == Mask(old(fe.mask.r), false)
      ensures forall g <- all | g != fe && g.mask != NONE :: pfds[g.id] == old(pfds[g.id])
    {
      assert 0 <= fe.id < count;
      pfds[fe.id] := PollFd(pfds[fe.id].fd, Mask(pfds[fe.id].events.r, false), pfds[fe.id].revents);
      var gone := !pfds[fe.id].events.r;
      fe.mask := Mask(fe.mask.r, false);
      if gone {
        Release(fe, all);
      }
      return 0;
    }

    /** fdcount is the number of registered files. */
    lemma CountsRegistered(all: set<File>)
      requires Valid(all)
      ensures fdcount == count == |Registered(all)|
    {
      var slots: seq<File?> := files[..count];
      DistinctSize(slots);
      assert Registered(all) == set f | f in slots by {
        forall f | f in Registered(all) ensures f in slots { assert slots[f.id] == f; }
      }
    }

    /** The table is not full as long as some file is not registered. */
    lemma FreeSlot(fe: File, all: set<File>)
      requires Valid(all) && fe in all && fe.mask == NONE
      ensures count < files.Length
    {
      CountsRegistered(all);
      assert Registered(all) < all;
      ProperSubsetSmaller(Registered(all), all);
    }
  }
}
