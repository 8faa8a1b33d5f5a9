/** nio_ring: intrusive doubly linked rings.  A ring is a head and the entries linked to it; walking
    along `succ` from the head visits the entries in order and ends at the head again. */
module NioRing {
  import opened Sequences

  class Node {
    var succ: Node
    var pred: Node
    var parent: Node
    var len: nat
    /** The record that contains the node (what nio_ring_to_appl computes from its address). */
    var appl: object?
    /** For a head: its entries. */
    ghost var entries: seq<Node>
    /** For an entry: its place in the ring, counted from the `base` of the head. */
    ghost var pos: int
    ghost var base: int

    ghost predicate SuccLinks()
      reads this, entries
    {
      forall i {:trigger entries[i].succ} | 0 <= i < |entries| ::
        entries[i].succ == if i + 1 < |entries| then entries[i + 1] else this
    }

    ghost predicate PredLinks()
      reads this, entries
    {
      forall i {:trigger entries[i].pred} | 0 <= i < |entries| ::
        entries[i].pred == if 0 < i then entries[i - 1] else this
    }

    ghost predicate Members()
      reads this, entries
    {
      && (forall i {:trigger entries[i].parent} | 0 <= i < |entries| :: entries[i].parent == this)
      && (forall i {:trigger entries[i]} | 0 <= i < |entries| :: entries[i].pos == base + i)
    }

    ghost predicate Ring()
      reads this, entries
    {
      && parent == this && len == |entries| && this !in entries
      && succ == (if entries == [] then this else entries[0])
      && pred == (if entries == [] then this else entries[|entries| - 1])
      && SuccLinks() && PredLinks() && Members()
    }

    /** A node that belongs to no ring; it is a ring of its own. */
    ghost predicate Unlinked()
      reads this
    {
      parent == succ == pred == this && entries == [] && len == 0
    }

    /** nio_ring_init. */
    constructor ()
      ensures Unlinked() && Ring() && appl == null
    {
      succ, pred, parent, len, appl := this, this, this, 0, null;
      entries, pos, base := [], 0, 0;
    }

    /** nio_ring_append: right behind the head. */
    method Append(entry: Node)
      requires Ring() && entry.Unlinked() && entry != this && entry !in entries
      modifies this`succ, this`pred, this`len, this`entries, this`base
      modifies entry`succ, entry`pred, entry`parent, entry`pos, entries`pred
      ensures Ring() && entries == [entry] + old(entries)
    {
      entry.succ := succ;
      entry.pred := this;
      entry.parent := parent;
      succ.pred := entry;
      succ := entry;
      parent.len := parent.len + 1;
      entries, base, entry.pos := [entry] + entries, base - 1, base - 1;
    }

    /** nio_ring_prepend: in front of the head, that is, at the end. */
    method Prepend(entry: Node)
      requires Ring() && entry.Unlinked() && entry != this && entry !in entries
      modifies this`succ, this`pred, this`len, this`entries
      modifies entry`succ, entry`pred, entry`parent, entry`pos, entries`succ
      ensures Ring() && entries == old(entries) + [entry]
    {
      entry.pred := pred;
      entry.succ := this;
      entry.parent := parent;
      pred.succ := entry;
      pred := entry;
      parent.len := parent.len + 1;
      entries, entry.pos := entries + [entry], base + |entries|;
    }

    /** The head drops its k-th entry, whose neighbours are linked to each other already. */
    ghost method Drop(k: nat)
      requires k < |entries| && parent == this && len == |entries| - 1 && this !in entries && Members()
      requires forall i {:trigger entries[i].succ} | 0 <= i < |entries| && i != k ::
                 entries[i].succ == if i == k - 1 then entries[k].succ
                                    else if i + 1 < |entries| then entries[i + 1] else this
      requires forall i {:trigger entries[i].pred} | 0 <= i < |entries| && i != k ::
                 entries[i].pred == if i == k + 1 then entries[k].pred else if 0 < i then entries[i - 1] else this
      requires entries[k].succ == if k + 1 < |entries| then entries[k + 1] else this
      requires entries[k].pred == if 0 < k then entries[k - 1] else this
      requires succ == if k == 0 then entries[k].succ else entries[0]
      requires pred == if k + 1 == |entries| then entries[k].pred else entries[|entries| - 1]
      modifies `entries, entries`pos
      ensures Ring() && entries == Without(old(entries), old(entries[k]))
      ensures old(entries[k]) !in entries
    {
      hide Without;
      var was := entries;
      WithoutIndex(was, k);
      entries := Without(was, was[k]);
      forall n <- was[k + 1..] { n.pos := n.pos - 1; }
    }

    /** The neighbours of an entry become neighbours of each other. */
    method Bypass(ghost head: Node, ghost k: nat)
      requires head.Ring() && k < |head.entries| && head.entries[k] == this && parent == head
      modifies pred`succ, succ`pred, head`len, head`entries, head.entries`pos
      ensures head.Ring() && head.entries == Without(old(head.entries), this)
      ensures this !in head.entries && parent == head
    {
      hide Without;
      var s, p := succ, pred;
      p.succ := s;
      s.pred := p;
      parent.len := parent.len - 1;
      head.Drop(k);
    }

    /** nio_ring_detach: takes an entry out of the ring it is in; a node that is in none stays as it is. */
    method Detach()
      requires parent == this || (parent.Ring() && this in parent.entries && entries == [])
      modifies `succ, `pred, `parent, `len, parent`len, parent`entries, parent`succ, parent`pred
      modifies parent.entries`succ, parent.entries`pred, parent.entries`pos
      ensures old(parent) == this ==> unchanged(this)
      ensures old(parent) != this ==>
                Unlinked() && old(parent).Ring() && old(parent).entries == Without(old(parent.entries), this)
                && this !in old(parent).entries
    {
      if parent != this {
        ghost var k :| 0 <= k < |parent.entries| && parent.entries[k] == this;
        Bypass(parent, k);
        succ, pred := this, this;
        parent := this;
        len := 0;
      }
    }

    method PopHead() returns (e: Node?)
      requires Ring() && forall n <- entries :: n.entries == []
      modifies this, entries
      ensures Ring()
      ensures if old(entries) == [] then e == null && entries == []
              else e == old(entries)[0] && e.Unlinked() && entries == old(entries)[1..]
    {
      if succ == this {
        return null;
      }
      e := succ;
      e.Detach();
    }

    method PopTail() returns (e: Node?)
      requires Ring() && forall n <- entries :: n.entries == []
      modifies this, entries
      ensures Ring()
      ensures var k := |old(entries)| - 1;
              if k < 0 then e == null && entries == []
              else e == old(entries)[k] && e.Unlinked() && entries == old(entries)[..k]
    {
      if pred == this {
        return null;
      }
      e := pred;
      WithoutAt(entries, |entries| - 1);
      e.Detach();
    }

    /** nio_ring_first: the first entry, or null when there is none. */
    function First(): (e: Node?)
      requires Ring()
      reads this, entries
      ensures if entries == [] then e == null else e == entries[0]
    {
      if succ == this then null else succ
    }
  }
}
