/** nio_htable: a chained hash table that doubles its bucket array when it is full. */
module NioHtable {
  import opened NioHash
  import opened Sizes
  import opened Walks

  /** The bucket of a hash value. */
  function Slot(hash: nat, size: nat): (n: nat)
    requires size > 0
    ensures n < size
  {
    hash % size
  }

  class Info<V> {
    const key: Key
    const hash: nat
    const value: V
    var next: Info?<V>
    var prev: Info?<V>
    /** Distance to the end of the chain. */
    ghost var pos: nat

    constructor (key: Key, value: V, hash: nat)
      ensures this.key == key && this.value == value && this.hash == hash
    {
      this.key, this.value, this.hash := key, value, hash;
      next, prev, pos := null, null, 0;
    }
  }

  // ----- one chain, held last entry first: `next` leads to the end, `prev` to the bucket

  ghost predicate Onward<V>(c: seq<Info<V>>)
    reads c`next
  {
    forall j {:trigger c[j].next} | 0 <= j < |c| :: c[j].next == if j == 0 then null else c[j - 1]
  }

  ghost predicate Backward<V>(c: seq<Info<V>>)
    reads c`prev
  {
    forall j {:trigger c[j].prev} | 0 <= j < |c| :: c[j].prev == if j + 1 == |c| then null else c[j + 1]
  }

  ghost predicate Placed<V>(c: seq<Info<V>>)
    reads c`pos
  {
    forall j {:trigger c[j]} | 0 <= j < |c| :: c[j].pos == j
  }

  ghost predicate Chain<V>(c: seq<Info<V>>)
    reads c`next, c`prev, c`pos
  {
    Onward(c) && Backward(c) && Placed(c)
  }

  /** The entries up to the k-th place from the end, when those in front of it are linked elsewhere. */
  ghost predicate Ahead<V>(c: seq<Info<V>>, k: nat)
    reads c`next, c`pos
  {
    && k <= |c|
    && (forall j {:trigger c[j].next} | 0 <= j < k :: c[j].next == if j == 0 then null else c[j - 1])
    && (forall j {:trigger c[j]} | 0 <= j < k :: c[j].pos == j)
  }

  ghost function Front<V>(c: seq<Info<V>>): Info?<V> {
    if c == [] then null else c[|c| - 1]
  }

  /** The links of a new first entry. */
  method LinkFront<V>(ghost c: seq<Info<V>>, front: Info?<V>, e: Info<V>)
    requires Chain(c) && front == Front(c) && e !in c
    modifies e`prev, e`next, e`pos, c`prev
    ensures Chain(c + [e])
  {
    e.prev := null;
    e.next := front;
    if front != null {
      front.prev := e;
    }
    e.pos := |c|;
  }

  /** A sequence without its k-th element. */
  ghost function Removed<T>(c: seq<T>, k: nat): (r: seq<T>)
    requires k < |c|
    ensures |r| == |c| - 1 && forall j {:trigger r[j]} | 0 <= j < |r| :: r[j] == if j < k then c[j] else c[j + 1]
  {
    c[..k] + c[k + 1..]
  }

  lemma PlaceOf<V>(c: seq<Info<V>>, e: Info<V>) returns (k: nat)
    requires Chain(c) && e in c
    ensures k < |c| && c[k] == e && AllDifferent(c) && Front(c) != null
  {
    k := e.pos;
    assert forall j | 0 <= j < |c| :: c[j].pos == j;
  }

  /** Entries in front of the k-th come one place nearer to the end. */
  ghost method Shift<V>(c: seq<Info<V>>, k: nat)
    requires Placed(c) && k < |c|
    modifies c`pos
    ensures Placed(Removed(c, k))
  {
    hide Removed;
    forall x <- c[k + 1..] { x.pos := x.pos - 1; }
  }

  /** The entry behind the k-th leads back past it. */
  method SkipBack<V>(ghost c: seq<Info<V>>, e: Info<V>, ghost k: nat)
    requires Chain(c) && k < |c| && c[k] == e
    modifies c`prev
    ensures Backward(Removed(c, k)) && e.prev == old(e.prev)
  {
    hide Removed;
    if e.next != null {
      e.next.prev := e.prev;
    }
  }

  /** The entry in front of the k-th, or the bucket, leads on past it. */
  method SkipOn<V>(ghost c: seq<Info<V>>, front: Info<V>, e: Info<V>, ghost k: nat) returns (f: Info?<V>)
    requires Onward(c) && Placed(c) && k < |c| && c[k] == e && front == Front(c)
    requires e.prev == if k + 1 == |c| then null else c[k + 1]
    modifies c`next
    ensures Onward(Removed(c, k)) && f == Front(Removed(c, k))
  {
    hide Removed;
    f := front;
    if e.prev != null {
      e.prev.next := e.next;
    } else {
      f := e.next;
    }
  }

  /** The neighbours of the k-th entry are linked to each other; the new front of the chain. */
  method Unlink<V>(ghost c: seq<Info<V>>, front: Info<V>, e: Info<V>, ghost k: nat) returns (f: Info?<V>)
    requires Chain(c) && k < |c| && c[k] == e && front == Front(c)
    modifies c`prev, c`next, c`pos
    ensures Chain(Removed(c, k)) && f == Front(Removed(c, k))
  {
    assert e.prev == if k + 1 == |c| then null else c[k + 1];
    hide Removed, Onward, Backward, Placed, Front;
    SkipBack(c, e, k);
    f := SkipOn(c, front, e, k);
    Shift(c, k);
  }

  // ----- all chains and all keys

  /** Every entry is in the chain of its hash value, and the chains hold nothing else. */
  ghost predicate Located<V>(chains: seq<seq<Info<V>>>, nodes: set<Info<V>>) {
    && |chains| > 0
    && (forall e <- nodes :: e.hash == Hash(e.key) && e in chains[Slot(e.hash, |chains|)])
    && (forall i, e {:trigger e in chains[i]} | 0 <= i < |chains| && e in chains[i] ::
          e in nodes && Slot(e.hash, |chains|) == i)
  }

  ghost predicate Linked<V>(chains: seq<seq<Info<V>>>, nodes: set<Info<V>>)
    requires Located(chains, nodes)
    reads nodes`next, nodes`prev, nodes`pos
  {
    forall i {:trigger chains[i]} | 0 <= i < |chains| ::
      (assert forall e <- chains[i] :: e in nodes; Chain(chains[i]))
  }

  /** No key has two entries. */
  ghost predicate Indexed<V>(index: map<Key, Info<V>>, nodes: set<Info<V>>) {
    && (forall k <- index :: index[k] in nodes && index[k].key == k)
    && (forall e <- nodes :: e.key in index && index[e.key] == e)
  }

  lemma LocatedAt<V>(chains: seq<seq<Info<V>>>, nodes: set<Info<V>>, i: nat)
    requires Located(chains, nodes) && i < |chains|
    ensures forall e <- chains[i] :: e in nodes && e.hash == Hash(e.key)
    ensures forall e <- nodes :: Slot(e.hash, |chains|) < |chains| && (Slot(e.hash, |chains|) == i <==> e in chains[i])
    ensures forall j, e {:trigger e in chains[j]} | 0 <= j < |chains| && j != i && e in chains[j] :: e !in chains[i]
  {
    hide Hash;
  }

  lemma LocatedLink<V>(chains: seq<seq<Info<V>>>, nodes: set<Info<V>>, n: nat, e: Info<V>)
    requires Located(chains, nodes) && e.hash == Hash(e.key) && n == Slot(e.hash, |chains|)
    ensures Located(chains[n := chains[n] + [e]], nodes + {e})
  {
    hide Slot, Hash;
  }

  lemma IndexedLink<V>(index: map<Key, Info<V>>, nodes: set<Info<V>>, e: Info<V>)
    requires Indexed(index, nodes) && e.key !in index
    ensures Indexed(index[e.key := e], nodes + {e}) && |index[e.key := e]| == |index| + 1
  {
  }

  lemma LocatedRemove<V>(chains: seq<seq<Info<V>>>, nodes: set<Info<V>>, n: nat, k: nat)
    requires Located(chains, nodes) && n < |chains| && k < |chains[n]| && AllDifferent(chains[n])
    ensures Located(chains[n := Removed(chains[n], k)], nodes - {chains[n][k]})
  {
    hide Slot, Hash;
    var c, r, e := chains[n], Removed(chains[n], k), chains[n][k];
    forall x <- c | x != e ensures x in r {
      var j :| 0 <= j < |c| && c[j] == x;
      assert x == if j < k then r[j] else r[j - 1];
    }
    forall x <- r ensures x in c && x != e {
      var j :| 0 <= j < |r| && r[j] == x;
      assert x == if j < k then c[j] else c[j + 1];
    }
    assert e in c;
  }

  lemma IndexedRemove<V>(index: map<Key, Info<V>>, nodes: set<Info<V>>, e: Info<V>)
    requires Indexed(index, nodes) && e in nodes
    ensures Indexed(index - {e.key}, nodes - {e}) && |index - {e.key}| == |index| - 1
  {
    assert index.Keys == (index - {e.key}).Keys + {e.key};
  }

  lemma {:induction false} IndexedSize<V>(index: map<Key, Info<V>>, nodes: set<Info<V>>)
    requires Indexed(index, nodes)
    ensures |index| == |nodes|
    decreases nodes
  {
    if nodes != {} {
      var e :| e in nodes;
      IndexedRemove(index, nodes, e);
      IndexedSize(index - {e.key}, nodes - {e});
    }
  }

  /** The entries determine the index. */
  lemma IndexedUnique<V>(a: map<Key, Info<V>>, b: map<Key, Info<V>>, nodes: set<Info<V>>)
    requires Indexed(a, nodes) && Indexed(b, nodes)
    ensures a == b
  {
  }

  /** An entry that is still to be moved to a smaller table. */
  lemma IndexedRest<V>(all: map<Key, Info<V>>, allNodes: set<Info<V>>, index: map<Key, Info<V>>, nodes: set<Info<V>>,
                       e: Info<V>)
    requires Indexed(all, allNodes) && Indexed(index, nodes) && nodes <= allNodes && e in allNodes - nodes
    ensures e.key !in index && |index| < |all|
  {
    forall k <- index ensures k in all {
      assert index[k] in allNodes;
    }
    assert e.key !in index;
    ProperSubsetSmaller(index.Keys, all.Keys);
  }

  /** The values behind the entries. */
  ghost function Values<V>(index: map<Key, Info<V>>): map<Key, V> {
    map k | k in index :: index[k].value
  }

  lemma ValuesPut<V>(index: map<Key, Info<V>>, e: Info<V>)
    ensures Values(index[e.key := e]) == Values(index)[e.key := e.value]
  {
  }

  lemma ValuesRemove<V>(index: map<Key, Info<V>>, key: Key)
    ensures Values(index - {key}) == Values(index) - {key}
  {
  }

  datatype Status = Ok | DuplexKey

  datatype Option<T> = None | Some(value: T)

  /** ITER, as far as the table uses it. */
  class Iter<V> {
    var i: nat
    var size: nat
    var ptr: Info?<V>
    var key: Option<Key>
    var value: Option<V>

    constructor ()
    {
      i, size, ptr, key, value := 0, 0, null, None, None;
    }

    /** What the caller finds in the iterator. */
    method Report()
      modifies `key, `value
      ensures if ptr == null then key == None && value == None else key == Some(ptr.key) && value == Some(ptr.value)
    {
      if ptr != null {
        value, key := Some(ptr.value), Some(ptr.key);
      } else {
        value, key := None, None;
      }
    }

    /** The iterator is at the p-th entry of the walking order, or behind its last. */
    ghost predicate At(table: Table<V>, p: nat)
      requires table.Valid()
      reads this, table, table.data, table.nodes
    {
      && size == table.data.Length
      && if ptr == null then p == |table.Order()| && i >= size && key == None && value == None
         else
           && i < |table.chains| && ptr in table.chains[i] && ptr in table.nodes && p == table.Position(i, ptr)
           && p < |table.Order()| && ptr == table.Order()[p]
           && key == Some(ptr.key) && value == Some(ptr.value)
    }
  }

  class Table<V> {
    var data: array<Info?<V>>
    var used: nat
    var status: Status
    /** The entries of every bucket, last of the chain first. */
    ghost var chains: seq<seq<Info<V>>>
    ghost var nodes: set<Info<V>>
    ghost var index: map<Key, Info<V>>

    ghost predicate Buckets()
      reads `data, `chains, data
    {
      && data.Length == |chains| && data.Length % 2 == 1
      && forall i {:trigger data[i]} | 0 <= i < data.Length :: data[i] == Front(chains[i])
    }

    ghost predicate Valid()
      reads `data, `chains, `nodes, `index, `used, data, nodes`next, nodes`prev, nodes`pos
    {
      && Buckets() && Located(chains, nodes) && Linked(chains, nodes) && Indexed(index, nodes)
      && used == |index| && used <= data.Length
    }

    /** Every entry has the hash of its key, and is in the bucket of the remainder, and in no other. */
    lemma InBucket(e: Info<V>, i: nat)
      requires Valid() && e in nodes && i < |chains|
      ensures e.hash == Hash(e.key) && (e in chains[i] <==> i == e.hash % data.Length)
    {
      hide Hash;
    }

    /** The map that the table stands for. */
    ghost function Contents(): map<Key, V>
      reads `index
    {
      Values(index)
    }

    /** __nio_htable_size: an empty bucket array of odd size. */
    method Size(size: nat)
      modifies `data, `used, `chains, `index, `nodes
      ensures Valid() && index == map[] && nodes == {} && fresh(data)
      ensures data.Length == if size % 2 == 0 then size + 1 else size
    {
      var n := if size % 2 == 0 then size + 1 else size;
      data := new Info?<V>[n](_ => null);
      used := 0;
      chains := seq(n, _ => []);
      index, nodes := map[], {};
    }

    constructor (size: int)
      ensures Valid() && Contents() == map[] && fresh(data) && data.Length >= 13 && data.Length >= size
    {
      var n := if size < 13 then 13 else size;
      n := if n % 2 == 0 then n + 1 else n;
      data := new Info?<V>[n](_ => null);
      used, status := 0, Ok;
      chains := seq(n, _ => []);
      index, nodes := map[], {};
    }

    method LinkChain(ghost cs: seq<seq<Info<V>>>, e: Info<V>, n: nat)
      requires n < |cs| == data.Length && data[n] == Front(cs[n]) && e !in nodes
      requires Located(cs, nodes) && Linked(cs, nodes)
      requires e.hash == Hash(e.key) && n == Slot(e.hash, |cs|)
      modifies e`prev, e`next, e`pos, nodes`prev
      ensures Located(cs[n := cs[n] + [e]], nodes + {e}) && Linked(cs[n := cs[n] + [e]], nodes + {e})
    {
      LocatedLink(cs, nodes, n, e);
      LocatedAt(cs, nodes, n);
      assert forall i, x {:trigger x in cs[i]} | 0 <= i < |cs| && x in cs[i] :: x != e;
      hide Slot, Hash, Chain, Front, Located;
      LinkFront(cs[n], data[n], e);
      forall i | 0 <= i < |cs| && i != n ensures Chain(cs[i]) {
        assert old(Chain(cs[i]));
        assert forall x: Info<V> | x in cs[i] :: x.next == old(x.next) && x.prev == old(x.prev) && x.pos == old(x.pos);
      }
    }

    /** A chain with a new front. */
    method SetBucket(n: nat, front: Info?<V>, ghost c: seq<Info<V>>)
      requires Buckets() && n < data.Length && front == Front(c)
      modifies data, `chains
      ensures Buckets() && chains == old(chains)[n := c]
    {
      data[n] := front;
      chains := chains[n := c];
    }

    lemma Sizes()
      requires Valid()
      ensures 0 < data.Length && used == |index| <= data.Length && Indexed(index, nodes)
    {
    }

    /** nio_htable_link: in front of the chain. */
    method Link(e: Info<V>, n: nat)
      requires Valid() && used < data.Length && e !in nodes && e.key !in index
      requires e.hash == Hash(e.key) && n == Slot(e.hash, data.Length)
      modifies `used, `chains, `nodes, `index, data, e`prev, e`next, e`pos, nodes`prev
      ensures Valid() && index == old(index)[e.key := e] && nodes == old(nodes) + {e}
    {
      hide Slot, Hash, Located, Linked;
      ghost var cs := chains;
      IndexedLink(index, nodes, e);
      hide Indexed;
      LinkChain(cs, e, n);
      SetBucket(n, e, cs[n] + [e]);
      hide Buckets;
      used, index, nodes := used + 1, index[e.key := e], nodes + {e};
    }

    /** The search in one chain. */
    method Search(key: Key, n: nat) returns (ht: Info?<V>)
      requires Valid() && n == Slot(Hash(key), data.Length)
      ensures ht == if key in index then index[key] else null
      ensures ht != null ==> ht in nodes && ht.key == key
    {
      hide Slot, Hash;
      ghost var c := chains[n];
      ht := data[n];
      ghost var k := |c|;
      while ht != null
        invariant 0 <= k <= |c| && ht == Front(c[..k])
        invariant forall j | k <= j < |c| :: c[j].key != key
        decreases k
      {
        assert ht == c[k - 1] && ht in c && ht in nodes;
        if ht.key == key { return; }
        ht, k := ht.next, k - 1;
      }
    }

    /** nio_htable_locate. */
    method Locate(key: Key) returns (ht: Info?<V>)
      requires Valid()
      ensures ht == if key in index then index[key] else null
    {
      var hash := HashOf(key);
      ht := Search(key, Slot(hash, data.Length));
    }

    /** nio_htable_find. */
    method Find(key: Key) returns (value: Option<V>)
      requires Valid()
      ensures value == if key in Contents() then Some(Contents()[key]) else None
    {
      var ht := Locate(key);
      value := if ht != null then Some(ht.value) else None;
    }

    /** The chains after Unlink. */
    method UnlinkChain(ghost cs: seq<seq<Info<V>>>, e: Info<V>, n: nat) returns (front: Info?<V>, ghost k: nat)
      requires Located(cs, nodes) && Linked(cs, nodes)
      requires e in nodes && n == Slot(e.hash, |cs|) && |cs| == data.Length && data[n] == Front(cs[n])
      modifies nodes`prev, nodes`next, nodes`pos
      ensures k < |cs[n]| && cs[n][k] == e && front == Front(Removed(cs[n], k))
      ensures Located(cs[n := Removed(cs[n], k)], nodes - {e}) && Linked(cs[n := Removed(cs[n], k)], nodes - {e})
    {
      hide Slot, Hash, Chain, Front, Removed, AllDifferent, Located;
      LocatedAt(cs, nodes, n);
      k := PlaceOf(cs[n], e);
      LocatedRemove(cs, nodes, n, k);
      front := Unlink(cs[n], data[n], e, k);
      forall i | 0 <= i < |cs| && i != n ensures Chain(cs[i]) {
        assert old(Chain(cs[i]));
        assert forall x: Info<V> | x in cs[i] :: x.next == old(x.next) && x.prev == old(x.prev) && x.pos == old(x.pos);
      }
    }

    /** nio_htable_delete_entry. */
    method DeleteEntry(ht: Info<V>)
      requires Valid() && ht in nodes
      modifies `used, `chains, `nodes, `index, data, nodes`prev, nodes`next, nodes`pos
      ensures Valid() && index == old(index) - {ht.key} && nodes == old(nodes) - {ht}
    {
      hide Slot, Hash, Located, Linked, Removed, Front;
      ghost var cs, rest := chains, index - {ht.key};
      IndexedRemove(index, nodes, ht);
      hide Indexed;
      var n := Slot(ht.hash, data.Length);
      ghost var k;
      var front;
      front, k := UnlinkChain(cs, ht, n);
      SetBucket(n, front, Removed(cs[n], k));
      hide Buckets;
      used, index, nodes := used - 1, rest, nodes - {ht};
    }

    /** nio_htable_delete. */
    method Delete(key: Key) returns (r: int)
      requires Valid()
      modifies `used, `chains, `nodes, `index, data, nodes`prev, nodes`next, nodes`pos
      ensures Valid() && index == old(index) - {key} && r == if key in old(index) then 0 else -1
      ensures Contents() == old(Contents()) - {key}
    {
      Sizes();
      hide Slot, Hash, Valid, Values, Indexed;
      ValuesRemove(index, key);
      var hash := HashOf(key);
      var ht := Search(key, Slot(hash, data.Length));
      if ht != null {
        DeleteEntry(ht);
        return 0;
      }
      return -1;
    }

    /** A chain from the front of which all but `k` entries have moved to this table. */
    ghost predicate Moving(c: seq<Info<V>>, k: nat, before: set<Info<V>>)
      reads `nodes, c`next, c`pos
    {
      && Ahead(c, k)
      && before <= nodes && (forall x <- nodes :: x in before || x in c)
      && (forall j | 0 <= j < |c| :: c[j] in nodes <==> k <= j)
    }

    /** One round of the inner loop of nio_htable_grow: links one entry of an old chain. */
    method MoveOne(ht: Info<V>, ghost c: seq<Info<V>>, ghost k: nat, ghost before: set<Info<V>>)
      returns (next: Info?<V>)
      requires Valid() && used < data.Length && ht.key !in index && ht.hash == Hash(ht.key)
      requires Moving(c, k + 1, before) && ht == c[k]
      modifies `used, `chains, `nodes, `index, data, ht`prev, ht`next, ht`pos, nodes`prev
      ensures Valid() && nodes == old(nodes) + {ht}
      ensures Moving(c, k, before) && next == if k == 0 then null else c[k - 1]
    {
      hide Slot, Hash, Valid;
      next := ht.next;
      var hash := HashOf(ht.key);
      Link(ht, Slot(hash, data.Length));
      assert forall j {:trigger c[j].next} | 0 <= j < k :: c[j] != ht && c[j].next == old(c[j].next);
      assert Ahead(c, k);
    }

    /** The inner loop of nio_htable_grow. */
    method Move(first: Info?<V>, ghost c: seq<Info<V>>, ghost all: map<Key, Info<V>>, ghost allNodes: set<Info<V>>)
      requires Valid() && Indexed(all, allNodes) && nodes <= allNodes && |all| <= data.Length
      requires first == Front(c) && Ahead(c, |c|)
      requires forall x <- c :: x in allNodes && x !in nodes && x.hash == Hash(x.key)
      modifies `used, `chains, `nodes, `index, data, c`prev, c`next, c`pos, nodes`prev
      ensures Valid() && nodes == old(nodes) + set x | x in c
    {
      hide Slot, Hash, Valid, Indexed;
      ghost var k, before := |c|, nodes;
      assert Moving(c, k, before) by { hide Ahead; }
      hide Ahead, Moving;
      var ht := first;
      while ht != null
        invariant 0 <= k <= |c| && ht == if k == 0 then null else c[k - 1]
        invariant Valid() && Moving(c, k, before)
        decreases k
      {
        k := k - 1;
        Sizes();
        StillToMove(c, k, before, all, allNodes);
        ht := MoveOne(ht, c, k, before);
      }
      AllMoved(c, before);
    }

    lemma StillToMove(c: seq<Info<V>>, k: nat, before: set<Info<V>>, all: map<Key, Info<V>>, allNodes: set<Info<V>>)
      requires Moving(c, k + 1, before) && k < |c| && Indexed(all, allNodes) && Indexed(index, nodes)
      requires before <= allNodes && forall x <- c :: x in allNodes
      ensures c[k] in c && c[k].key !in index && |index| < |all|
      ensures forall x <- nodes :: x in before || x in c
    {
      hide Indexed, Ahead;
      IndexedRest(all, allNodes, index, nodes, c[k]);
    }

    lemma AllMoved(c: seq<Info<V>>, before: set<Info<V>>)
      requires Moving(c, 0, before)
      ensures nodes == before + set x | x in c
    {
    }

    /** What nio_htable_grow relies on while it empties the old bucket array. */
    lemma OldChains()
      requires Valid()
      ensures 0 < |chains| == data.Length && Located(chains, nodes) && Indexed(index, nodes) && |index| <= data.Length
      ensures forall j | 0 <= j < |chains| :: data[j] == Front(chains[j]) && Ahead(chains[j], |chains[j]|)
    {
      hide Slot, Hash, Indexed;
    }

    /** nio_htable_grow: every entry moves to a bucket array of twice the size. */
    method Grow()
      requires Valid()
      modifies `data, `used, `chains, `nodes, `index, nodes`prev, nodes`next, nodes`pos
      ensures Valid() && index == old(index) && nodes == old(nodes)
      ensures fresh(data) && data.Length == 2 * old(data.Length) + 1
    {
      hide Slot, Hash, Valid, Indexed, Located, Ahead, Front;
      OldChains();
      ghost var olds, all, allNodes := chains, index, nodes;
      var h0 := data;
      Size(2 * h0.Length);
      var i := 0;
      while i < h0.Length
        invariant 0 <= i <= h0.Length && Valid() && fresh(data) && data.Length == 2 * h0.Length + 1
        invariant forall j | i <= j < |olds| :: h0[j] == Front(olds[j]) && Ahead(olds[j], |olds[j]|)
        invariant nodes <= allNodes && forall x <- allNodes :: x in nodes <==> Slot(x.hash, |olds|) < i
      {
        LocatedAt(olds, allNodes, i);
        label before:
        Move(h0[i], olds[i], all, allNodes);
        forall j | i < j < |olds| ensures Ahead(olds[j], |olds[j]|) {
          assert old@before(Ahead(olds[j], |olds[j]|));
          assert forall x: Info<V> | x in olds[j] :: x.next == old@before(x.next) && x.pos == old@before(x.pos);
        }
        i := i + 1;
      }
      assert nodes == allNodes;
      OldChains();
      IndexedUnique(index, all, nodes);
    }

    /** The first part of nio_htable_enter: a table that is full grows. */
    method MakeRoom()
      requires Valid()
      modifies `data, `used, `chains, `nodes, `index, nodes`prev, nodes`next, nodes`pos
      ensures Valid() && index == old(index) && nodes == old(nodes) && used < data.Length
      ensures data.Length == if |index| >= old(data.Length) then 2 * old(data.Length) + 1 else old(data.Length)
      ensures fresh(data) || data == old(data)
    {
      Sizes();
      hide Valid;
      if used >= data.Length {
        Grow();
        Sizes();
      }
    }

    /** The last part of nio_htable_enter: a new entry. */
    method Insert(key: Key, value: V, hash: nat, n: nat) returns (ht: Info<V>)
      requires Valid() && used < data.Length && key !in index && hash == Hash(key) && n == Slot(hash, data.Length)
      modifies `used, `chains, `nodes, `index, data, nodes`prev, nodes`next, nodes`pos
      ensures Valid() && index == old(index)[key := ht] && fresh(ht)
      ensures Contents() == old(Contents())[key := value]
    {
      Sizes();
      hide Valid, Slot, Hash, Values, Indexed;
      ht := new Info(key, value, hash);
      ValuesPut(index, ht);
      Link(ht, n);
    }

    /** nio_htable_enter: the entry of the key, a new one unless the key is there already. */
    method Enter(key: Key, value: V) returns (ht: Info<V>)
      requires Valid()
      modifies `data, `used, `status, `chains, `nodes, `index, data, nodes`prev, nodes`next, nodes`pos
      ensures Valid()
      ensures data.Length == if |old(index)| >= old(data.Length) then 2 * old(data.Length) + 1 else old(data.Length)
      ensures if key in old(index) then status == DuplexKey && index == old(index) && ht == index[key]
              else status == Ok && index == old(index)[key := ht] && fresh(ht)
      ensures Contents() == if key in old(index) then old(Contents()) else old(Contents())[key := value]
    {
      hide Valid, Slot, Hash, Values, Indexed;
      status := Ok;
      var hash := HashOf(key);
      MakeRoom();
      var n := Slot(hash, data.Length);
      var found := Search(key, n);
      if found != null {
        status := DuplexKey;
        return found;
      }
      ht := Insert(key, value, hash, n);
    }

    // ----- iteration

    /** The entries in the order in which the table is walked. */
    ghost function Order(): seq<Info<V>>
      reads `chains
    {
      Walk(chains)
    }

    /** A walk meets every entry exactly once. */
    lemma OrderOnce()
      requires Valid()
      ensures AllDifferent(Order()) && |Order()| == used
      ensures forall e :: e in Order() <==> e in nodes
    {
      hide Slot, Hash, Walk;
      forall i | 0 <= i < |chains| && chains[i] != [] ensures AllDifferent(chains[i]) {
        var k := PlaceOf(chains[i], chains[i][0]);
      }
      WalkOnce(chains);
      WalkMembers(chains);
      DistinctSize(Order());
      assert nodes == set e | e in Order();
      IndexedSize(index, nodes);
    }

    ghost function Position(i: nat, e: Info<V>): int
      requires i < |chains|
      reads `chains, e`pos
    {
      |Walk(chains[..i])| + |chains[i]| - 1 - e.pos
    }

    /** The place of an entry, and of the one that the walk meets after it. */
    lemma EntryAt(i: nat, e: Info<V>)
      requires Valid() && i < |chains| && e in chains[i]
      ensures |chains| == data.Length && e in nodes && 0 <= Position(i, e) < |Order()| && Order()[Position(i, e)] == e
      ensures if e.next == null then |Walk(chains[..i + 1])| == Position(i, e) + 1
              else e.next in chains[i] && Position(i, e.next) == Position(i, e) + 1
    {
      hide Slot, Hash, Walk;
      var c := chains[i];
      var k := PlaceOf(c, e);
      assert c[k].next == if k == 0 then null else c[k - 1];
      WalkAt(chains, i, |c| - 1 - k);
      WalkStep(chains, i);
    }

    lemma WalkEnds()
      requires Valid()
      ensures |chains| == data.Length && |Walk(chains[..0])| == 0 && |Walk(chains[..data.Length])| == |Order()|
    {
      assert chains[..0] == [] && chains[..data.Length] == chains;
    }

    lemma FrontAt(i: nat)
      requires Valid() && i < data.Length
      ensures |chains| == data.Length && |Walk(chains[..i + 1])| == |Walk(chains[..i])| + |chains[i]| <= |Order()|
      ensures if data[i] == null then chains[i] == []
              else data[i] in chains[i] && Position(i, data[i]) == |Walk(chains[..i])|
    {
      hide Slot, Hash, Walk;
      WalkStep(chains, i);
    }

    /** nio_htable_list: the entries in walking order, and a null behind them. */
    method List() returns (list: array<Info?<V>>)
      requires Valid()
      ensures fresh(list) && list.Length == used + 1 && list[used] == null
      ensures |Order()| == used && forall p | 0 <= p < used :: list[p] == Order()[p]
    {
      hide Valid, Walk, Order;
      WalkEnds();
      OrderOnce();
      list := new Info?<V>[used + 1](_ => null);
      var count := 0;
      for i := 0 to data.Length
        invariant |chains| >= i && count == |Walk(chains[..i])| <= used
        invariant forall p | 0 <= p < count :: list[p] == Order()[p]
      {
        FrontAt(i);
        var member := data[i];
        while member != null
          invariant if member == null then count == |Walk(chains[..i + 1])|
                    else member in chains[i] && count == Position(i, member)
          invariant count <= used && forall p | 0 <= p < count :: list[p] == Order()[p]
          decreases used - count
        {
          EntryAt(i, member);
          list[count] := member;
          count := count + 1;
          member := member.next;
        }
      }
      list[count] := null;
    }

    /** The first non-empty bucket from the `from`-th on, and its first entry. */
    method NextBucket(from: nat) returns (i: nat, ptr: Info?<V>)
      requires Valid() && from <= data.Length
      ensures from <= i <= data.Length && |chains| == data.Length
      ensures if i < data.Length then ptr != null && ptr in chains[i] && Position(i, ptr) == |Walk(chains[..from])|
              else ptr == null && |Walk(chains[..from])| == |Order()|
    {
      hide Valid, Walk, Order;
      WalkEnds();
      i, ptr := from, null;
      while i < data.Length
        invariant from <= i <= data.Length && |chains| == data.Length
        invariant |Walk(chains[..i])| == |Walk(chains[..from])|
      {
        FrontAt(i);
        if data[i] != null {
          ptr := data[i];
          return;
        }
        i := i + 1;
      }
    }

    /** iter_head. */
    method IterHead(iter: Iter<V>)
      requires Valid()
      modifies iter
      ensures iter.At(this, 0)
    {
      hide Valid, Walk, Order;
      WalkEnds();
      var i, ptr := NextBucket(0);
      if ptr != null {
        EntryAt(i, ptr);
      }
      iter.i, iter.size, iter.ptr := i, data.Length, ptr;
      iter.Report();
    }

    /** iter_next. */
    method IterNext(iter: Iter<V>, ghost p: nat)
      requires Valid() && iter.At(this, p)
      modifies iter
      ensures iter.At(this, if p < used then p + 1 else p)
    {
      hide Valid, Walk, Order;
      OrderOnce();
      if iter.ptr != null {
        EntryAt(iter.i, iter.ptr);
        iter.ptr := iter.ptr.next;
        if iter.ptr != null {
          EntryAt(iter.i, iter.ptr);
          iter.Report();
          return;
        }
      }
      if iter.i < data.Length {
        var i, ptr := NextBucket(iter.i + 1);
        if ptr != null {
          EntryAt(i, ptr);
        }
        iter.i, iter.ptr := i, ptr;
      } else {
        iter.i := iter.i + 1;
      }
      iter.Report();
    }
  }
}
