/** The order in which a walk over chains visits their elements.  Chains are held last element first. */
module Walks {

  ghost function Reversed<T>(c: seq<T>): (r: seq<T>)
    ensures |r| == |c| && forall k {:trigger r[k]} | 0 <= k < |r| :: r[k] == c[|c| - 1 - k]
  {
    seq(|c|, k requires 0 <= k < |c| => c[|c| - 1 - k])
  }

  /** Chain after chain, each from its front to its end. */
  ghost function Walk<T>(chains: seq<seq<T>>): seq<T> {
    if chains == [] then []
    else Walk(chains[..|chains| - 1]) + Reversed(chains[|chains| - 1])
  }

  lemma WalkNext<T>(chains: seq<seq<T>>, i: nat)
    requires i < |chains|
    ensures Walk(chains[..i + 1]) == Walk(chains[..i]) + Reversed(chains[i])
  {
    assert chains[..i + 1][..i] == chains[..i];
  }

  lemma {:induction false} WalkPrefix<T>(chains: seq<seq<T>>, i: nat)
    requires i <= |chains|
    ensures Walk(chains[..i]) <= Walk(chains)
    decreases |chains| - i
  {
    if i < |chains| {
      WalkNext(chains, i);
      WalkPrefix(chains, i + 1);
    } else {
      assert chains[..i] == chains;
    }
  }

  /** The r-th element of the i-th chain, counted from its front. */
  lemma WalkAt<T>(chains: seq<seq<T>>, i: nat, r: nat)
    requires i < |chains| && r < |chains[i]|
    ensures var p := |Walk(chains[..i])| + r;
            p < |Walk(chains)| && Walk(chains)[p] == chains[i][|chains[i]| - 1 - r]
  {
    WalkNext(chains, i);
    WalkPrefix(chains, i + 1);
  }

  lemma WalkStep<T>(chains: seq<seq<T>>, i: nat)
    requires i < |chains|
    ensures |Walk(chains[..i + 1])| == |Walk(chains[..i])| + |chains[i]| <= |Walk(chains)|
  {
    WalkNext(chains, i);
    WalkPrefix(chains, i + 1);
  }

  ghost predicate AllDifferent<T>(s: seq<T>) {
    forall i, j | 0 <= i < j < |s| :: s[i] != s[j]
  }

  /** No element is twice in a chain or in two chains. */
  ghost predicate Separate<T>(chains: seq<seq<T>>) {
    && (forall i | 0 <= i < |chains| :: AllDifferent(chains[i]))
    && (forall i, j, x | 0 <= i < |chains| && 0 <= j < |chains| && x in chains[i] && x in chains[j] :: i == j)
  }

  lemma {:induction false} WalkMembers<T>(chains: seq<seq<T>>)
    ensures forall x <- Walk(chains) :: exists i :: 0 <= i < |chains| && x in chains[i]
    ensures forall i, x | 0 <= i < |chains| && x in chains[i] :: x in Walk(chains)
  {
    if chains != [] {
      var n := |chains| - 1;
      WalkMembers(chains[..n]);
      forall x <- chains[n] ensures x in Reversed(chains[n]) {
        var k :| 0 <= k < |chains[n]| && chains[n][k] == x;
        assert Reversed(chains[n])[|chains[n]| - 1 - k] == x;
      }
    }
  }

  /** A walk over separate chains visits every element of theirs exactly once. */
  lemma {:induction false} WalkOnce<T>(chains: seq<seq<T>>)
    requires Separate(chains)
    ensures AllDifferent(Walk(chains))
  {
    if chains != [] {
      var n := |chains| - 1;
      var rest, c := chains[..n], chains[n];
      assert Separate(rest) by {
        assert forall i | 0 <= i < n :: rest[i] == chains[i];
      }
      WalkOnce(rest);
      WalkMembers(rest);
      assert AllDifferent(Reversed(c));
      forall x <- Walk(rest) ensures x !in c {
        var i :| 0 <= i < n && x in rest[i];
        assert x in chains[i];
      }
      var w := Walk(chains);
      forall i, j | 0 <= i < j < |w| ensures w[i] != w[j] {
        if i < |Walk(rest)| <= j { assert w[i] in Walk(rest) && w[j] in c; }
      }
    }
  }
}
