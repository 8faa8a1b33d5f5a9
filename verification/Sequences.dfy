/** Sequences from which one element is taken out. */
module Sequences {
  /** A sequence without the first occurrence of an element. */
  ghost function Without<T>(s: seq<T>, e: T): seq<T> {
    if s == [] then [] else if s[0] == e then s[1..] else [s[0]] + Without(s[1..], e)
  }

  lemma {:induction false} WithoutAt<T>(s: seq<T>, k: nat)
    requires k < |s| && forall i | 0 <= i < k :: s[i] != s[k]
    ensures Without(s, s[k]) == s[..k] + s[k + 1..]
  {
    if k > 0 {
      var t := s[1..];
      WithoutAt(t, k - 1);
      assert s[..k] == [s[0]] + t[..k - 1] && s[k + 1..] == t[k..];
    }
  }

  lemma WithoutIndex<T>(s: seq<T>, k: nat)
    requires k < |s| && forall i | 0 <= i < k :: s[i] != s[k]
    ensures var t := Without(s, s[k]);
            && |t| == |s| - 1
            && (forall i {:trigger t[i]} | 0 <= i < k :: t[i] == s[i])
            && (forall i {:trigger t[i]} | k <= i < |t| :: t[i] == s[i + 1])
  {
    WithoutAt(s, k);
  }

  lemma {:induction false} WithoutMembers<T>(s: seq<T>, e: T)
    ensures forall x <- Without(s, e) :: x in s
    ensures forall x <- s | x != e :: x in Without(s, e)
    ensures e in s ==> |Without(s, e)| == |s| - 1
  {
    if s != [] && s[0] != e { WithoutMembers(s[1..], e); }
  }

  lemma {:induction false} WithoutNone<T>(s: seq<T>, e: T)
    requires e !in s
    ensures Without(s, e) == s
  {
    if s != [] {
      WithoutNone(s[1..], e);
    }
  }

  lemma BagLess<T>(x: T, e: T, b: multiset<T>)
    requires x != e
    ensures multiset{x} + b - multiset{e} == multiset{x} + (b - multiset{e})
  {
  }

  /** Only one element goes. */
  lemma {:induction false} WithoutBag<T>(s: seq<T>, e: T)
    ensures multiset(Without(s, e)) == multiset(s) - multiset{e}
  {
    if s != [] {
      assert s == [s[0]] + s[1..];
      if s[0] != e {
        var rest := Without(s[1..], e);
        assert Without(s, e) == [s[0]] + rest;
        WithoutBag(s[1..], e);
        BagLess(s[0], e, multiset(s[1..]));
      }
    }
  }

  lemma {:induction false} FirstOf<T>(s: seq<T>, e: T) returns (k: nat)
    requires e in s
    ensures k < |s| && s[k] == e && forall i | 0 <= i < k :: s[i] != e
  {
    k := 0;
    if s[0] != e {
      k := FirstOf(s[1..], e);
      k := k + 1;
    }
  }

  /** The place of what stays, in the sequence before. */
  lemma WithoutShift<T>(s: seq<T>, e: T) returns (k: nat)
    ensures var r := Without(s, e);
            && k <= |s| && (k < |s| <==> e in s) && (k < |s| ==> s[k] == e)
            && |r| == |s| - (if e in s then 1 else 0)
            && forall i {:trigger r[i]} | 0 <= i < |r| :: r[i] == if i < k then s[i] else s[i + 1]
  {
    if e in s {
      k := FirstOf(s, e);
      WithoutAt(s, k);
    } else {
      k := |s|;
      WithoutNone(s, e);
    }
  }
}
