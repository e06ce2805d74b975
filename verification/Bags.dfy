/** Laws of multisets of sequences, used where the original compares lists regardless of order. */
module Bags {
  function Removed<T>(s: seq<T>, i: nat): (r: seq<T>)
    requires i < |s|
    ensures |r| == |s| - 1
    ensures multiset(r) == multiset(s) - multiset{s[i]}
    ensures multiset(s) == multiset(r) + multiset{s[i]}
    ensures forall m :: 0 <= m < |r| ==> r[m] == if m < i then s[m] else s[m + 1]
  {
    assert s == s[..i] + [s[i]] + s[i + 1..];
    s[..i] + s[i + 1..]
  }

  /** Equal first descriptions imply equal second ones. */
  predicate Consistent<A(==), B(==)>(a1: seq<A>, b1: seq<B>, a2: seq<A>, b2: seq<B>)
    requires |a1| == |b1| && |a2| == |b2|
  {
    forall i, j :: 0 <= i < |a1| && 0 <= j < |a2| && a1[i] == a2[j] ==> b1[i] == b2[j]
  }

  lemma ConsistentRest<A, B>(a1: seq<A>, b1: seq<B>, a2: seq<A>, b2: seq<B>, j: nat)
    requires |a1| == |b1| && |a2| == |b2| && Consistent(a1, b1, a2, b2) && a1 != [] && j < |a2|
    ensures Consistent(a1[..|a1| - 1], b1[..|b1| - 1], Removed(a2, j), Removed(b2, j))
  {
    var fa, fb, ra, rb := a1[..|a1| - 1], b1[..|b1| - 1], Removed(a2, j), Removed(b2, j);
    forall i, m | 0 <= i < |fa| && 0 <= m < |ra| && fa[i] == ra[m]
      ensures fb[i] == rb[m]
    {
      var from := if m < j then m else m + 1;
      assert a1[i] == a2[from] && rb[m] == b2[from];
    }
  }

  /**
   Two ways to describe the elements of two lists: when equal descriptions of the first kind imply equal descriptions
   of the second, equal bags of the first kind imply equal bags of the second.
   */
  lemma {:induction false} BagsTransport<A, B>(a1: seq<A>, b1: seq<B>, a2: seq<A>, b2: seq<B>)
    requires |a1| == |b1| && |a2| == |b2| && Consistent(a1, b1, a2, b2)
    requires multiset(a1) == multiset(a2)
    ensures multiset(b1) == multiset(b2)
    decreases |a1|
  {
    assert |multiset(a1)| == |a1| && |multiset(a2)| == |a2|;
    if a1 == [] {
      assert a2 == [];
    } else {
      var n := |a1| - 1;
      assert a1[n] in multiset(a2);
      var j :| 0 <= j < |a2| && a2[j] == a1[n];
      assert b1[n] == b2[j];
      ConsistentRest(a1, b1, a2, b2, j);
      hide Removed, Consistent;
      LastBag(a1);
      LastBag(b1);
      BagsTransport(a1[..n], b1[..n], Removed(a2, j), Removed(b2, j));
    }
  }

  lemma LastBag<T>(s: seq<T>)
    requires s != []
    ensures multiset(s) == multiset(s[..|s| - 1]) + multiset{s[|s| - 1]}
  {
    assert s == s[..|s| - 1] + [s[|s| - 1]];
  }

  /** A bag that holds another one of the same size is that bag. */
  lemma {:induction false} NothingLeftOver<T>(a: seq<T>, b: seq<T>)
    requires |a| == |b| && multiset(b) <= multiset(a)
    ensures multiset(a) == multiset(b)
  {
    var rest := multiset(a) - multiset(b);
    assert |multiset(a)| == |a| && |multiset(b)| == |b|;
    assert multiset(a) == multiset(b) + rest;
    assert |rest| == 0;
  }
}
