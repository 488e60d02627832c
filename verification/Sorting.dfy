/** Python's `sorted` on a list of integer pairs: tuples compare lexicographically.
    Sorting by a total order leaves one possible result, so any sorting algorithm
    models the library call; insertion sort is the shortest one to state. */
module Sorting {
  type Pair = (int, int)

  predicate LexLe(p: Pair, q: Pair) {
    p.0 < q.0 || (p.0 == q.0 && p.1 <= q.1)
  }

  ghost predicate Sorted(s: seq<Pair>) {
    forall i, j :: 0 <= i < j < |s| ==> LexLe(s[i], s[j])
  }

  function Insert(p: Pair, s: seq<Pair>): (r: seq<Pair>)
    requires Sorted(s)
    ensures Sorted(r)
    ensures multiset(r) == multiset{p} + multiset(s)
  {
    if s == [] then [p]
    else if LexLe(p, s[0]) then [p] + s
    else
      assert s == [s[0]] + s[1..];
      var t := Insert(p, s[1..]);
      assert Sorted([s[0]] + t) by {
        ConsSorted(s, p, t);
      }
      [s[0]] + t
  }

  lemma ConsSorted(s: seq<Pair>, p: Pair, t: seq<Pair>)
    requires s != [] && Sorted(s) && !LexLe(p, s[0])
    requires Sorted(t) && multiset(t) == multiset{p} + multiset(s[1..])
    ensures Sorted([s[0]] + t)
  {
    forall i | 0 <= i < |t| ensures LexLe(s[0], t[i]) {
      assert t[i] in multiset(t);
    }
  }

  function Sort(s: seq<Pair>): (r: seq<Pair>)
    ensures Sorted(r)
    ensures multiset(r) == multiset(s)
    ensures |r| == |s|
  {
    if s == [] then [] else
      assert s == [s[0]] + s[1..];
      var r := Insert(s[0], Sort(s[1..]));
      assert |r| == |multiset(r)|;
      r
  }

  lemma MultisetSplits(s: seq<Pair>, j: nat)
    requires j < |s|
    ensures multiset(s) == multiset(s[..j]) + multiset{s[j]} + multiset(s[j + 1..])
  {
    assert s == s[..j] + [s[j]] + s[j + 1..];
  }

  lemma MultisetJoins(s: seq<Pair>, t: seq<Pair>)
    ensures multiset(s + t) == multiset(s) + multiset(t)
  {
  }

  /** The last element of a list occurs in any permutation of it, and removing both leaves permutations. */
  lemma MatchLast(a: seq<Pair>, b: seq<Pair>) returns (j: nat)
    requires multiset(a) == multiset(b) && a != []
    ensures j < |b| && b[j] == a[|a| - 1]
    ensures multiset(a[..|a| - 1]) == multiset(b[..j] + b[j + 1..])
  {
    var x := a[|a| - 1];
    j := Position(b, x);
    MultisetSplits(a, |a| - 1);
    MultisetSplits(b, j);
    MultisetJoins(b[..j], b[j + 1..]);
    assert a[|a| - 1 + 1..] == [];
    assert multiset(a) == multiset(a[..|a| - 1]) + multiset{x};
    assert multiset(b) == multiset(b[..j] + b[j + 1..]) + multiset{x};
    Cancel(multiset(a[..|a| - 1]), multiset(b[..j] + b[j + 1..]), x);
  }

  lemma Position(s: seq<Pair>, x: Pair) returns (j: nat)
    requires x in multiset(s)
    ensures j < |s| && s[j] == x
  {
    j :| 0 <= j < |s| && s[j] == x;
  }

  lemma Cancel(a: multiset<Pair>, b: multiset<Pair>, x: Pair)
    requires a + multiset{x} == b + multiset{x}
    ensures a == b
  {
    assert a == a + multiset{x} - multiset{x};
    assert b == b + multiset{x} - multiset{x};
  }

  /** A sorted list is determined by its multiset, hence sorting a sorted list changes nothing. */
  lemma {:induction false} SortedIsUnique(s: seq<Pair>, t: seq<Pair>)
    requires Sorted(s) && Sorted(t) && multiset(s) == multiset(t)
    ensures s == t
  {
    assert |s| == |multiset(s)| == |t|;
    if s != [] {
      assert s[0] in multiset(t) && t[0] in multiset(s);
      assert s[0] == t[0];
      assert s == [s[0]] + s[1..] && t == [t[0]] + t[1..];
      assert multiset(s[1..]) == multiset(s) - multiset{s[0]};
      SortedIsUnique(s[1..], t[1..]);
    }
  }
}
