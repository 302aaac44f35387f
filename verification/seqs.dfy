/** Facts about sequences that the engine's `len(set(xs)) != len(xs)` checks rely on. */
module Seqs {

  /** The set of elements of `s`. */
  function ToSet<T>(s: seq<T>): set<T>
  {
    set x | x in s
  }

  /** No element of `s` occurs twice. */
  predicate Distinct<T(==)>(s: seq<T>)
  {
    forall i, j :: 0 <= i < j < |s| ==> s[i] != s[j]
  }

  lemma {:induction false} ToSetSize<T>(s: seq<T>)
    ensures |ToSet(s)| <= |s|
    ensures s == [] <==> ToSet(s) == {}
  {
    if s != [] {
      assert s[0] in ToSet(s);
      ToSetSize(s[1..]);
      assert ToSet(s) == {s[0]} + ToSet(s[1..]);
    } else {
      assert ToSet(s) == {};
    }
  }

  /** A sequence has no repeated element exactly when its set is as large as the sequence. */
  lemma {:induction false} DistinctIffSetSize<T>(s: seq<T>)
    ensures Distinct(s) <==> |ToSet(s)| == |s|
  {
    if s == [] {
      ToSetSize(s);
    } else {
      var t := s[1..];
      assert ToSet(s) == {s[0]} + ToSet(t);
      ToSetSize(t);
      if s[0] in t {
        assert ToSet(s) == ToSet(t);
        var j :| 0 <= j < |t| && t[j] == s[0];
        assert s[0] == s[j + 1];
      } else {
        DistinctIffSetSize(t);
        assert Distinct(s) <==> Distinct(t) by {
          if Distinct(t) {
            forall i, j | 0 <= i < j < |s| ensures s[i] != s[j] {
              if i > 0 {
                assert s[i] == t[i - 1] && s[j] == t[j - 1];
              } else {
                assert s[j] in t;
              }
            }
          }
        }
      }
    }
  }

  /** A sequence has no repeated element exactly when every element occurs at most once in its multiset. */
  lemma {:induction false} DistinctIffSingleOccurrences<T>(s: seq<T>)
    ensures Distinct(s) <==> forall x :: multiset(s)[x] <= 1
  {
    if Distinct(s) {
      if s != [] {
        var t := s[1..];
        assert s == [s[0]] + t;
        DistinctTail(s);
        DistinctIffSingleOccurrences(t);
        assert multiset(s) == multiset{s[0]} + multiset(t);
      }
    } else {
      var i, j :| 0 <= i < j < |s| && s[i] == s[j];
      assert s == s[..j] + s[j..];
      assert multiset(s) == multiset(s[..j]) + multiset(s[j..]);
      assert s[i] in s[..j];
      assert s[j] in s[j..];
      assert multiset(s)[s[i]] >= 2;
    }
  }

  /** Dropping the head of a sequence with no repeats leaves no repeats and no copy of the head. */
  lemma DistinctTail<T>(s: seq<T>)
    requires |s| > 0 && Distinct(s)
    ensures Distinct(s[1..]) && s[0] !in s[1..]
  {
    var t := s[1..];
    forall i, j | 0 <= i < j < |t| ensures t[i] != t[j] {
      assert t[i] == s[i + 1] && t[j] == s[j + 1];
    }
    forall j | 0 <= j < |t| ensures t[j] != s[0] {
      assert t[j] == s[j + 1];
    }
  }

  /** Taking some of the elements of a sequence with no repeats, in any order, gives no repeats. */
  lemma DistinctSubMultiset<T>(s: seq<T>, t: seq<T>)
    requires multiset(s) <= multiset(t)
    requires Distinct(t)
    ensures Distinct(s)
  {
    DistinctIffSingleOccurrences(t);
    DistinctIffSingleOccurrences(s);
    assert forall x :: multiset(s)[x] <= multiset(t)[x];
  }

  /** A subset is no larger than its superset. */
  lemma SubsetSize<T>(a: set<T>, b: set<T>)
    requires a <= b
    ensures |a| <= |b|
  {
    assert b == a + (b - a);
  }

  /** A subset as large as its superset is the whole superset. */
  lemma SubsetSameSize<T>(a: set<T>, b: set<T>)
    requires a <= b && |a| == |b|
    ensures a == b
  {
    assert b == a + (b - a);
    assert |b - a| == 0;
  }

  /** A non-empty sequence has a one-element set exactly when all its elements equal the first. */
  lemma SingletonSetIffConstant<T>(s: seq<T>)
    requires |s| > 0
    ensures |ToSet(s)| == 1 <==> forall i :: 0 <= i < |s| ==> s[i] == s[0]
  {
    if forall i :: 0 <= i < |s| ==> s[i] == s[0] {
      assert ToSet(s) == {s[0]};
    } else {
      var i :| 0 <= i < |s| && s[i] != s[0];
      SubsetSize({s[0], s[i]}, ToSet(s));
    }
  }

  /** The largest element of a non-empty sequence. */
  function SeqMax(s: seq<int>): (m: int)
    requires |s| > 0
    ensures m in s && forall x :: x in s ==> x <= m
  {
    if |s| == 1 then s[0]
    else
      var rest := SeqMax(s[1..]);
      assert s == [s[0]] + s[1..];
      if s[0] >= rest then s[0] else rest
  }

  /** The smallest element of a non-empty sequence. */
  function SeqMin(s: seq<int>): (m: int)
    requires |s| > 0
    ensures m in s && forall x :: x in s ==> m <= x
  {
    if |s| == 1 then s[0]
    else
      var rest := SeqMin(s[1..]);
      assert s == [s[0]] + s[1..];
      if s[0] <= rest then s[0] else rest
  }

  /** Two sequences with the same multiset have the same set. */
  lemma SameMultisetSameSet<T>(a: seq<T>, b: seq<T>)
    requires multiset(a) == multiset(b)
    ensures ToSet(a) == ToSet(b)
  {
    forall x ensures x in a <==> x in b {
      assert x in a <==> x in multiset(a);
      assert x in b <==> x in multiset(b);
    }
  }

  /** f applied to every element of s, in order (a list built by appending f(x) for each x). */
  function Map<T, U>(f: T --> U, s: seq<T>): (r: seq<U>)
    requires forall i :: 0 <= i < |s| ==> f.requires(s[i])
    ensures |r| == |s|
    ensures forall i :: 0 <= i < |s| ==> r[i] == f(s[i])
  {
    seq(|s|, i requires 0 <= i < |s| => f(s[i]))
  }

  /** Removing the element at j removes one occurrence of it from the multiset. */
  lemma RemoveAtMultiset<T>(c: seq<T>, j: nat)
    requires j < |c|
    ensures multiset(c) == multiset(c[..j] + c[j + 1..]) + multiset{c[j]}
  {
    assert c == c[..j] + [c[j]] + c[j + 1..];
  }

  /** The elements of a reordering of p are elements of p. */
  lemma SameMultisetMembers<T>(p: seq<T>, c: seq<T>)
    requires multiset(p) == multiset(c)
    ensures forall i :: 0 <= i < |c| ==> c[i] in p
  {
    forall i | 0 <= i < |c| ensures c[i] in p {
      assert c[i] in multiset(p);
    }
  }

  /** Mapping commutes with removing the element at j. */
  lemma MapRemoveAt<T, U>(f: T --> U, c: seq<T>, j: nat)
    requires forall i :: 0 <= i < |c| ==> f.requires(c[i])
    requires j < |c|
    ensures multiset(Map(f, c)) == multiset(Map(f, c[..j] + c[j + 1..])) + multiset{f(c[j])}
  {
    var mc := Map(f, c);
    assert Map(f, c[..j] + c[j + 1..]) == mc[..j] + mc[j + 1..];
    RemoveAtMultiset(mc, j);
  }

  /** Removing the head of p and its copy at j in c leaves two reorderings of each other. */
  lemma PermutationWithoutHead<T>(p: seq<T>, c: seq<T>, j: nat)
    requires multiset(p) == multiset(c)
    requires |p| > 0 && j < |c| && c[j] == p[0]
    ensures multiset(c[..j] + c[j + 1..]) == multiset(p[1..])
  {
    var rest, x := c[..j] + c[j + 1..], p[0];
    RemoveAtMultiset(c, j);
    assert p == [x] + p[1..];
    assert multiset(p) == multiset(p[1..]) + multiset{x};
    forall y ensures multiset(rest)[y] == multiset(p[1..])[y] {
      assert multiset(c)[y] == multiset(rest)[y] + multiset{x}[y];
      assert multiset(p)[y] == multiset(p[1..])[y] + multiset{x}[y];
    }
  }

  /** Mapping a reordering of s gives a reordering of the mapped s. */
  lemma {:induction false} MapPermutation<T, U>(f: T --> U, p: seq<T>, c: seq<T>)
    requires forall i :: 0 <= i < |p| ==> f.requires(p[i])
    requires multiset(p) == multiset(c)
    ensures forall i :: 0 <= i < |c| ==> f.requires(c[i])
    ensures multiset(Map(f, p)) == multiset(Map(f, c))
    decreases |p|
  {
    SameMultisetMembers(p, c);
    if p == [] {
      assert |c| == |multiset(c)| == 0;
    } else {
      var x := p[0];
      assert x in multiset(c);
      var j :| 0 <= j < |c| && c[j] == x;
      PermutationWithoutHead(p, c, j);
      MapPermutation(f, p[1..], c[..j] + c[j + 1..]);
      MapRemoveAt(f, c, j);
      assert Map(f, p) == [f(x)] + Map(f, p[1..]);
    }
  }
}
