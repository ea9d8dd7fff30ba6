/** Facts about sequences without repeated elements, shared by the reorder
    engine and the sort-order service. */
module Sequences {

  /** No element occurs twice in `s`. */
  predicate Distinct<T(==)>(s: seq<T>) {
    forall i, j :: 0 <= i < j < |s| ==> s[i] != s[j]
  }

  /** The set of elements occurring in `s`. */
  function Elements<T>(s: seq<T>): set<T> {
    set x | x in s
  }

  /** A sequence has at most as many different elements as it has entries,
      and exactly as many when no element repeats. */
  lemma {:induction false} ElementsCard<T>(s: seq<T>)
    ensures |Elements(s)| <= |s|
    ensures Distinct(s) ==> |Elements(s)| == |s|
  {
    if |s| > 0 {
      var t := s[..|s| - 1];
      ElementsCard(t);
      assert Elements(s) == Elements(t) + {s[|s| - 1]};
      if Distinct(s) {
        assert Distinct(t);
        assert s[|s| - 1] !in Elements(t);
      }
    }
  }

  /** In a sequence without repeats every element occurs exactly once. */
  lemma {:induction false} DistinctCounts<T>(s: seq<T>)
    requires Distinct(s)
    ensures forall x :: multiset(s)[x] == if x in s then 1 else 0
  {
    if |s| > 0 {
      var t := s[..|s| - 1];
      assert s == t + [s[|s| - 1]];
      assert Distinct(t);
      DistinctCounts(t);
    }
  }

  /** A subset is no larger than its superset, and equal size forces equality. */
  lemma SubsetCard<T>(a: set<T>, b: set<T>)
    requires a <= b
    ensures |a| <= |b|
    ensures |a| == |b| ==> a == b
  {
    assert b == a + (b - a);
    assert a * (b - a) == {};
    if |a| == |b| {
      assert |b - a| == 0;
    }
  }

  /** Two repeat-free sequences of the same length, the first drawing its
      elements from the second, hold the same elements with the same counts. */
  lemma DistinctPermutation<T>(s: seq<T>, t: seq<T>)
    requires Distinct(s) && Distinct(t)
    requires |s| == |t|
    requires Elements(s) <= Elements(t)
    ensures multiset(s) == multiset(t)
  {
    ElementsCard(s);
    ElementsCard(t);
    SubsetCard(Elements(s), Elements(t));
    DistinctCounts(s);
    DistinctCounts(t);
    forall x
      ensures multiset(s)[x] == multiset(t)[x]
    {
      assert x in s <==> x in Elements(s);
      assert x in t <==> x in Elements(t);
    }
  }

  /** A sequence in which no element is counted twice has no repeats. */
  lemma DistinctOfCounts<T>(s: seq<T>)
    requires forall x :: multiset(s)[x] <= 1
    ensures Distinct(s)
  {
    forall i, j | 0 <= i < j < |s|
      ensures s[i] != s[j]
    {
      assert s == s[..j] + s[j..];
      assert multiset(s) == multiset(s[..j]) + multiset(s[j..]);
      assert s[i] in s[..j] && s[j] in s[j..];
      assert multiset(s[..j])[s[i]] >= 1 && multiset(s[j..])[s[j]] >= 1;
      assert multiset(s)[s[i]] <= 1;
    }
  }
}
