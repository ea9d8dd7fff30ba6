/** The subset reorder engine: given a full sequence and some of its elements
    in a new order, put those elements back into the slots they occupied,
    in the new order, and leave every other slot alone. */
module ReorderSubset {
  import opened Wrappers
  import opened Sequences

  /** The single error the engine throws: the number of matched positions
      differs from the number of requested elements. */
  datatype ReorderError = ElementsNotFound

  /** Positions listed in ascending index order, none twice. */
  predicate StrictlyIncreasing(ps: seq<nat>) {
    forall k, l :: 0 <= k < l < |ps| ==> ps[k] < ps[l]
  }

  /** Every position lies inside a sequence of length `n`. */
  predicate InRange(ps: seq<nat>, n: nat) {
    forall k :: 0 <= k < |ps| ==> ps[k] < n
  }

  /** The positions scan over the first `n` elements: the indices below `n`
      whose element belongs to `newSubsetOrder`, in ascending order.
      `reorderSubsetInPlace` looks each element up in a `Set` built from
      `newSubsetOrder`; membership in the sequence is the same test. */
  function MatchedBelow<T(==)>(items: seq<T>, newSubsetOrder: seq<T>, n: nat): seq<nat>
    requires n <= |items|
    decreases n
  {
    if n == 0 then []
    else
      var ps := MatchedBelow(items, newSubsetOrder, n - 1);
      if items[n - 1] in newSubsetOrder then ps + [n - 1] else ps
  }

  /** The scan yields ascending in-range positions, each holding a requested
      element, and misses no index whose element is requested. */
  lemma {:induction false} MatchedBelowSpec<T>(items: seq<T>, newSubsetOrder: seq<T>, n: nat)
    requires n <= |items|
    ensures var ps := MatchedBelow(items, newSubsetOrder, n);
      && StrictlyIncreasing(ps) && InRange(ps, n)
      && (forall k :: 0 <= k < |ps| ==> items[ps[k]] in newSubsetOrder)
      && (forall i :: 0 <= i < n && items[i] in newSubsetOrder ==> i in ps)
    decreases n
  {
    if n > 0 {
      MatchedBelowSpec(items, newSubsetOrder, n - 1);
    }
  }

  /** The complete positions scan: ascending in-range positions, each holding
      a requested element, missing no index whose element is requested. */
  function MatchedPositions<T(==)>(items: seq<T>, newSubsetOrder: seq<T>): (ps: seq<nat>)
    ensures StrictlyIncreasing(ps) && InRange(ps, |items|)
    ensures forall k :: 0 <= k < |ps| ==> items[ps[k]] in newSubsetOrder
    ensures forall i :: 0 <= i < |items| && items[i] in newSubsetOrder ==> i in ps
  {
    MatchedBelowSpec(items, newSubsetOrder, |items|);
    MatchedBelow(items, newSubsetOrder, |items|)
  }

  /** The copy-and-overwrite step: write `values[k]` at `positions[k]`, one
      position after the other. */
  function Overwrite<T>(items: seq<T>, positions: seq<nat>, values: seq<T>): (r: seq<T>)
    requires |positions| == |values|
    requires StrictlyIncreasing(positions) && InRange(positions, |items|)
    ensures |r| == |items|
    ensures forall k :: 0 <= k < |positions| ==> r[positions[k]] == values[k]
    ensures forall i :: 0 <= i < |items| && i !in positions ==> r[i] == items[i]
    decreases |positions|
  {
    if |positions| == 0 then items
    else Overwrite(items[positions[0] := values[0]], positions[1..], values[1..])
  }

  /** The engine. It throws exactly when the count of matched positions
      differs from the length of `newSubsetOrder`; otherwise the k-th matched
      position (ascending) receives `newSubsetOrder[k]` and every unmatched
      position keeps its element. The input is a value and is never changed. */
  function Reorder<T(==)>(items: seq<T>, newSubsetOrder: seq<T>): (r: Result<seq<T>, ReorderError>)
    ensures r.Failure? <==> |MatchedPositions(items, newSubsetOrder)| != |newSubsetOrder|
    ensures r.Success? ==> |r.value| == |items|
    ensures r.Success? ==>
      forall i :: 0 <= i < |items| && items[i] !in newSubsetOrder ==> r.value[i] == items[i]
    ensures r.Success? ==>
      var ps := MatchedPositions(items, newSubsetOrder);
      forall k :: 0 <= k < |ps| ==> r.value[ps[k]] == newSubsetOrder[k]
  {
    var positionsToUpdate := MatchedPositions(items, newSubsetOrder);
    if |positionsToUpdate| != |newSubsetOrder| then
      Failure(ElementsNotFound)
    else
      Success(Overwrite(items, positionsToUpdate, newSubsetOrder))
  }

  /** The same algorithm as `reorderSubsetInPlace` writes it: a scan that collects
      positions, the count check, then a loop that overwrites a copy. */
  method ReorderSubsetInPlace<T(==)>(items: seq<T>, newSubsetOrder: seq<T>)
    returns (r: Result<seq<T>, ReorderError>)
    ensures r == Reorder(items, newSubsetOrder)
  {
    var positionsToUpdate: seq<nat> := [];
    var i := 0;
    while i < |items|
      invariant 0 <= i <= |items|
      invariant positionsToUpdate == MatchedBelow(items, newSubsetOrder, i)
    {
      if items[i] in newSubsetOrder {
        positionsToUpdate := positionsToUpdate + [i];
      }
      i := i + 1;
    }
    assert positionsToUpdate == MatchedPositions(items, newSubsetOrder);

    if |positionsToUpdate| != |newSubsetOrder| {
      return Failure(ElementsNotFound);
    }

    var mutableArray := items;
    var k := 0;
    while k < |positionsToUpdate|
      invariant 0 <= k <= |positionsToUpdate|
      invariant |mutableArray| == |items|
      invariant Overwrite(mutableArray, positionsToUpdate[k..], newSubsetOrder[k..])
             == Overwrite(items, positionsToUpdate, newSubsetOrder)
    {
      mutableArray := mutableArray[positionsToUpdate[k] := newSubsetOrder[k]];
      k := k + 1;
    }
    return Success(mutableArray);
  }

  /** The count the gate compares is the number of indices whose element
      belongs to `newSubsetOrder`. */
  lemma MatchCountIsIndexCount<T>(items: seq<T>, newSubsetOrder: seq<T>)
    ensures |MatchedPositions(items, newSubsetOrder)|
         == |set i | 0 <= i < |items| && items[i] in newSubsetOrder|
  {
    var ps := MatchedPositions(items, newSubsetOrder);
    var matching := set i | 0 <= i < |items| && items[i] in newSubsetOrder;
    assert Distinct(ps);
    assert Elements(ps) == matching;
    ElementsCard(ps);
  }

  /** The elements at the given positions, in the order of the positions. */
  function Pick<T>(items: seq<T>, positions: seq<nat>): (picked: seq<T>)
    requires InRange(positions, |items|)
    ensures |picked| == |positions|
    ensures forall k :: 0 <= k < |positions| ==> picked[k] == items[positions[k]]
    decreases |positions|
  {
    if |positions| == 0 then [] else [items[positions[0]]] + Pick(items, positions[1..])
  }

  /** Writing at a position that is not picked does not change what is picked. */
  lemma PickSkipsUpdate<T>(items: seq<T>, positions: seq<nat>, p: nat, v: T)
    requires InRange(positions, |items|) && p < |items|
    requires forall k :: 0 <= k < |positions| ==> positions[k] != p
    ensures Pick(items[p := v], positions) == Pick(items, positions)
  {
  }

  /** The elements found at the matched positions, in ascending position order. */
  function MatchedElements<T(==)>(items: seq<T>, newSubsetOrder: seq<T>): seq<T> {
    Pick(items, MatchedPositions(items, newSubsetOrder))
  }

  /** With no repeats in `items`, the matched elements do not repeat and are
      exactly the requested elements that occur in `items`. */
  lemma MatchedElementsOfDistinct<T>(items: seq<T>, newSubsetOrder: seq<T>)
    requires Distinct(items)
    ensures Distinct(MatchedElements(items, newSubsetOrder))
    ensures Elements(MatchedElements(items, newSubsetOrder))
         == Elements(newSubsetOrder) * Elements(items)
  {
    var ps := MatchedPositions(items, newSubsetOrder);
    var m := MatchedElements(items, newSubsetOrder);
    forall x | x in Elements(newSubsetOrder) * Elements(items)
      ensures x in Elements(m)
    {
      var i :| 0 <= i < |items| && items[i] == x;
      var k :| 0 <= k < |ps| && ps[k] == i;
      assert m[k] == x;
    }
  }

  /** With no repeats in `items`, a requested element missing from `items`
      makes the engine throw. */
  lemma MissingElementFails<T>(items: seq<T>, newSubsetOrder: seq<T>, missing: T)
    requires Distinct(items)
    requires missing in newSubsetOrder && missing !in items
    ensures Reorder(items, newSubsetOrder).Failure?
  {
    var m := MatchedElements(items, newSubsetOrder);
    MatchedElementsOfDistinct(items, newSubsetOrder);
    ElementsCard(m);
    ElementsCard(newSubsetOrder);
    assert missing in Elements(newSubsetOrder);
    SubsetCard(Elements(m), Elements(newSubsetOrder) - {missing});
  }

  /** With no repeats in either input, the engine succeeds exactly when every
      requested element occurs in `items`. */
  lemma SucceedsIffAllPresent<T>(items: seq<T>, newSubsetOrder: seq<T>)
    requires Distinct(items) && Distinct(newSubsetOrder)
    ensures Reorder(items, newSubsetOrder).Success?
        <==> forall x :: x in newSubsetOrder ==> x in items
  {
    if forall x :: x in newSubsetOrder ==> x in items {
      var m := MatchedElements(items, newSubsetOrder);
      MatchedElementsOfDistinct(items, newSubsetOrder);
      assert Elements(m) == Elements(newSubsetOrder);
      ElementsCard(m);
      ElementsCard(newSubsetOrder);
    } else {
      var missing :| missing in newSubsetOrder && missing !in items;
      MissingElementFails(items, newSubsetOrder, missing);
    }
  }

  /** On success, a slot holds a requested element after the reorder exactly
      when it held one before: the subset keeps its set of positions. */
  lemma SubsetKeepsPositions<T>(items: seq<T>, newSubsetOrder: seq<T>)
    requires Reorder(items, newSubsetOrder).Success?
    ensures var r := Reorder(items, newSubsetOrder).value;
      forall i :: 0 <= i < |items| ==> (r[i] in newSubsetOrder <==> items[i] in newSubsetOrder)
  {
    var r := Reorder(items, newSubsetOrder).value;
    var ps := MatchedPositions(items, newSubsetOrder);
    forall i | 0 <= i < |items| && items[i] in newSubsetOrder
      ensures r[i] in newSubsetOrder
    {
      var k :| 0 <= k < |ps| && ps[k] == i;
      assert r[i] == newSubsetOrder[k];
    }
  }

  /** Writing one element into a sequence trades the old element's
      occurrence for the new one's. */
  lemma UpdateMultiset<T>(s: seq<T>, i: nat, v: T)
    requires i < |s|
    ensures multiset(s[i := v]) + multiset{s[i]} == multiset(s) + multiset{v}
  {
    assert s == s[..i] + [s[i]] + s[i + 1..];
    assert s[i := v] == s[..i] + [v] + s[i + 1..];
  }

  /** Bookkeeping for one overwrite step: if writing `added` over `removed`
      turns `before` into `after`, the step can be prepended to an exchange
      that already balances. */
  lemma ExchangeCounts<T>(result: multiset<T>, picked: multiset<T>, after: multiset<T>,
                          written: multiset<T>, before: multiset<T>,
                          removed: multiset<T>, added: multiset<T>,
                          allPicked: multiset<T>, allWritten: multiset<T>)
    requires result + picked == after + written
    requires after + removed == before + added
    requires allPicked == picked + removed
    requires allWritten == added + written
    ensures result + allPicked == before + allWritten
  {
    calc {
      result + allPicked;
      (result + picked) + removed;
      (after + written) + removed;
      (after + removed) + written;
      (before + added) + written;
    }
  }

  /** The occurrences in a non-empty sequence are those of its head and tail. */
  lemma MultisetHeadTail<T>(s: seq<T>)
    requires |s| > 0
    ensures multiset(s) == multiset{s[0]} + multiset(s[1..])
  {
    assert s == [s[0]] + s[1..];
  }

  /** Overwriting trades the elements that were at the positions for the
      values written there, occurrence for occurrence. */
  lemma {:induction false} OverwriteMultiset<T>(items: seq<T>, positions: seq<nat>, values: seq<T>)
    requires |positions| == |values|
    requires StrictlyIncreasing(positions) && InRange(positions, |items|)
    ensures multiset(Overwrite(items, positions, values)) + multiset(Pick(items, positions))
         == multiset(items) + multiset(values)
    decreases |positions|
  {
    if |positions| > 0 {
      var p := positions[0];
      var updated := items[p := values[0]];
      var rest := positions[1..];
      var result := Overwrite(items, positions, values);
      assert result == Overwrite(updated, rest, values[1..]);
      OverwriteMultiset(updated, rest, values[1..]);
      PickSkipsUpdate(items, rest, p, values[0]);
      UpdateMultiset(items, p, values[0]);
      MultisetHeadTail(Pick(items, positions));
      MultisetHeadTail(values);
      ExchangeCounts(multiset(result), multiset(Pick(items, rest)),
                     multiset(updated), multiset(values[1..]),
                     multiset(items), multiset{items[p]}, multiset{values[0]},
                     multiset(Pick(items, positions)), multiset(values));
    }
  }

  /** With no repeats in either input and every requested element present,
      the reorder succeeds and is a permutation of `items`. */
  lemma ReorderIsPermutation<T>(items: seq<T>, newSubsetOrder: seq<T>)
    requires Distinct(items) && Distinct(newSubsetOrder)
    requires forall x :: x in newSubsetOrder ==> x in items
    ensures Reorder(items, newSubsetOrder).Success?
    ensures multiset(Reorder(items, newSubsetOrder).value) == multiset(items)
  {
    SucceedsIffAllPresent(items, newSubsetOrder);
    var ps := MatchedPositions(items, newSubsetOrder);
    var m := MatchedElements(items, newSubsetOrder);
    assert Reorder(items, newSubsetOrder).value == Overwrite(items, ps, newSubsetOrder);
    OverwriteMultiset(items, ps, newSubsetOrder);
    MatchedElementsOfDistinct(items, newSubsetOrder);
    DistinctPermutation(m, newSubsetOrder);
    CancelCounts(multiset(Overwrite(items, ps, newSubsetOrder)), multiset(items), multiset(m));
  }

  /** Adding the same occurrences to both sides can be undone. */
  lemma CancelCounts<T>(a: multiset<T>, b: multiset<T>, c: multiset<T>)
    requires a + c == b + c
    ensures a == b
  {
    forall x
      ensures a[x] == b[x]
    {
      assert (a + c)[x] == (b + c)[x];
    }
  }

  /** The positions scan only looks at which slots hold requested elements. */
  lemma {:induction false} MatchedPositionsFollowPattern<T>(a: seq<T>, b: seq<T>, newSubsetOrder: seq<T>, n: nat)
    requires n <= |a| == |b|
    requires forall i :: 0 <= i < n ==> (a[i] in newSubsetOrder <==> b[i] in newSubsetOrder)
    ensures MatchedBelow(a, newSubsetOrder, n) == MatchedBelow(b, newSubsetOrder, n)
    decreases n
  {
    if n > 0 {
      MatchedPositionsFollowPattern(a, b, newSubsetOrder, n - 1);
    }
  }

  /** Reordering the result again with the same subset changes nothing. */
  lemma ReorderIdempotent<T>(items: seq<T>, newSubsetOrder: seq<T>)
    requires Reorder(items, newSubsetOrder).Success?
    ensures Reorder(Reorder(items, newSubsetOrder).value, newSubsetOrder)
         == Reorder(items, newSubsetOrder)
  {
    var r := Reorder(items, newSubsetOrder).value;
    SubsetKeepsPositions(items, newSubsetOrder);
    MatchedPositionsFollowPattern(items, r, newSubsetOrder, |items|);
    var again := Reorder(r, newSubsetOrder).value;
    assert again == r;
  }

  /** An empty subset returns a copy equal to `items`; empty with empty is empty. */
  lemma EmptySubsetKeepsArray<T>(items: seq<T>)
    ensures Reorder(items, []) == Success(items)
    ensures var empty: seq<T> := []; Reorder(empty, []) == Success([])
  {
    var empty: seq<T> := [];
    MatchCountIsIndexCount(items, empty);
    assert (set i | 0 <= i < |items| && items[i] in empty) == {};
    assert Reorder(items, []).value == items;
  }

  /** Whenever a single requested element passes the gate, the result equals
      `items`: the one matched slot already holds that element. */
  lemma SingleElementKeepsArray<T>(items: seq<T>, element: T)
    requires Reorder(items, [element]).Success?
    ensures Reorder(items, [element]).value == items
  {
    var r := Reorder(items, [element]).value;
    var ps := MatchedPositions(items, [element]);
    assert r[ps[0]] == element == items[ps[0]];
  }

  /** In a repeat-free `items` holding the element, the single-element
      reorder succeeds and changes nothing. */
  lemma SingleElementKeepsDistinctArray<T>(items: seq<T>, element: T)
    requires Distinct(items) && element in items
    ensures Reorder(items, [element]) == Success(items)
  {
    SucceedsIffAllPresent(items, [element]);
    SingleElementKeepsArray(items, element);
  }

  /** The positions scan of the worked example finds `a`, `c` and `e`. */
  lemma WorkedExamplePositions()
    ensures MatchedPositions(['a', 'b', 'c', 'd', 'e', 'f'], ['e', 'a', 'c']) == [0, 2, 4]
  {
    var items := ['a', 'b', 'c', 'd', 'e', 'f'];
    var order := ['e', 'a', 'c'];
    assert MatchedBelow(items, order, 1) == [0];
    assert MatchedBelow(items, order, 2) == [0];
    assert MatchedBelow(items, order, 3) == [0, 2];
    assert MatchedBelow(items, order, 4) == [0, 2];
    assert MatchedBelow(items, order, 5) == [0, 2, 4];
  }

  /** The worked example: `e, a, c` go to the slots of `a, c, e`. */
  lemma WorkedExample()
    ensures Reorder(['a', 'b', 'c', 'd', 'e', 'f'], ['e', 'a', 'c'])
         == Success(['e', 'b', 'a', 'd', 'c', 'f'])
  {
    var items := ['a', 'b', 'c', 'd', 'e', 'f'];
    var order := ['e', 'a', 'c'];
    WorkedExamplePositions();
    var r := Reorder(items, order).value;
    assert r[0] == 'e' && r[2] == 'a' && r[4] == 'c';
    assert r[1] == 'b' && r[3] == 'd' && r[5] == 'f';
    assert r == ['e', 'b', 'a', 'd', 'c', 'f'];
    assert Reorder(items, order) == Success(r);
  }

  /** An element absent from `items` makes the engine throw. */
  lemma InvalidElementExample()
    ensures Reorder(['a', 'b', 'c', 'd', 'e', 'f'], ['a', 'b', 'g']).Failure?
  {
    MissingElementFails(['a', 'b', 'c', 'd', 'e', 'f'], ['a', 'b', 'g'], 'g');
  }

  /** With repeats in `items` the gate counts positions, not elements:
      `a, x` matches two slots of `a, a, b` and does not throw, and the
      result is no longer a permutation of `items`. */
  lemma DuplicateCountExample()
    ensures Reorder(['a', 'a', 'b'], ['a', 'x']) == Success(['a', 'x', 'b'])
  {
    var items := ['a', 'a', 'b'];
    var order := ['a', 'x'];
    assert MatchedBelow(items, order, 1) == [0];
    assert MatchedBelow(items, order, 2) == [0, 1];
    assert MatchedPositions(items, order) == [0, 1];
    var r := Reorder(items, order).value;
    assert r[0] == 'a' && r[1] == 'x' && r[2] == 'b';
    assert r == ['a', 'x', 'b'];
    assert Reorder(items, order) == Success(r);
  }
}
