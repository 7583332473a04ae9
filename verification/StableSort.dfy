/**
 Stable sorting, as the standard library's `sort_by` promises it: what is sorted
 before what is a parameter, and elements that compare equal keep their order.
 */
module StableSort {

  /** `leq` orders every two elements, and consistently. */
  ghost predicate TotalPreorder<T(!new)>(leq: (T, T) -> bool) {
    && (forall x, y :: leq(x, y) || leq(y, x))
    && (forall x, y, z :: leq(x, y) && leq(y, z) ==> leq(x, z))
  }

  predicate Sorted<T>(leq: (T, T) -> bool, xs: seq<T>) {
    forall i, j :: 0 <= i < j < |xs| ==> leq(xs[i], xs[j])
  }

  /** Puts `x` before the first element it may stand before. */
  function Insert<T>(leq: (T, T) -> bool, x: T, xs: seq<T>): seq<T> {
    if xs == [] then [x]
    else if leq(x, xs[0]) then [x] + xs
    else [xs[0]] + Insert(leq, x, xs[1..])
  }

  function Sort<T>(leq: (T, T) -> bool, xs: seq<T>): seq<T> {
    if xs == [] then [] else Insert(leq, xs[0], Sort(leq, xs[1..]))
  }

  /** The elements of `xs` that compare equal to `x`, in order. */
  function Peers<T>(leq: (T, T) -> bool, x: T, xs: seq<T>): seq<T> {
    if xs == [] then []
    else (if leq(x, xs[0]) && leq(xs[0], x) then [xs[0]] else []) + Peers(leq, x, xs[1..])
  }

  lemma {:induction false} InsertAdds<T>(leq: (T, T) -> bool, x: T, xs: seq<T>)
    ensures multiset(Insert(leq, x, xs)) == multiset{x} + multiset(xs)
  {
    if xs != [] && !leq(x, xs[0]) {
      InsertAdds(leq, x, xs[1..]);
      assert xs == [xs[0]] + xs[1..];
    }
  }

  lemma FirstIsLeast<T(!new)>(leq: (T, T) -> bool, xs: seq<T>, x: T)
    requires TotalPreorder(leq) && Sorted(leq, xs) && x in xs
    ensures leq(xs[0], x)
  {
  }

  lemma SortedCons<T(!new)>(leq: (T, T) -> bool, x: T, xs: seq<T>)
    requires Sorted(leq, xs) && forall y :: y in xs ==> leq(x, y)
    ensures Sorted(leq, [x] + xs)
  {
  }

  lemma {:induction false} InsertSorts<T(!new)>(leq: (T, T) -> bool, x: T, xs: seq<T>)
    requires TotalPreorder(leq) && Sorted(leq, xs)
    ensures Sorted(leq, Insert(leq, x, xs))
    ensures forall y :: y in Insert(leq, x, xs) ==> y == x || y in xs
  {
    if xs != [] {
      forall y | y in xs ensures leq(xs[0], y) {
        FirstIsLeast(leq, xs, y);
      }
      if leq(x, xs[0]) {
        SortedCons(leq, x, xs);
      } else {
        InsertSorts(leq, x, xs[1..]);
        SortedCons(leq, xs[0], Insert(leq, x, xs[1..]));
      }
    }
  }

  /** The result is sorted and holds the same elements. */
  lemma {:induction false} SortSorts<T(!new)>(leq: (T, T) -> bool, xs: seq<T>)
    requires TotalPreorder(leq)
    ensures Sorted(leq, Sort(leq, xs)) && multiset(Sort(leq, xs)) == multiset(xs)
    ensures |Sort(leq, xs)| == |xs|
  {
    if xs != [] {
      SortSorts(leq, xs[1..]);
      InsertSorts(leq, xs[0], Sort(leq, xs[1..]));
      InsertAdds(leq, xs[0], Sort(leq, xs[1..]));
      assert xs == [xs[0]] + xs[1..];
    }
    assert |multiset(Sort(leq, xs))| == |Sort(leq, xs)|;
  }

  lemma {:induction false} InsertKeepsPeers<T(!new)>(leq: (T, T) -> bool, x: T, xs: seq<T>, y: T)
    requires TotalPreorder(leq) && Sorted(leq, xs)
    ensures Peers(leq, y, Insert(leq, x, xs)) ==
            (if leq(x, y) && leq(y, x) then [x] else []) + Peers(leq, y, xs)
  {
    var own := if leq(x, y) && leq(y, x) then [x] else [];
    if xs == [] || leq(x, xs[0]) {
      assert ([x] + xs)[1..] == xs;
    } else {
      InsertKeepsPeers(leq, x, xs[1..], y);
      var rest := Insert(leq, x, xs[1..]);
      assert ([xs[0]] + rest)[1..] == rest;
      if leq(y, xs[0]) && leq(xs[0], y) {
        assert own == [];
        assert Peers(leq, y, rest) == Peers(leq, y, xs[1..]);
      }
    }
  }

  /** Elements that compare equal keep the order they came in. */
  lemma {:induction false} SortIsStable<T(!new)>(leq: (T, T) -> bool, xs: seq<T>, y: T)
    requires TotalPreorder(leq)
    ensures Peers(leq, y, Sort(leq, xs)) == Peers(leq, y, xs)
  {
    if xs != [] {
      SortIsStable(leq, xs[1..], y);
      SortSorts(leq, xs[1..]);
      InsertKeepsPeers(leq, xs[0], Sort(leq, xs[1..]), y);
    }
  }

  /** What is sorted stays as it is. */
  lemma {:induction false} SortedStays<T(!new)>(leq: (T, T) -> bool, xs: seq<T>)
    requires Sorted(leq, xs)
    ensures Sort(leq, xs) == xs
  {
    if xs != [] {
      SortedStays(leq, xs[1..]);
      assert |xs| > 1 ==> xs[1..][0] == xs[1];
    }
  }

  lemma {:induction false} PeersAreMembers<T(!new)>(leq: (T, T) -> bool, x: T, xs: seq<T>)
    ensures forall y :: y in Peers(leq, x, xs) <==> y in xs && leq(x, y) && leq(y, x)
  {
    if xs != [] {
      PeersAreMembers(leq, x, xs[1..]);
    }
  }

  /** Two sorted sequences that agree class by class are the same sequence: a
      stable sort has only one result. */
  lemma {:induction false} PeersDetermineSorted<T(!new)>(leq: (T, T) -> bool, xs: seq<T>, ys: seq<T>)
    requires TotalPreorder(leq) && Sorted(leq, xs) && Sorted(leq, ys)
    requires forall y :: Peers(leq, y, xs) == Peers(leq, y, ys)
    ensures xs == ys
  {
    if ys != [] {
      PeersAreMembers(leq, ys[0], ys);
    }
    if xs != [] {
      PeersAreMembers(leq, xs[0], xs);
      PeersAreMembers(leq, xs[0], ys);
      assert xs[0] in Peers(leq, xs[0], xs);
      assert ys != [];
      PeersAreMembers(leq, ys[0], xs);
      assert ys[0] in Peers(leq, ys[0], ys);
      assert leq(xs[0], ys[0]) && leq(ys[0], xs[0]);
      assert Peers(leq, xs[0], xs)[0] == xs[0] && Peers(leq, xs[0], ys)[0] == ys[0];
      forall y ensures Peers(leq, y, xs[1..]) == Peers(leq, y, ys[1..]) {
        assert Peers(leq, y, xs) == Peers(leq, y, ys);
        var head := if leq(y, xs[0]) && leq(xs[0], y) then [xs[0]] else [];
        assert Peers(leq, y, xs) == head + Peers(leq, y, xs[1..]);
        assert Peers(leq, y, ys) == head + Peers(leq, y, ys[1..]);
        assert Peers(leq, y, xs[1..]) == Peers(leq, y, xs)[|head|..];
        assert Peers(leq, y, ys[1..]) == Peers(leq, y, ys)[|head|..];
      }
      PeersDetermineSorted(leq, xs[1..], ys[1..]);
    }
  }

  lemma TailElements<T>(xs: seq<T>)
    requires xs != []
    ensures multiset(xs[1..]) == multiset(xs) - multiset{xs[0]}
  {
    assert xs == [xs[0]] + xs[1..];
  }

  /** No two different elements of `xs` compare equal. */
  ghost predicate HasNoTies<T(!new)>(leq: (T, T) -> bool, xs: seq<T>) {
    forall x, y :: x in xs && y in xs && leq(x, y) && leq(y, x) ==> x == y
  }

  /** Without ties the sorted arrangement of given elements is unique. */
  lemma {:induction false} SortedIsUnique<T(!new)>(leq: (T, T) -> bool, xs: seq<T>, ys: seq<T>)
    requires TotalPreorder(leq) && Sorted(leq, xs) && Sorted(leq, ys)
    requires HasNoTies(leq, xs) && multiset(xs) == multiset(ys)
    ensures xs == ys
  {
    assert |multiset(xs)| == |xs| && |multiset(ys)| == |ys|;
    if xs != [] {
      assert ys[0] in multiset(xs) && xs[0] in multiset(ys);
      FirstIsLeast(leq, xs, ys[0]);
      FirstIsLeast(leq, ys, xs[0]);
      TailElements(xs);
      TailElements(ys);
      SortedIsUnique(leq, xs[1..], ys[1..]);
    }
  }

  /** `ys` holds the elements of `xs`, sorted. */
  ghost predicate IsArrangement<T>(leq: (T, T) -> bool, ys: seq<T>, xs: seq<T>) {
    multiset(ys) == multiset(xs) && Sorted(leq, ys)
  }

  ghost predicate HasOneArrangement<T(!new)>(leq: (T, T) -> bool, xs: seq<T>) {
    forall ys, zs :: IsArrangement(leq, ys, xs) && IsArrangement(leq, zs, xs) ==> ys == zs
  }

  /** Two elements that compare equal can change places. */
  lemma TiesCanBeSwapped<T(!new)>(leq: (T, T) -> bool, ys: seq<T>, i: nat, j: nat)
    requires TotalPreorder(leq) && Sorted(leq, ys) && i < |ys| && j < |ys|
    requires leq(ys[i], ys[j]) && leq(ys[j], ys[i])
    ensures IsArrangement(leq, ys[i := ys[j]][j := ys[i]], ys)
  {
    var zs := ys[i := ys[j]][j := ys[i]];
    assert forall k :: 0 <= k < |ys| ==> leq(zs[k], ys[k]) && leq(ys[k], zs[k]);
    forall p, q | 0 <= p < q < |zs| ensures leq(zs[p], zs[q]) {
      assert leq(zs[p], ys[p]) && leq(ys[p], ys[q]) && leq(ys[q], zs[q]);
    }
  }

  lemma SameMembers<T>(xs: seq<T>, ys: seq<T>, x: T)
    requires multiset(xs) == multiset(ys)
    ensures x in xs <==> x in ys
  {
    assert x in xs <==> x in multiset(xs);
  }

  lemma TwoArrangements<T(!new)>(leq: (T, T) -> bool, xs: seq<T>, ys: seq<T>, zs: seq<T>)
    requires HasOneArrangement(leq, xs) && IsArrangement(leq, ys, xs) && IsArrangement(leq, zs, ys)
    ensures ys == zs
  {
    hide Sorted;
    assert IsArrangement(leq, zs, xs);
  }

  lemma SortArranges<T(!new)>(leq: (T, T) -> bool, xs: seq<T>) returns (ys: seq<T>)
    requires TotalPreorder(leq)
    ensures IsArrangement(leq, ys, xs) && Sorted(leq, ys) && forall x :: x in xs <==> x in ys
  {
    SortSorts(leq, xs);
    ys := Sort(leq, xs);
    hide Sort, Sorted, TotalPreorder;
    forall x ensures x in xs <==> x in ys {
      SameMembers(xs, ys, x);
    }
  }

  lemma OneArrangementMergesTies<T(!new)>(leq: (T, T) -> bool, xs: seq<T>, x: T, y: T)
    requires TotalPreorder(leq) && HasOneArrangement(leq, xs)
    requires x in xs && y in xs && leq(x, y) && leq(y, x)
    ensures x == y
  {
    hide *;
    var ys := SortArranges(leq, xs);
    var i :| 0 <= i < |ys| && ys[i] == x;
    var j :| 0 <= j < |ys| && ys[j] == y;
    var zs := ys[i := ys[j]][j := ys[i]];
    TiesCanBeSwapped(leq, ys, i, j);
    TwoArrangements(leq, xs, ys, zs);
    assert zs[j] == ys[i];
    assert i != j ==> zs[i] == ys[j];
  }

  /** Sorting determines the order of given elements if and only if no two different
      ones compare equal. */
  lemma OneArrangementIffNoTies<T(!new)>(leq: (T, T) -> bool, xs: seq<T>)
    requires TotalPreorder(leq)
    ensures HasOneArrangement(leq, xs) <==> HasNoTies(leq, xs)
  {
    hide TotalPreorder, Sorted;
    if HasNoTies(leq, xs) {
      forall ys, zs | IsArrangement(leq, ys, xs) && IsArrangement(leq, zs, xs) ensures ys == zs {
        NoTiesInArrangement(leq, ys, xs);
        SortedIsUnique(leq, ys, zs);
      }
    }
    if HasOneArrangement(leq, xs) {
      forall x, y | x in xs && y in xs && leq(x, y) && leq(y, x) ensures x == y {
        OneArrangementMergesTies(leq, xs, x, y);
      }
    }
  }

  lemma NoTiesInArrangement<T(!new)>(leq: (T, T) -> bool, ys: seq<T>, xs: seq<T>)
    requires HasNoTies(leq, xs) && multiset(ys) == multiset(xs)
    ensures HasNoTies(leq, ys)
  {
    forall x, y | x in ys && y in ys && leq(x, y) && leq(y, x) ensures x == y {
      SameMembers(xs, ys, x);
      SameMembers(xs, ys, y);
    }
  }
}
