/** Facts about sequences that several components need. */
module Sequences {

  /** `xs` is an initial segment of `ys`. */
  predicate IsPrefix<T(==)>(xs: seq<T>, ys: seq<T>) {
    |xs| <= |ys| && xs == ys[..|xs|]
  }

  predicate NoDuplicates<T(==)>(xs: seq<T>) {
    forall i, j :: 0 <= i < j < |xs| ==> xs[i] != xs[j]
  }

  /** Concatenates a sequence of sequences. */
  function Flatten<T>(xss: seq<seq<T>>): seq<T> {
    if xss == [] then [] else xss[0] + Flatten(xss[1..])
  }

  /** An element of the concatenation is an element of one of the parts. */
  lemma {:induction false} FlattenMembers<T>(xss: seq<seq<T>>, x: T)
    ensures x in Flatten(xss) <==> exists i :: 0 <= i < |xss| && x in xss[i]
  {
    if xss != [] {
      FlattenMembers(xss[1..], x);
      if x in Flatten(xss[1..]) {
        var i :| 0 <= i < |xss[1..]| && x in xss[1..][i];
        assert x in xss[i + 1];
      }
      if i :| 0 <= i < |xss| && x in xss[i] {
        assert i > 0 ==> x in xss[1..][i - 1];
      }
    }
  }

  lemma {:induction false} FlattenAppend<T>(xss: seq<seq<T>>, yss: seq<seq<T>>)
    ensures Flatten(xss + yss) == Flatten(xss) + Flatten(yss)
  {
    if xss == [] {
      assert xss + yss == yss;
    } else {
      FlattenAppend(xss[1..], yss);
      assert (xss + yss)[1..] == xss[1..] + yss && (xss + yss)[0] == xss[0];
      assert xss[0] + (Flatten(xss[1..]) + Flatten(yss)) == Flatten(xss) + Flatten(yss);
    }
  }

  lemma FlattenSnoc<T>(xss: seq<seq<T>>, xs: seq<T>)
    ensures Flatten(xss + [xs]) == Flatten(xss) + xs
  {
    FlattenAppend(xss, [xs]);
    assert Flatten([xs]) == xs + Flatten([]) == xs;
  }

  lemma SliceOfSlice<T>(xs: seq<T>, from: nat, to: nat, i: nat, j: nat)
    requires from <= to <= |xs| && i <= j <= to - from
    ensures xs[from..to][i..j] == xs[from + i..from + j]
  {
    forall k | 0 <= k < j - i ensures xs[from..to][i..j][k] == xs[from + i..from + j][k] {
      assert xs[from..to][i..j][k] == xs[from..to][i + k] == xs[from + i + k];
    }
  }

}
