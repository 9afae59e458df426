/** Sequence facts shared by the model: duplicate-freedom, first occurrence, and pandas'
    order-preserving `unique()`. */
module Seqs {

  predicate NoDup<T(==)>(s: seq<T>)
  {
    forall i, j :: 0 <= i < j < |s| ==> s[i] != s[j]
  }

  /** Python's `list.index`: the position of the first occurrence of `x`. */
  function FirstIndex<T(==)>(s: seq<T>, x: T): (k: nat)
    requires x in s
    ensures k < |s| && s[k] == x
    ensures forall i :: 0 <= i < k ==> s[i] != x
  {
    if s[0] == x then 0 else FirstIndex(s[1..], x) + 1
  }

  /** A position holding `x` with no `x` before it is the first index of `x`. */
  lemma FirstIndexIsUnique<T>(s: seq<T>, x: T, k: nat)
    requires k < |s| && s[k] == x && forall i :: 0 <= i < k ==> s[i] != x
    ensures FirstIndex(s, x) == k
  {
  }

  /** Appending never moves the first occurrence of an element already present, and an
      element first seen at the end sits at the end. */
  lemma FirstIndexAppend<T>(p: seq<T>, x: T, y: T)
    ensures y in p ==> FirstIndex(p + [x], y) == FirstIndex(p, y)
    ensures y !in p && x == y ==> FirstIndex(p + [x], y) == |p|
  {
    var s := p + [x];
    if y in p {
      FirstIndexIsUnique(s, y, FirstIndex(p, y));
    } else if x == y {
      FirstIndexIsUnique(s, y, |p|);
    }
  }

  /** pandas' `Series.unique()`: each distinct element once, in order of first appearance. */
  function Unique<T(==)>(s: seq<T>): (r: seq<T>)
    ensures NoDup(r)
    ensures forall i :: 0 <= i < |r| ==> r[i] in s
    ensures forall i :: 0 <= i < |s| ==> s[i] in r
  {
    if s == [] then []
    else
      var p := s[..|s| - 1];
      var x := s[|s| - 1];
      assert s == p + [x];
      var rest := Unique(p);
      if x in rest then rest else rest + [x]
  }

  lemma UniqueHasSameMembers<T>(s: seq<T>, x: T)
    ensures x in Unique(s) <==> x in s
  {
    if x in s {
      var k :| 0 <= k < |s| && s[k] == x;
    }
  }

  /** The elements `Unique` keeps are ordered by where each first occurs in the input. */
  lemma {:induction false} UniqueKeepsFirstAppearanceOrder<T>(s: seq<T>)
    ensures forall i, j :: 0 <= i < j < |Unique(s)| ==>
      FirstIndex(s, Unique(s)[i]) < FirstIndex(s, Unique(s)[j])
  {
    if s != [] {
      var p := s[..|s| - 1];
      var x := s[|s| - 1];
      assert s == p + [x];
      var rest := Unique(p);
      var r := Unique(s);
      UniqueKeepsFirstAppearanceOrder(p);
      forall i, j | 0 <= i < j < |r|
        ensures FirstIndex(s, r[i]) < FirstIndex(s, r[j])
      {
        FirstIndexAppend(p, x, r[i]);
        FirstIndexAppend(p, x, r[j]);
        if j == |rest| {
          assert r[i] == rest[i] && r[j] == x && x !in p;
        } else {
          assert r[i] == rest[i] && r[j] == rest[j];
        }
      }
    }
  }
}
