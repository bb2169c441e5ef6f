/** Sequence facts used by the download watcher (`if pdf not in found_pdfs:
    found_pdfs.append(pdf)`) and the report extractor (`[...new Set(xs)]`):
    appending only what is not yet present. */
module Seqs {

  predicate NoDup<T(==)>(s: seq<T>) {
    forall i, j :: 0 <= i < j < |s| ==> s[i] != s[j]
  }

  function Elems<T>(s: seq<T>): set<T> {
    set x | x in s
  }

  /** A list comprehension `[x for x in s if p(x)]`: order kept. */
  function Filter<T(!new)>(s: seq<T>, p: T -> bool): (r: seq<T>)
    ensures |r| <= |s|
    ensures forall x :: x in r <==> x in s && p(x)
  {
    if s == [] then []
    else
      var rest := Filter(s[1..], p);
      assert forall x :: x in s <==> x == s[0] || x in s[1..];
      (if p(s[0]) then [s[0]] else []) + rest
  }

  /** Walks xs in order and appends each element that the growing result does
      not hold yet. The old contents stay in front, nothing is lost, nothing
      is added twice. */
  function AddNew<T(==)>(acc: seq<T>, xs: seq<T>): (r: seq<T>)
    ensures |acc| <= |r| && r[..|acc|] == acc
    ensures Elems(r) == Elems(acc) + Elems(xs)
    ensures NoDup(acc) ==> NoDup(r)
    decreases |xs|
  {
    if xs == [] then acc
    else if xs[0] in acc then
      assert Elems(xs) == {xs[0]} + Elems(xs[1..]);
      AddNew(acc, xs[1..])
    else
      var acc' := acc + [xs[0]];
      var r := AddNew(acc', xs[1..]);
      assert Elems(xs) == {xs[0]} + Elems(xs[1..]);
      assert Elems(acc') == Elems(acc) + {xs[0]};
      assert r[..|acc|] == r[..|acc'|][..|acc|];
      r
  }

  /** `[...new Set(xs)]`: the distinct elements of xs in order of first appearance. */
  function Distinct<T(==)>(xs: seq<T>): (r: seq<T>)
    ensures NoDup(r)
    ensures Elems(r) == Elems(xs)
  {
    AddNew([], xs)
  }

  /** Everything AddNew appends beyond acc comes from xs and was not in acc. */
  lemma {:induction false} AddNewFirstSeen<T>(acc: seq<T>, xs: seq<T>, k: nat)
    requires |acc| <= k < |AddNew(acc, xs)|
    ensures AddNew(acc, xs)[k] in xs && AddNew(acc, xs)[k] !in acc
    decreases |xs|
  {
    if xs != [] {
      if xs[0] in acc {
        AddNewFirstSeen(acc, xs[1..], k);
      } else {
        var acc' := acc + [xs[0]];
        if k > |acc| {
          AddNewFirstSeen(acc', xs[1..], k);
        } else {
          assert AddNew(acc', xs[1..])[..|acc'|] == acc';
        }
      }
    }
  }

  /** An element absent from the first i + 1 elements of the tail and
      different from the head is absent from the first i + 2 elements. */
  lemma PrefixCons<T>(xs: seq<T>, i: nat, y: T)
    requires i + 2 <= |xs|
    requires y != xs[0] && y !in xs[1..][..i + 1]
    ensures y !in xs[..i + 2]
  {
    assert xs[..i + 2] == [xs[0]] + xs[1..][..i + 1];
  }

  /** Order of first appearance: if a precedes b in the result of Distinct,
      then a's first occurrence in xs precedes b's first occurrence. */
  lemma {:induction false} AddNewOrder<T>(acc: seq<T>, xs: seq<T>, a: nat, b: nat)
    requires |acc| <= a < b < |AddNew(acc, xs)|
    ensures exists i :: 0 <= i < |xs| && xs[i] == AddNew(acc, xs)[a] && AddNew(acc, xs)[b] !in xs[..i + 1]
    decreases |xs|
  {
    var r := AddNew(acc, xs);
    if xs[0] in acc {
      assert r == AddNew(acc, xs[1..]);
      AddNewOrder(acc, xs[1..], a, b);
      var i :| 0 <= i < |xs[1..]| && xs[1..][i] == r[a] && r[b] !in xs[1..][..i + 1];
      AddNewFirstSeen(acc, xs[1..], b);
      PrefixCons(xs, i, r[b]);
      assert xs[i + 1] == r[a];
    } else {
      var acc' := acc + [xs[0]];
      assert r == AddNew(acc', xs[1..]);
      assert AddNew(acc', xs[1..])[..|acc'|] == acc';
      AddNewFirstSeen(acc', xs[1..], b);
      assert r[b] !in acc';
      if a == |acc| {
        assert r[a] == xs[0];
        assert xs[..1] == [xs[0]];
      } else {
        AddNewOrder(acc', xs[1..], a, b);
        var i :| 0 <= i < |xs[1..]| && xs[1..][i] == r[a] && r[b] !in xs[1..][..i + 1];
        PrefixCons(xs, i, r[b]);
        assert xs[i + 1] == r[a];
      }
    }
  }
}
