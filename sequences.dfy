/** `Array.prototype.filter` and the order-preservation notion it satisfies. */
module Sequences {

  /** `a` is `b` with some elements left out and the rest in their original order. */
  predicate IsSubsequence<T(==)>(a: seq<T>, b: seq<T>)
    decreases |b|
  {
    if a == [] then true
    else if b == [] then false
    else (a[0] == b[0] && IsSubsequence(a[1..], b[1..])) || IsSubsequence(a, b[1..])
  }

  lemma {:induction false} SubsequenceMembers<T>(a: seq<T>, b: seq<T>)
    requires IsSubsequence(a, b)
    ensures forall x :: x in a ==> x in b
    decreases |b|
  {
    if a != [] {
      if a[0] == b[0] && IsSubsequence(a[1..], b[1..]) {
        SubsequenceMembers(a[1..], b[1..]);
        assert forall x :: x in a ==> x == a[0] || x in a[1..];
      } else {
        SubsequenceMembers(a, b[1..]);
      }
    }
  }

  /** The element a filter step keeps in front of the filtered rest, if any. */
  function Kept<T>(s: seq<T>, keep: T -> bool, rest: seq<T>): seq<T>
    requires s != []
  {
    if keep(s[0]) then [s[0]] + rest else rest
  }

  /** A filter step keeps the members that satisfy `keep`. */
  lemma StepMembers<T(!new)>(s: seq<T>, keep: T -> bool, rest: seq<T>)
    requires s != [] && forall x :: x in rest <==> x in s[1..] && keep(x)
    ensures forall x :: x in Kept(s, keep, rest) <==> x in s && keep(x)
  {
    assert forall x :: x in s <==> x == s[0] || x in s[1..];
  }

  /** A filter step keeps every occurrence that satisfies `keep`. */
  lemma StepCounts<T(!new)>(s: seq<T>, keep: T -> bool, rest: seq<T>)
    requires s != [] && forall x :: multiset(rest)[x] == if keep(x) then multiset(s[1..])[x] else 0
    ensures forall x :: multiset(Kept(s, keep, rest))[x] == if keep(x) then multiset(s)[x] else 0
  {
    assert multiset(s) == multiset{s[0]} + multiset(s[1..]) by {
      assert s == [s[0]] + s[1..];
    }
  }

  /** A filter step keeps the order. */
  lemma StepSubsequence<T>(s: seq<T>, keep: T -> bool, rest: seq<T>)
    requires s != [] && IsSubsequence(rest, s[1..])
    ensures IsSubsequence(Kept(s, keep, rest), s)
  {
    var r := Kept(s, keep, rest);
    if keep(s[0]) {
      assert r[0] == s[0] && r[1..] == rest;
    }
  }

  /** A sequence is its first `k` elements followed by the rest. */
  lemma TakeDrop<T>(s: seq<T>, k: nat)
    requires k <= |s|
    ensures s[..k] + s[k..] == s
  {
  }

  /** `s.filter(keep)`: the elements of `s` that satisfy `keep`, all of them and
      as often as they occur in `s`, in their order in `s`. */
  function Filter<T(==, !new)>(s: seq<T>, keep: T -> bool): (r: seq<T>)
    ensures |r| <= |s|
    ensures forall x :: x in r <==> x in s && keep(x)
    ensures forall x :: multiset(r)[x] == if keep(x) then multiset(s)[x] else 0
    ensures IsSubsequence(r, s)
  {
    if s == [] then []
    else
      var rest := Filter(s[1..], keep);
      StepMembers(s, keep, rest);
      StepCounts(s, keep, rest);
      StepSubsequence(s, keep, rest);
      Kept(s, keep, rest)
  }

  /** Filtering a concatenation filters each part. */
  lemma {:induction false} FilterConcat<T(!new)>(a: seq<T>, b: seq<T>, keep: T -> bool)
    ensures Filter(a + b, keep) == Filter(a, keep) + Filter(b, keep)
    decreases |a|
  {
    if a == [] {
      assert a + b == b;
    } else {
      var ab := a + b;
      assert ab[0] == a[0] && ab[1..] == a[1..] + b;
      FilterConcat(a[1..], b, keep);
      if keep(a[0]) {
        var p, q := Filter(a[1..], keep), Filter(b, keep);
        assert [a[0]] + (p + q) == ([a[0]] + p) + q;
      }
    }
  }

  /** Filtering a one-element sequence. */
  lemma FilterSingle<T(!new)>(x: T, keep: T -> bool)
    ensures Filter([x], keep) == if keep(x) then [x] else []
  {
    assert [x][1..] == [];
  }

  /** Filtering around one element: the filtered part before it, the element if it
      is kept, the filtered part after it. */
  lemma FilterAround<T(!new)>(a: seq<T>, x: T, b: seq<T>, keep: T -> bool)
    ensures Filter(a + [x] + b, keep) ==
      Filter(a, keep) + (if keep(x) then [x] else []) + Filter(b, keep)
  {
    FilterConcat(a + [x], b, keep);
    FilterConcat(a, [x], keep);
    FilterSingle(x, keep);
  }

  /** A filter that keeps no element of `s` returns nothing. */
  lemma FilterNone<T(!new)>(s: seq<T>, keep: T -> bool)
    requires forall x :: x in s ==> !keep(x)
    ensures Filter(s, keep) == []
  {
  }

  /** A filter whose predicate holds of every element keeps the whole sequence. */
  lemma {:induction false} FilterKeepsAll<T(!new)>(s: seq<T>, keep: T -> bool)
    requires forall x :: x in s ==> keep(x)
    ensures Filter(s, keep) == s
  {
    if s != [] {
      FilterKeepsAll(s[1..], keep);
      assert s == [s[0]] + s[1..];
    }
  }
}
