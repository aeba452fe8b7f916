/** `sortNotes` (js/app.js:70-73): the notes ordered most recently updated first,
    `(b.updatedAt || "").localeCompare(a.updatedAt || "")` read as an ordinal
    comparison of the timestamps. The array sort the browser runs is stable, so
    the result is the one a stable insertion sort gives. */
module Ordering {
  import opened Text
  import opened Notes
  import opened Sequences

  /** `a` may come before `b`: its timestamp does not compare below `b`'s.
      A missing timestamp is the empty string, below every other one. */
  predicate NoOlder(a: Note, b: Note) {
    !Less(a.updatedAt, b.updatedAt)
  }

  /** Non-increasing by `updatedAt`. */
  predicate SortedByRecency(s: seq<Note>) {
    forall i, j :: 0 <= i < j < |s| ==> NoOlder(s[i], s[j])
  }

  lemma NoOlderTotal(a: Note, b: Note)
    ensures NoOlder(a, b) || NoOlder(b, a)
  {
    if Less(a.updatedAt, b.updatedAt) { LessAsymmetric(a.updatedAt, b.updatedAt); }
  }

  lemma NoOlderTransitive(a: Note, b: Note, c: Note)
    requires NoOlder(a, b) && NoOlder(b, c)
    ensures NoOlder(a, c)
  {
    NotLessTransitive(a.updatedAt, b.updatedAt, c.updatedAt);
  }

  /** Places `x` after the notes of `s` that are strictly more recent and before
      the rest, so that among equal timestamps `x` keeps its place in front. */
  function Insert(x: Note, s: seq<Note>): (r: seq<Note>)
    ensures |r| == |s| + 1
  {
    if s == [] || NoOlder(x, s[0]) then [x] + s else [s[0]] + Insert(x, s[1..])
  }

  /** One insertion step adds exactly the inserted note. */
  lemma {:induction false} InsertPermutes(x: Note, s: seq<Note>)
    ensures multiset(Insert(x, s)) == multiset(s) + multiset{x}
  {
    if s != [] && !NoOlder(x, s[0]) {
      InsertPermutes(x, s[1..]);
      assert s == [s[0]] + s[1..];
    }
  }

  /** Where `Insert` puts `x`: after every note of `s` that is strictly more recent,
      right in front of the first that is not. */
  lemma {:induction false} InsertPosition(x: Note, s: seq<Note>) returns (k: nat)
    ensures k <= |s| && Insert(x, s) == s[..k] + [x] + s[k..]
    ensures forall i :: 0 <= i < k ==> !NoOlder(x, s[i])
    ensures k < |s| ==> NoOlder(x, s[k])
    decreases |s|
  {
    if s == [] || NoOlder(x, s[0]) {
      k := 0;
    } else {
      var t := s[1..];
      var j := InsertPosition(x, t);
      k := j + 1;
      assert Insert(x, s) == [s[0]] + Insert(x, t);
      assert s[..k] == [s[0]] + t[..j];
      assert s[k..] == t[j..];
      assert [s[0]] + (t[..j] + [x] + t[j..]) == ([s[0]] + t[..j]) + [x] + t[j..];
      forall i | 0 <= i < k ensures !NoOlder(x, s[i]) {
        if i > 0 { assert s[i] == t[i - 1]; }
      }
    }
  }

  /** The callback that keeps the notes last updated at time `u`. */
  function UpdatedAt(u: string): Note -> bool {
    (n: Note) => n.updatedAt == u
  }

  /** No note placed before `x` by `Insert` shares its timestamp. */
  lemma NoneBeforeSharesTime(x: Note, s: seq<Note>, k: nat)
    requires k <= |s| && forall i :: 0 <= i < k ==> !NoOlder(x, s[i])
    ensures Filter(s[..k], UpdatedAt(x.updatedAt)) == []
  {
    var keep := UpdatedAt(x.updatedAt);
    forall n | n in s[..k] ensures !keep(n) {
      var i :| 0 <= i < k && s[..k][i] == n;
      assert !NoOlder(x, s[i]);
      LessIrreflexive(x.updatedAt);
    }
    FilterNone(s[..k], keep);
  }

  /** Regrouping the parts of a filtered insertion. */
  lemma Regroup(fb: seq<Note>, x: Note, fa: seq<Note>, kept: bool)
    requires kept ==> fb == []
    ensures fb + (if kept then [x] else []) + fa == if kept then [x] + (fb + fa) else fb + fa
  {
    if kept {
      assert fb + [x] + fa == [x] + fa;
    } else {
      assert fb + [] + fa == fb + fa;
    }
  }

  /** Inserting `x` leaves the notes with any one timestamp in their order, with `x`
      first among those that share its timestamp. */
  lemma InsertStable(x: Note, s: seq<Note>, u: string)
    ensures Filter(Insert(x, s), UpdatedAt(u)) ==
      if x.updatedAt == u then [x] + Filter(s, UpdatedAt(u)) else Filter(s, UpdatedAt(u))
  {
    var keep := UpdatedAt(u);
    var k := InsertPosition(x, s);
    var before, after := s[..k], s[k..];
    TakeDrop(s, k);
    FilterConcat(before, after, keep);
    FilterAround(before, x, after, keep);
    if x.updatedAt == u {
      NoneBeforeSharesTime(x, s, k);
    }
    Regroup(Filter(before, keep), x, Filter(after, keep), keep(x));
  }

  lemma {:induction false} InsertSorted(x: Note, s: seq<Note>)
    requires SortedByRecency(s)
    ensures SortedByRecency(Insert(x, s))
  {
    if s == [] || NoOlder(x, s[0]) {
      var r := [x] + s;
      forall i, j | 0 <= i < j < |r| ensures NoOlder(r[i], r[j]) {
        if i == 0 && j > 1 { NoOlderTransitive(x, s[0], s[j - 1]); }
      }
    } else {
      var t := Insert(x, s[1..]);
      InsertSorted(x, s[1..]);
      InsertPermutes(x, s[1..]);
      NoOlderTotal(x, s[0]);
      var r := [s[0]] + t;
      forall i, j | 0 <= i < j < |r| ensures NoOlder(r[i], r[j]) {
        if i == 0 {
          assert r[j] in multiset(t);
          assert r[j] == x || r[j] in s[1..];
        }
      }
    }
  }

  /** The order `state.notes.sort(...)` leaves the notes in: a rearrangement of
      them (no note lost, added or duplicated), most recently updated first. */
  function SortByRecency(s: seq<Note>): (r: seq<Note>)
    ensures |r| == |s|
    ensures multiset(r) == multiset(s)
    ensures SortedByRecency(r)
  {
    if s == [] then []
    else
      var t := SortByRecency(s[1..]);
      InsertSorted(s[0], t);
      InsertPermutes(s[0], t);
      assert s == [s[0]] + s[1..];
      Insert(s[0], t)
  }

  /** The sort is stable: the notes with any one timestamp keep their relative
      order. */
  lemma {:induction false} SortStable(s: seq<Note>, u: string)
    ensures Filter(SortByRecency(s), UpdatedAt(u)) == Filter(s, UpdatedAt(u))
  {
    if s != [] {
      SortStable(s[1..], u);
      InsertStable(s[0], SortByRecency(s[1..]), u);
    }
  }

  /** Notes already in order are left exactly as they are. */
  lemma {:induction false} SortKeepsSorted(s: seq<Note>)
    requires SortedByRecency(s)
    ensures SortByRecency(s) == s
  {
    if s != [] {
      var t := s[1..];
      assert SortedByRecency(t) by {
        forall i, j | 0 <= i < j < |t| ensures NoOlder(t[i], t[j]) {
          assert t[i] == s[i + 1] && t[j] == s[j + 1];
        }
      }
      SortKeepsSorted(t);
      assert SortByRecency(s) == Insert(s[0], t);
      if t != [] {
        assert NoOlder(s[0], t[0]) by { assert t[0] == s[1]; }
      }
      assert s == [s[0]] + t;
    }
  }

  /** Sorting twice is sorting once. */
  lemma SortIdempotent(s: seq<Note>)
    ensures SortByRecency(SortByRecency(s)) == SortByRecency(s)
  {
    SortKeepsSorted(SortByRecency(s));
  }

  /** A note at least as recent as all the others, put in front and sorted, stays in front. */
  lemma SortNewestFirst(x: Note, s: seq<Note>)
    requires forall n :: n in s ==> NoOlder(x, n)
    ensures SortByRecency([x] + s)[0] == x
  {
    var t := SortByRecency(s);
    assert ([x] + s)[1..] == s;
    if t != [] {
      assert t[0] in multiset(s);
    }
  }

  /** Notes without a timestamp come after every one that has one. */
  lemma SortUndatedLast(s: seq<Note>, i: nat, j: nat)
    requires i < j < |SortByRecency(s)|
    requires SortByRecency(s)[i].updatedAt == ""
    ensures SortByRecency(s)[j].updatedAt == ""
  {
  }

  /** Leaving notes out of an ordered collection keeps it ordered. */
  lemma {:induction false} SubsequenceSorted(a: seq<Note>, b: seq<Note>)
    requires IsSubsequence(a, b) && SortedByRecency(b)
    ensures SortedByRecency(a)
    decreases |b|
  {
    if a != [] {
      assert SortedByRecency(b[1..]) by {
        forall i, j | 0 <= i < j < |b| - 1 ensures NoOlder(b[1..][i], b[1..][j]) {
          assert b[1..][i] == b[i + 1] && b[1..][j] == b[j + 1];
        }
      }
      if a[0] == b[0] && IsSubsequence(a[1..], b[1..]) {
        SubsequenceSorted(a[1..], b[1..]);
        SubsequenceMembers(a[1..], b[1..]);
        forall i, j | 0 <= i < j < |a| ensures NoOlder(a[i], a[j]) {
          if i == 0 {
            assert a[j] in a[1..];
            var k :| 0 <= k < |b[1..]| && b[1..][k] == a[j];
            assert b[k + 1] == a[j];
          } else {
            assert a[i] == a[1..][i - 1] && a[j] == a[1..][j - 1];
          }
        }
      } else {
        SubsequenceSorted(a, b[1..]);
      }
    }
  }

  lemma {:induction false} InsertHasId(x: Note, s: seq<Note>, id: string)
    ensures HasId(Insert(x, s), id) <==> x.id == id || HasId(s, id)
  {
    InsertPermutes(x, s);
    var r := Insert(x, s);
    assert forall n :: n in r <==> n in multiset(r);
    assert forall n :: n in s <==> n in multiset(s);
  }

  lemma {:induction false} InsertUniqueIds(x: Note, s: seq<Note>)
    ensures UniqueIds(Insert(x, s)) <==> !HasId(s, x.id) && UniqueIds(s)
  {
    if s == [] || NoOlder(x, s[0]) {
      UniqueIdsCons(x, s);
    } else {
      var t := s[1..];
      assert s == [s[0]] + t;
      InsertUniqueIds(x, t);
      InsertHasId(x, t, s[0].id);
      UniqueIdsCons(s[0], Insert(x, t));
      UniqueIdsCons(s[0], t);
      assert HasId(s, x.id) <==> s[0].id == x.id || HasId(t, x.id) by {
        assert forall n :: n in s <==> n == s[0] || n in t;
      }
    }
  }

  /** Sorting neither creates nor removes a duplicate id. */
  lemma {:induction false} SortUniqueIds(s: seq<Note>)
    ensures UniqueIds(SortByRecency(s)) <==> UniqueIds(s)
  {
    if s != [] {
      var t := s[1..];
      assert s == [s[0]] + t;
      SortUniqueIds(t);
      InsertUniqueIds(s[0], SortByRecency(t));
      UniqueIdsCons(s[0], t);
      assert HasId(SortByRecency(t), s[0].id) <==> HasId(t, s[0].id) by {
        assert forall n :: n in SortByRecency(t) <==> n in multiset(t);
      }
    }
  }
}
