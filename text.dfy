/** The string operations of the JavaScript runtime that the note store relies on:
    `trim()`, the `\s` character class, `toLowerCase()` (ASCII letters only),
    `includes()` and an ordinal string comparison standing in for `localeCompare`. */
module Text {
  import opened Sequences

  /** The characters JavaScript counts as white space or line terminators, which
      `String.prototype.trim` removes and the regular expression class `\s` matches. */
  const Spaces: set<char> := {
    '\U{0009}', '\U{000A}', '\U{000B}', '\U{000C}', '\U{000D}', '\U{0020}', '\U{00A0}', '\U{1680}',
    '\U{2000}', '\U{2001}', '\U{2002}', '\U{2003}', '\U{2004}', '\U{2005}', '\U{2006}', '\U{2007}',
    '\U{2008}', '\U{2009}', '\U{200A}', '\U{2028}', '\U{2029}', '\U{202F}', '\U{205F}', '\U{3000}',
    '\U{FEFF}'}

  predicate IsSpace(c: char) {
    c in Spaces
  }

  predicate AllSpace(s: string) {
    forall i :: 0 <= i < |s| ==> IsSpace(s[i])
  }

  predicate NoSpace(s: string) {
    forall i :: 0 <= i < |s| ==> !IsSpace(s[i])
  }

  /** The position of the first character at or after `i` that is not white space,
      or `|s|` when there is none. */
  function SkipSpaces(s: string, i: nat): (k: nat)
    requires i <= |s|
    ensures i <= k <= |s|
    ensures forall j :: i <= j < k ==> IsSpace(s[j])
    ensures k < |s| ==> !IsSpace(s[k])
    decreases |s| - i
  {
    if i < |s| && IsSpace(s[i]) then SkipSpaces(s, i + 1) else i
  }

  /** The position just after the last character before `j` that is not white
      space, or 0 when there is none. */
  function SkipSpacesBack(s: string, j: nat): (k: nat)
    requires j <= |s|
    ensures k <= j
    ensures forall m :: k <= m < j ==> IsSpace(s[m])
    ensures k > 0 ==> !IsSpace(s[k - 1])
    decreases j
  {
    if j > 0 && IsSpace(s[j - 1]) then SkipSpacesBack(s, j - 1) else j
  }

  /** `String.prototype.trim`: the slice of `s` that starts at its first non-space
      character and ends after its last one; empty exactly when `s` is all white space. */
  function Trim(s: string): (r: string)
    ensures var a := SkipSpaces(s, 0);
      && a + |r| <= |s|
      && r == s[a..a + |r|]
      && (forall i :: 0 <= i < a ==> IsSpace(s[i]))
      && (forall i :: a + |r| <= i < |s| ==> IsSpace(s[i]))
    ensures r == [] <==> AllSpace(s)
    ensures r != [] ==> !IsSpace(r[0]) && !IsSpace(r[|r| - 1])
  {
    var a := SkipSpaces(s, 0);
    var b := SkipSpacesBack(s, |s|);
    if a == |s| then
      []
    else
      assert a < b;
      assert !AllSpace(s) by { assert !IsSpace(s[a]); }
      s[a..b]
  }

  lemma {:induction false} TrimOfTrimmed(s: string)
    requires s != [] ==> !IsSpace(s[0]) && !IsSpace(s[|s| - 1])
    ensures Trim(s) == s
  {
    if s != [] {
      assert SkipSpaces(s, 0) == 0;
      assert SkipSpacesBack(s, |s|) == |s|;
    }
  }

  function LowerChar(c: char): char {
    if 'A' <= c <= 'Z' then (c as int + 32) as char else c
  }

  /** `toLowerCase`, restricted to the ASCII letters. */
  function ToLower(s: string): (r: string)
    ensures |r| == |s|
    ensures forall i :: 0 <= i < |s| ==> r[i] == LowerChar(s[i])
  {
    seq(|s|, i requires 0 <= i < |s| => LowerChar(s[i]))
  }

  lemma ToLowerSlice(s: string, i: nat, j: nat)
    requires i <= j <= |s|
    ensures ToLower(s)[i..j] == ToLower(s[i..j])
  {
  }

  predicate StartsWith(s: string, prefix: string) {
    |prefix| <= |s| && s[..|prefix|] == prefix
  }

  /** `t` occurs in `s` starting at position `i`. */
  predicate OccursAt(s: string, t: string, i: nat) {
    i + |t| <= |s| && s[i..i + |t|] == t
  }

  /** `s.includes(t)`, written as the search `includes` performs: `t` is a prefix of
      `s` or occurs in it from the second character on. */
  predicate Contains(s: string, t: string)
    decreases |s|
  {
    StartsWith(s, t) || (s != [] && Contains(s[1..], t))
  }

  /** `Contains` is the reference meaning of a substring search: `t` occurs in `s`
      at some position. */
  lemma {:induction false} ContainsIsOccurrence(s: string, t: string)
    ensures Contains(s, t) <==> exists i: nat :: OccursAt(s, t, i)
    decreases |s|
  {
    if s != [] {
      ContainsIsOccurrence(s[1..], t);
    }
    if StartsWith(s, t) {
      assert OccursAt(s, t, 0);
    }
    if s != [] && Contains(s[1..], t) {
      var j: nat :| OccursAt(s[1..], t, j);
      assert s[1..][j..j + |t|] == s[j + 1..j + 1 + |t|];
      assert OccursAt(s, t, j + 1);
    }
    if exists i: nat :: OccursAt(s, t, i) {
      var i: nat :| OccursAt(s, t, i);
      if i > 0 {
        assert s[1..][i - 1..i - 1 + |t|] == s[i..i + |t|];
        assert OccursAt(s[1..], t, i - 1);
      } else {
        assert s[..|t|] == s[0..|t|];
      }
    }
  }

  /** Every slice of a string is found by `includes`. */
  lemma ContainsSlice(s: string, i: nat, j: nat)
    requires i <= j <= |s|
    ensures Contains(s, s[i..j])
  {
    ContainsIsOccurrence(s, s[i..j]);
    assert OccursAt(s, s[i..j], i);
  }

  /** Lower-casing works character by character, so it distributes over joining. */
  lemma ToLowerConcat(a: string, b: string)
    ensures ToLower(a + b) == ToLower(a) + ToLower(b)
  {
    var l, r := ToLower(a + b), ToLower(a) + ToLower(b);
    assert |l| == |r|;
    forall i | 0 <= i < |l| ensures l[i] == r[i] {
      if i < |a| {
        assert (a + b)[i] == a[i];
      } else {
        assert (a + b)[i] == b[i - |a|];
      }
    }
  }

  /** A string found in either part of a join is found in the join. */
  lemma ContainsInJoin(x: string, sep: string, y: string, t: string)
    ensures Contains(x, t) || Contains(y, t) ==> Contains(x + sep + y, t)
  {
    var j := x + sep + y;
    ContainsIsOccurrence(x, t);
    ContainsIsOccurrence(y, t);
    ContainsIsOccurrence(j, t);
    if Contains(x, t) {
      var i: nat :| OccursAt(x, t, i);
      assert j[i..i + |t|] == x[i..i + |t|];
      assert OccursAt(j, t, i);
    } else if Contains(y, t) {
      var i: nat :| OccursAt(y, t, i);
      var d := |x| + |sep|;
      assert j[d + i..d + i + |t|] == y[i..i + |t|];
      assert OccursAt(j, t, d + i);
    }
  }

  /** `a` and `b` agree on their first `k` characters, and at position `k` either
      `a` has ended while `b` goes on, or `a` has the smaller character. */
  predicate DiffersFirstAt(a: string, b: string, k: nat) {
    && k <= |a| && k <= |b| && a[..k] == b[..k]
    && ((k == |a| && k < |b|) || (k < |a| && k < |b| && a[k] < b[k]))
  }

  /** Ordinal comparison: `a` sorts strictly before `b`. */
  predicate Less(a: string, b: string)
    decreases |a|
  {
    if a == [] then b != []
    else if b == [] then false
    else if a[0] != b[0] then a[0] < b[0]
    else Less(a[1..], b[1..])
  }

  /** `Less` is the lexicographic order: the first position where the two strings
      differ favours `a`, or `a` is a proper prefix of `b`. */
  lemma {:induction false} LessIsLexicographic(a: string, b: string)
    ensures Less(a, b) <==> exists k: nat :: DiffersFirstAt(a, b, k)
    decreases |a|
  {
    if a != [] && b != [] && a[0] == b[0] {
      LessIsLexicographic(a[1..], b[1..]);
    }
    if exists k: nat :: DiffersFirstAt(a, b, k) {
      var k: nat :| DiffersFirstAt(a, b, k);
      if k > 0 {
        assert a[0] == a[..k][0] && b[0] == b[..k][0];
        assert a[1..][..k - 1] == a[..k][1..] && b[1..][..k - 1] == b[..k][1..];
        assert DiffersFirstAt(a[1..], b[1..], k - 1);
      }
    }
    if Less(a, b) {
      if a == [] || a[0] != b[0] {
        assert DiffersFirstAt(a, b, 0);
      } else {
        var k: nat :| DiffersFirstAt(a[1..], b[1..], k);
        assert a[..k + 1] == [a[0]] + a[1..][..k];
        assert b[..k + 1] == [b[0]] + b[1..][..k];
        assert DiffersFirstAt(a, b, k + 1);
      }
    }
  }

  lemma {:induction false} LessIrreflexive(a: string)
    ensures !Less(a, a)
    decreases |a|
  {
    if a != [] { LessIrreflexive(a[1..]); }
  }

  lemma {:induction false} LessAsymmetric(a: string, b: string)
    requires Less(a, b)
    ensures !Less(b, a)
    decreases |a|
  {
    if a != [] && b != [] && a[0] == b[0] { LessAsymmetric(a[1..], b[1..]); }
  }

  lemma {:induction false} LessTransitive(a: string, b: string, c: string)
    requires Less(a, b) && Less(b, c)
    ensures Less(a, c)
    decreases |a|
  {
    if a != [] && a[0] == b[0] && b[0] == c[0] {
      LessTransitive(a[1..], b[1..], c[1..]);
    }
  }

  lemma {:induction false} LessTotal(a: string, b: string)
    ensures a == b || Less(a, b) || Less(b, a)
    decreases |a|
  {
    if a != [] && b != [] && a[0] == b[0] {
      LessTotal(a[1..], b[1..]);
      if a[1..] == b[1..] {
        assert a == [a[0]] + a[1..] && b == [b[0]] + b[1..];
      }
    }
  }

  /** "Not after" is transitive: the order `localeCompare` is modelled by is a
      total preorder. */
  lemma NotLessTransitive(a: string, b: string, c: string)
    requires !Less(a, b) && !Less(b, c)
    ensures !Less(a, c)
  {
    if Less(a, c) {
      LessTotal(a, b);
      if a != b { LessTransitive(b, a, c); }
    }
  }

  /** Text whose only white space is single plain spaces between other characters
      or at the ends. */
  ghost predicate SingleSpaced(s: string) {
    && (forall i :: 0 <= i < |s| && IsSpace(s[i]) ==> s[i] == ' ')
    && (forall i, j :: 0 <= i < j < |s| && j == i + 1 ==> !(IsSpace(s[i]) && IsSpace(s[j])))
  }

  /** The characters of `s` that are not white space, in their order. */
  function NonSpaces(s: string): (r: string)
    ensures |r| <= |s|
    decreases |s|
  {
    if s == [] then []
    else if IsSpace(s[0]) then NonSpaces(s[1..])
    else [s[0]] + NonSpaces(s[1..])
  }

  /** Where white space sits around the visible characters of `s`: entry `i` says
      whether white space came right before the `i`-th non-space character (the last
      entry: whether `s` ends in white space). `before` says whether white space came
      just before `s` itself. */
  function Gaps(s: string, before: bool): (r: seq<bool>)
    ensures |r| == |NonSpaces(s)| + 1
    decreases |s|
  {
    if s == [] then [before]
    else if IsSpace(s[0]) then Gaps(s[1..], true)
    else [before] + Gaps(s[1..], false)
  }

  /** The first gap is white space before `s` or at its start. */
  lemma {:induction false} GapsHead(s: string, before: bool)
    ensures Gaps(s, before)[0] == (before || (s != [] && IsSpace(s[0])))
    decreases |s|
  {
    if s != [] && IsSpace(s[0]) {
      GapsHead(s[1..], true);
    }
  }

  /** White space just before `s` only changes the first gap. */
  lemma GapsBefore(s: string)
    ensures Gaps(s, true) == Gaps(s, false)[0 := true]
  {
    if s != [] && IsSpace(s[0]) {
      GapsHead(s[1..], true);
    }
  }

  /** Dropping a leading run of white space keeps the visible characters and records
      the run as white space before the rest. */
  lemma {:induction false} SkipLeadingSpaces(s: string, k: nat, before: bool)
    requires 0 < k <= |s|
    requires forall j :: 0 <= j < k ==> IsSpace(s[j])
    ensures NonSpaces(s) == NonSpaces(s[k..])
    ensures Gaps(s, before) == Gaps(s[k..], true)
    decreases k
  {
    if k > 1 {
      SkipLeadingSpaces(s[1..], k - 1, true);
      assert s[1..][k - 1..] == s[k..];
    }
  }

  /** The visible characters of a concatenation are those of its parts. */
  lemma {:induction false} NonSpacesConcat(a: string, b: string)
    ensures NonSpaces(a + b) == NonSpaces(a) + NonSpaces(b)
    decreases |a|
  {
    if a == [] {
      assert a + b == b;
    } else {
      var ab := a + b;
      assert ab[0] == a[0];
      assert ab[1..] == a[1..] + b;
      NonSpacesConcat(a[1..], b);
      if !IsSpace(a[0]) {
        var p, q := NonSpaces(a[1..]), NonSpaces(b);
        assert [a[0]] + (p + q) == ([a[0]] + p) + q;
      }
    }
  }

  /** White space has no visible characters. */
  lemma {:induction false} NonSpacesAllSpace(w: string)
    requires AllSpace(w)
    ensures NonSpaces(w) == []
    decreases |w|
  {
    if w != [] {
      assert IsSpace(w[0]);
      assert AllSpace(w[1..]) by {
        assert forall i :: 0 <= i < |w| - 1 ==> w[1..][i] == w[i + 1];
      }
      NonSpacesAllSpace(w[1..]);
    }
  }

  /** A string is its three slices at `a` and `b`, in order. */
  lemma SplitAt(s: string, a: nat, b: nat)
    requires a <= b <= |s|
    ensures s == s[..a] + s[a..b] + s[b..]
  {
    assert s == s[..b] + s[b..];
    assert s[..b] == s[..a] + s[a..b];
  }

  /** A string is its trimmed part with white space before and after. */
  lemma TrimSplit(s: string) returns (lead: string, trail: string)
    ensures s == lead + Trim(s) + trail
    ensures AllSpace(lead) && AllSpace(trail)
  {
    var a := SkipSpaces(s, 0);
    var b := a + |Trim(s)|;
    lead, trail := s[..a], s[b..];
    SplitAt(s, a, b);
    assert AllSpace(trail) by {
      forall i | 0 <= i < |trail| ensures IsSpace(trail[i]) {
        assert trail[i] == s[b + i];
      }
    }
  }

  /** White space around a string adds no visible characters. */
  lemma NonSpacesSurrounded(lead: string, r: string, trail: string)
    requires AllSpace(lead) && AllSpace(trail)
    ensures NonSpaces(lead + r + trail) == NonSpaces(r)
  {
    NonSpacesAllSpace(lead);
    NonSpacesAllSpace(trail);
    NonSpacesConcat(lead + r, trail);
    NonSpacesConcat(lead, r);
  }

  /** Trimming keeps every visible character. */
  lemma TrimNonSpaces(s: string)
    ensures NonSpaces(Trim(s)) == NonSpaces(s)
  {
    var lead, trail := TrimSplit(s);
    NonSpacesSurrounded(lead, Trim(s), trail);
  }

  /** The visible characters of a prefix begin the visible characters of the whole. */
  lemma PrefixNonSpaces(s: string, k: nat)
    requires k <= |s|
    ensures StartsWith(NonSpaces(s), NonSpaces(s[..k]))
  {
    TakeDrop(s, k);
    NonSpacesConcat(s[..k], s[k..]);
    StartsWithJoin(NonSpaces(s[..k]), NonSpaces(s[k..]));
  }

  /** A string starts with its own first part. */
  lemma StartsWithJoin(p: string, q: string)
    ensures StartsWith(p + q, p)
  {
    assert (p + q)[..|p|] == p;
  }

  /** What `CollapseSpaces` promises about its result `r` for its input `s`, bundled
      so that each branch of it can be proved on its own. */
  ghost predicate CollapsedFrom(r: string, s: string) {
    && |r| <= |s|
    && (r == [] <==> s == [])
    && (r != [] ==> (IsSpace(r[0]) <==> IsSpace(s[0])))
    && SingleSpaced(r)
    && NonSpaces(r) == NonSpaces(s)
    && Gaps(r, false) == Gaps(s, false)
    && (AllSpace(r) <==> AllSpace(s))
    && (NoSpace(s) ==> r == s)
  }

  /** One space in place of a leading run of white space, up to the first visible
      character, keeps everything `CollapsedFrom` asks for. */
  lemma SpaceForRun(s: string, k: nat, tail: string)
    requires 0 < k <= |s|
    requires forall j :: 0 <= j < k ==> IsSpace(s[j])
    requires k < |s| ==> !IsSpace(s[k])
    requires CollapsedFrom(tail, s[k..])
    ensures CollapsedFrom(" " + tail, s)
  {
    var rest := s[k..];
    var r := " " + tail;
    SkipLeadingSpaces(s, k, false);
    GapsBefore(tail);
    GapsBefore(rest);
    assert r[1..] == tail;
    assert AllSpace(s) <==> rest == [] by {
      if rest != [] { assert rest[0] == s[k]; }
    }
    assert AllSpace(r) <==> AllSpace(tail) by {
      assert IsSpace(' ');
      assert forall i :: 0 <= i < |tail| ==> r[i + 1] == tail[i];
    }
    assert !NoSpace(s) by { assert IsSpace(s[0]); }
    assert SingleSpaced(r) by {
      assert forall i :: 0 < i < |r| ==> r[i] == tail[i - 1];
      if rest != [] { assert !IsSpace(rest[0]); }
    }
  }

  /** A visible first character kept in front keeps everything `CollapsedFrom`
      asks for. */
  lemma VisibleFirst(s: string, tail: string)
    requires s != [] && !IsSpace(s[0])
    requires CollapsedFrom(tail, s[1..])
    ensures CollapsedFrom([s[0]] + tail, s)
  {
    var r := [s[0]] + tail;
    assert r[1..] == tail;
    assert !AllSpace(s) by { assert !IsSpace(s[0]); }
    assert !AllSpace(r) by { assert r[0] == s[0]; }
    assert NoSpace(s) ==> NoSpace(s[1..]) by {
      if NoSpace(s) {
        forall i | 0 <= i < |s| - 1 ensures !IsSpace(s[1..][i]) { assert s[1..][i] == s[i + 1]; }
      }
    }
    assert SingleSpaced(r) by {
      assert forall i :: 0 < i < |r| ==> r[i] == tail[i - 1];
    }
  }

  /** `s.replace(/\s+/g, " ")`: every run of white space becomes one space. The
      visible characters survive in order, and a space sits before, between or after
      them exactly where white space sat in `s`. */
  function CollapseSpaces(s: string): (r: string)
    ensures |r| <= |s|
    ensures r == [] <==> s == []
    ensures r != [] ==> (IsSpace(r[0]) <==> IsSpace(s[0]))
    ensures SingleSpaced(r)
    ensures NonSpaces(r) == NonSpaces(s)
    ensures Gaps(r, false) == Gaps(s, false)
    ensures AllSpace(r) <==> AllSpace(s)
    ensures NoSpace(s) ==> r == s
    decreases |s|
  {
    if s == [] then []
    else if IsSpace(s[0]) then
      var k := SkipSpaces(s, 0);
      var tail := CollapseSpaces(s[k..]);
      SpaceForRun(s, k, tail);
      " " + tail
    else
      var tail := CollapseSpaces(s[1..]);
      VisibleFirst(s, tail);
      [s[0]] + tail
  }
}
