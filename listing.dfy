/** The computations inside `renderList` (js/app.js:124-168): the search filter
    and the one-line snippet shown under each title. */
module Listing {
  import opened Text
  import opened Notes
  import opened Sequences

  /** `state.search.trim().toLowerCase()`. */
  function SearchTerm(raw: string): (t: string)
    ensures t == [] <==> AllSpace(raw)
  {
    ToLower(Trim(raw))
  }

  /** The text a note is searched in: its title and content joined by a newline,
      lower-cased, which is the lower-cased title and content joined by a newline. */
  function Haystack(n: Note): (h: string)
    ensures h == ToLower(n.title) + "\n" + ToLower(n.content)
  {
    ToLowerConcat(n.title + "\n", n.content);
    ToLowerConcat(n.title, "\n");
    assert ToLower("\n") == "\n";
    ToLower(n.title + "\n" + n.content)
  }

  /** The filter callback: an empty term keeps every note, any other term keeps
      the notes whose haystack includes it; in particular a term found in the
      lower-cased title or in the lower-cased content keeps the note. */
  function Shown(n: Note, term: string): (r: bool)
    ensures term == [] ==> r
    ensures Contains(ToLower(n.title), term) || Contains(ToLower(n.content), term) ==> r
  {
    ContainsInJoin(ToLower(n.title), "\n", ToLower(n.content), term);
    term == [] || Contains(Haystack(n), term)
  }

  /** The notes listed for a search box value, in the collection's current order:
      all of them for a blank value, otherwise exactly those that include the
      lower-cased, trimmed value. */
  function Search(ns: seq<Note>, raw: string): (r: seq<Note>)
    ensures IsSubsequence(r, ns)
    ensures !AllSpace(raw) ==>
      forall n :: n in r <==> n in ns && Contains(Haystack(n), SearchTerm(raw))
    ensures !AllSpace(raw) ==>
      forall n :: multiset(r)[n] ==
        if Contains(Haystack(n), SearchTerm(raw)) then multiset(ns)[n] else 0
  {
    var term := SearchTerm(raw);
    Filter(ns, (n: Note) => Shown(n, term))
  }

  /** A blank search box lists every note, in order. */
  lemma SearchBlankListsAll(ns: seq<Note>, raw: string)
    requires AllSpace(raw)
    ensures Search(ns, raw) == ns
  {
    var term := SearchTerm(raw);
    FilterKeepsAll(ns, (n: Note) => Shown(n, term));
  }

  /** Searching for a note's exact title lists that note. */
  lemma SearchFindsTitle(ns: seq<Note>, n: Note)
    requires n in ns
    ensures n in Search(ns, n.title)
  {
    if !AllSpace(n.title) {
      TitleInHaystack(n);
    }
  }

  /** The trimmed, lower-cased title occurs in the lower-cased haystack. */
  lemma TitleInHaystack(n: Note)
    requires !AllSpace(n.title)
    ensures Contains(Haystack(n), SearchTerm(n.title))
  {
    LowerSliceInConcat(n.title, "\n", n.content, Trim(n.title), SkipSpaces(n.title, 0));
  }

  /** A lower-cased slice of `x` occurs in `x + sep + y` lower-cased. */
  lemma LowerSliceInConcat(x: string, sep: string, y: string, t: string, i: nat)
    requires i + |t| <= |x| && t == x[i..i + |t|]
    ensures Contains(ToLower(x + sep + y), ToLower(t))
  {
    var both := x + sep + y;
    var j := i + |t|;
    var window := both[i..j];
    assert window == t by {
      assert forall k :: 0 <= k < j - i ==> window[k] == x[i + k];
    }
    ToLowerSlice(both, i, j);
    ContainsSlice(ToLower(both), i, j);
  }

  const SnippetLength: nat := 80

  /** Placeholder shown for a note whose content has no visible text. */
  const NoSnippet: string := "—"

  /** `(content).replace(/\s+/g, " ").trim().slice(0, 80) || "—"`. The snippet is
      never empty and at most 80 characters long; a blank content shows the
      placeholder; otherwise the snippet is the first 80 characters (or all) of the
      collapsed, trimmed content, starts with a visible character and uses a single
      plain space between words, and a short single word is shown as is. */
  function Snippet(content: string): (r: string)
    ensures 0 < |r| <= SnippetLength
    ensures AllSpace(content) ==> r == NoSnippet
    ensures !AllSpace(content) ==>
      var text := Trim(CollapseSpaces(content));
      r == text[..if |text| <= SnippetLength then |text| else SnippetLength]
    ensures !AllSpace(content) ==>
      && !IsSpace(r[0])
      && SingleSpaced(r)
    ensures NoSpace(content) && 0 < |content| <= SnippetLength ==> r == content
  {
    var collapsed := CollapseSpaces(content);
    var text := Trim(collapsed);
    var cut := if |text| <= SnippetLength then text else text[..SnippetLength];
    TrimSingleSpaced(collapsed, text);
    CutShape(text, cut);
    SnippetKeepsWord(content, collapsed, text, cut);
    if cut == [] then NoSnippet else cut
  }

  /** The snippet of a content with visible text shows the start of that text:
      its visible characters are the first visible characters of the content, and
      all of them when the collapsed, trimmed content fits in 80 characters. */
  lemma SnippetShowsContentStart(content: string)
    requires !AllSpace(content)
    ensures StartsWith(NonSpaces(content), NonSpaces(Snippet(content)))
    ensures |Trim(CollapseSpaces(content))| <= SnippetLength ==>
      NonSpaces(Snippet(content)) == NonSpaces(content)
  {
    var collapsed := CollapseSpaces(content);
    var text := Trim(collapsed);
    TrimNonSpaces(collapsed);
    CutShowsStart(text, Snippet(content), NonSpaces(content));
  }

  /** The cut of a text shows the start of its visible characters, and all of them
      when nothing is cut. */
  lemma CutShowsStart(text: string, cut: string, visible: string)
    requires cut == text[..if |text| <= SnippetLength then |text| else SnippetLength]
    requires NonSpaces(text) == visible
    ensures StartsWith(visible, NonSpaces(cut))
    ensures |text| <= SnippetLength ==> NonSpaces(cut) == visible
  {
    PrefixNonSpaces(text, |cut|);
    assert text[..|text|] == text;
  }

  /** The cut of a trimmed, collapsed text: at most 80 characters, empty only
      when the text is, starting like the text and still collapsed. */
  lemma CutShape(text: string, cut: string)
    requires SingleSpaced(text) && (text != [] ==> !IsSpace(text[0]))
    requires cut == if |text| <= SnippetLength then text else text[..SnippetLength]
    ensures |cut| <= SnippetLength
    ensures cut == [] <==> text == []
    ensures cut != [] ==> !IsSpace(cut[0])
    ensures SingleSpaced(cut)
  {
    if |text| > SnippetLength {
      SliceSingleSpaced(text, 0, SnippetLength);
      assert cut[0] == text[0];
    }
  }

  /** Trimming collapsed text keeps it collapsed. */
  lemma TrimSingleSpaced(collapsed: string, text: string)
    requires SingleSpaced(collapsed) && text == Trim(collapsed)
    ensures SingleSpaced(text)
  {
    var a := SkipSpaces(collapsed, 0);
    SliceSingleSpaced(collapsed, a, a + |text|);
  }

  /** A content that is one short word is its own snippet. */
  lemma SnippetKeepsWord(content: string, collapsed: string, text: string, cut: string)
    requires collapsed == CollapseSpaces(content) && text == Trim(collapsed)
    requires cut == if |text| <= SnippetLength then text else text[..SnippetLength]
    ensures NoSpace(content) && 0 < |content| <= SnippetLength ==> cut == content
  {
    if NoSpace(content) && content != [] {
      TrimOfTrimmed(content);
    }
  }

  /** A slice of collapsed text is collapsed. */
  lemma SliceSingleSpaced(s: string, a: nat, b: nat)
    requires a <= b <= |s| && SingleSpaced(s)
    ensures SingleSpaced(s[a..b])
  {
    assert forall i :: 0 <= i < b - a ==> s[a..b][i] == s[a + i];
  }
}
