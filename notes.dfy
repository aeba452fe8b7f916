/** The note record, title normalisation, id bookkeeping and `getActiveNote`
    (js/app.js). */
module Notes {
  import opened Wrappers
  import opened Text
  import opened Sequences

  /** One stored note. Every field is a string; the timestamps are ISO-8601 text. */
  datatype Note = Note(id: string, title: string, content: string, createdAt: string, updatedAt: string)

  /** The placeholder title of a new note and of a note whose title is left blank. */
  const Untitled: string := "Sem título"

  /** `raw.trim() || "Sem título"`: the title the store saves for an entered title.
      It is never empty and never begins or ends with white space; a blank entry
      gives the placeholder and any other entry keeps its text without the
      surrounding white space. */
  function NormalizeTitle(raw: string): (r: string)
    ensures r != [] && !IsSpace(r[0]) && !IsSpace(r[|r| - 1])
    ensures AllSpace(raw) ==> r == Untitled
    ensures !AllSpace(raw) ==> r == Trim(raw) && Contains(raw, r)
  {
    var t := Trim(raw);
    if |t| > 0 then
      ContainsSlice(raw, SkipSpaces(raw, 0), SkipSpaces(raw, 0) + |t|);
      t
    else
      assert !IsSpace('S') && !IsSpace('o');
      Untitled
  }

  /** Saving a title a second time does not change it. */
  lemma NormalizeTitleIdempotent(raw: string)
    ensures NormalizeTitle(NormalizeTitle(raw)) == NormalizeTitle(raw)
  {
    var r := NormalizeTitle(raw);
    TrimOfTrimmed(r);
    assert !AllSpace(r) by { assert !IsSpace(r[0]); }
  }

  predicate HasId(ns: seq<Note>, id: string) {
    exists n :: n in ns && n.id == id
  }

  /** No two notes of the collection share an id. */
  predicate UniqueIds(ns: seq<Note>) {
    forall i, j :: 0 <= i < j < |ns| ==> ns[i].id != ns[j].id
  }

  lemma UniqueIdsCons(x: Note, ns: seq<Note>)
    ensures UniqueIds([x] + ns) <==> !HasId(ns, x.id) && UniqueIds(ns)
  {
    var s := [x] + ns;
    assert forall k :: 0 <= k < |ns| ==> s[k + 1] == ns[k];
    if UniqueIds(s) {
      forall n | n in ns ensures n.id != x.id {
        var k :| 0 <= k < |ns| && ns[k] == n;
        assert s[0].id != s[k + 1].id;
      }
      forall i, j | 0 <= i < j < |ns| ensures ns[i].id != ns[j].id {
        assert s[i + 1].id != s[j + 1].id;
      }
    }
    if !HasId(ns, x.id) && UniqueIds(ns) {
      forall i, j | 0 <= i < j < |s| ensures s[i].id != s[j].id {
        if i == 0 {
          assert s[j] in ns;
        } else {
          assert s[i] == ns[i - 1] && s[j] == ns[j - 1];
        }
      }
    }
  }

  /** Leaving notes out of a collection, as the delete filter does, keeps ids unique. */
  lemma {:induction false} SubsequenceUniqueIds(a: seq<Note>, b: seq<Note>)
    requires IsSubsequence(a, b) && UniqueIds(b)
    ensures UniqueIds(a)
    decreases |b|
  {
    if a != [] {
      UniqueIdsCons(b[0], b[1..]);
      assert b == [b[0]] + b[1..];
      if a[0] == b[0] && IsSubsequence(a[1..], b[1..]) {
        SubsequenceUniqueIds(a[1..], b[1..]);
        SubsequenceMembers(a[1..], b[1..]);
        UniqueIdsCons(a[0], a[1..]);
        assert a == [a[0]] + a[1..];
      } else {
        SubsequenceUniqueIds(a, b[1..]);
      }
    }
  }

  /** The position of the first note with the given id, as `Array.prototype.find`
      looks for it, or `None` when no note has it. */
  function IndexOf(ns: seq<Note>, id: string): (r: Option<nat>)
    ensures r.Some? ==> r.value < |ns| && ns[r.value].id == id
    ensures r.Some? ==> forall j :: 0 <= j < r.value ==> ns[j].id != id
    ensures r.None? <==> !HasId(ns, id)
  {
    if ns == [] then None
    else if ns[0].id == id then Some(0)
    else
      assert forall n :: n in ns ==> n == ns[0] || n in ns[1..];
      match IndexOf(ns[1..], id)
      case None => None
      case Some(k) => Some(k + 1)
  }

  /** `getActiveNote`: the position of the active note, the first note whose id is
      the active id; `None` when there is no active id or no note carries it. */
  function FindActive(ns: seq<Note>, activeId: Option<string>): (r: Option<nat>)
    ensures r.Some? ==> activeId.Some? && r.value < |ns| && ns[r.value].id == activeId.value
    ensures r.Some? ==> forall j :: 0 <= j < r.value ==> ns[j].id != activeId.value
    ensures r.None? <==> activeId.None? || !HasId(ns, activeId.value)
  {
    match activeId
    case None => None
    case Some(id) => IndexOf(ns, id)
  }

  /** The active note depends only on the ids: edits that keep every note's id in
      place keep the same note active. */
  lemma FindActiveByIds(ns: seq<Note>, ms: seq<Note>, activeId: Option<string>)
    requires |ns| == |ms|
    requires forall k :: 0 <= k < |ns| ==> ns[k].id == ms[k].id
    ensures FindActive(ns, activeId) == FindActive(ms, activeId)
  {
    var a, b := FindActive(ns, activeId), FindActive(ms, activeId);
    if a.Some? {
      assert ms[a.value].id == activeId.value;
      assert ms[a.value] in ms;
    }
    if b.Some? {
      assert ns[b.value].id == activeId.value;
      assert ns[b.value] in ns;
    }
  }

  /** The id list `state.notes[0]?.id ?? null` reads: the first note's id, if any. */
  function FirstId(ns: seq<Note>): (r: Option<string>)
    ensures r.None? <==> ns == []
    ensures r.Some? ==> HasId(ns, r.value) && r.value == ns[0].id
  {
    if ns == [] then None else assert ns[0] in ns; Some(ns[0].id)
  }

  /** The notes that remain once every note with the given id is filtered out
      (`state.notes.filter(n => n.id !== note.id)`): exactly the others, in
      their order. */
  function RemoveId(ns: seq<Note>, id: string): (r: seq<Note>)
    ensures forall n :: n in r <==> n in ns && n.id != id
    ensures forall n :: multiset(r)[n] == if n.id != id then multiset(ns)[n] else 0
    ensures !HasId(r, id)
    ensures IsSubsequence(r, ns)
  {
    Filter(ns, (n: Note) => n.id != id)
  }

  /** With unique ids, deleting an id present in the collection removes exactly one note. */
  lemma {:induction false} RemoveIdRemovesOne(ns: seq<Note>, id: string)
    requires UniqueIds(ns) && HasId(ns, id)
    ensures |RemoveId(ns, id)| == |ns| - 1
  {
    assert ns == [ns[0]] + ns[1..];
    UniqueIdsCons(ns[0], ns[1..]);
    if ns[0].id == id {
      RemoveIdAbsent(ns[1..], id);
    } else {
      assert HasId(ns[1..], id) by {
        var n :| n in ns && n.id == id;
        assert n in ns[1..];
      }
      RemoveIdRemovesOne(ns[1..], id);
    }
  }

  lemma {:induction false} RemoveIdAbsent(ns: seq<Note>, id: string)
    requires !HasId(ns, id)
    ensures RemoveId(ns, id) == ns
  {
    if ns != [] {
      assert ns[0] in ns;
      forall n | n in ns[1..] ensures n.id != id {
        assert n in ns;
      }
      RemoveIdAbsent(ns[1..], id);
      assert ns == [ns[0]] + ns[1..];
    }
  }
}
