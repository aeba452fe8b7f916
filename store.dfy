/** The note store of js/app.js: the mutable `state` object (js/app.js:22-27), the
    operations that change it, the `localStorage` slot they persist to, and the
    boot sequence (js/app.js:260-275). Browser inputs (the fresh id `uid()` makes,
    the time `nowISO()` reads, the answers of `confirm` and `prompt`, the editor
    field values) are parameters. */
module Store {
  import opened Wrappers
  import opened Text
  import opened Notes
  import opened Ordering
  import opened Listing
  import opened Debounce
  import opened Sequences

  /** What the storage key holds, as `load` sees it after `JSON.parse`. */
  datatype Blob =
    | Missing
      // no item under the key, or an empty string
    | Unreadable
      // `JSON.parse` throws, or the text parses to `null`
    | Record(notes: Option<seq<Note>>, activeId: Option<string>)
      // a parsed value; `notes` is present when it is an array, `activeId` when it is a string

  /** `persist`: the record `JSON.stringify` writes. A `null` active id is written
      as `null`, which reads back as "not a string". Whatever the state, reading the
      record back gives the written notes, and the written active id unless it was
      `null`. */
  function Encode(ns: seq<Note>, activeId: Option<string>): (b: Blob)
    ensures forall current :: LoadNotes(current, b) == ns
    ensures forall current :: LoadActive(current, b) == if activeId.Some? then activeId else current
  {
    Record(Some(ns), activeId)
  }

  /** The notes `load` leaves in the state: the stored array when there is one,
      otherwise the notes as they were. */
  function LoadNotes(current: seq<Note>, blob: Blob): (r: seq<Note>)
    ensures r == current || (blob.Record? && blob.notes == Some(r))
    ensures blob.Record? && blob.notes.Some? ==> r == blob.notes.value
  {
    if blob.Record? && blob.notes.Some? then blob.notes.value else current
  }

  /** The active id `load` leaves in the state: the stored id when it is a string,
      otherwise the id as it was; so `load` never clears an active id. */
  function LoadActive(current: Option<string>, blob: Blob): (r: Option<string>)
    ensures r == current || (blob.Record? && blob.activeId == r && r.Some?)
    ensures blob.Record? && blob.activeId.Some? ==> r == blob.activeId
    ensures current.Some? ==> r.Some?
  {
    if blob.Record? && blob.activeId.Some? then blob.activeId else current
  }

  /** Reading back what `persist` wrote gives the persisted notes, and the persisted
      active id unless that was `null`; nothing stored, or nothing readable, leaves
      the state alone. */
  lemma LoadAfterPersist(current: seq<Note>, currentId: Option<string>, ns: seq<Note>, activeId: Option<string>)
    ensures LoadNotes(current, Encode(ns, activeId)) == ns
    ensures LoadActive(currentId, Encode(ns, activeId)) == if activeId.Some? then activeId else currentId
    ensures LoadNotes(current, Missing) == current && LoadActive(currentId, Missing) == currentId
    ensures LoadNotes(current, Unreadable) == current && LoadActive(currentId, Unreadable) == currentId
  {
  }

  /** The note `createNote` adds: the fresh id, the placeholder title (already a
      saved title), no content, and both timestamps the current time, so it is not
      updated before it was created. */
  function NewNote(id: string, now: string): (n: Note)
    ensures n.id == id && n.title == Untitled && n.content == ""
    ensures n.createdAt == now && n.updatedAt == now
    ensures NormalizeTitle(n.title) == n.title
    ensures !Less(n.updatedAt, n.createdAt)
  {
    TrimOfTrimmed(Untitled);
    LessIrreflexive(now);
    Note(id, Untitled, "", now, now)
  }

  const WelcomeTitle: string := "Bem-vindo"
  const WelcomeContent: string :=
    "Escreva aqui suas anotações.\n\nDicas:\n- Ctrl+N cria uma nota\n- Ctrl+S salva\n- Ctrl+F foca a busca"

  /** The note the boot sequence seeds an empty store with: the title "Bem-vindo"
      (already a saved title), the tips text, and both timestamps the current time. */
  function Welcome(id: string, now: string): (n: Note)
    ensures n.id == id && n.title == WelcomeTitle && n.content == WelcomeContent
    ensures n.createdAt == now && n.updatedAt == now
    ensures NormalizeTitle(n.title) == n.title
    ensures !Less(n.updatedAt, n.createdAt)
  {
    TrimOfTrimmed(WelcomeTitle);
    LessIrreflexive(now);
    Note(id, WelcomeTitle, WelcomeContent, now, now)
  }

  /** The note after `renameActive` accepted a new title: the trimmed answer, or
      the placeholder for a blank one. */
  function Renamed(n: Note, answer: string, now: string): (r: Note)
    ensures r.id == n.id && r.content == n.content && r.createdAt == n.createdAt
    ensures r.updatedAt == now && r.title != []
    ensures AllSpace(answer) ==> r.title == Untitled
    ensures !AllSpace(answer) ==> r.title == Trim(answer)
    ensures !Less(n.updatedAt, n.createdAt) && !Less(now, n.updatedAt) ==>
      !Less(r.updatedAt, r.createdAt)
  {
    EditKeepsDatesOrdered(n, now);
    n.(title := NormalizeTitle(answer), updatedAt := now)
  }

  /** The note after `saveActiveFromUI` copied the editor fields into it: the
      content verbatim, the title trimmed, or the placeholder for a blank one. */
  function SavedFromEditor(n: Note, titleValue: string, contentValue: string, now: string): (r: Note)
    ensures r.id == n.id && r.createdAt == n.createdAt
    ensures r.content == contentValue && r.updatedAt == now && r.title != []
    ensures AllSpace(titleValue) ==> r.title == Untitled
    ensures !AllSpace(titleValue) ==> r.title == Trim(titleValue)
    ensures !Less(n.updatedAt, n.createdAt) && !Less(now, n.updatedAt) ==>
      !Less(r.updatedAt, r.createdAt)
  {
    EditKeepsDatesOrdered(n, now);
    n.(title := NormalizeTitle(titleValue), content := contentValue, updatedAt := now)
  }

  /** Replacing one note by a version with the same id and creation time keeps
      ids unique and keeps the same note active. */
  lemma ReplaceKeepsIds(ns: seq<Note>, i: nat, n: Note, activeId: Option<string>)
    requires i < |ns| && n.id == ns[i].id && n.createdAt == ns[i].createdAt
    ensures |ns[i := n]| == |ns|
    ensures forall k :: 0 <= k < |ns| ==>
      ns[i := n][k].id == ns[k].id && ns[i := n][k].createdAt == ns[k].createdAt
    ensures UniqueIds(ns[i := n]) <==> UniqueIds(ns)
    ensures FindActive(ns[i := n], activeId) == FindActive(ns, activeId)
  {
    var ms := ns[i := n];
    assert forall k :: 0 <= k < |ns| ==> ms[k].id == ns[k].id;
    FindActiveByIds(ns, ms, activeId);
  }

  /** With `now` no earlier than a note's last update, an edit keeps its update
      time no earlier than its creation time. */
  lemma EditKeepsDatesOrdered(n: Note, now: string)
    ensures !Less(n.updatedAt, n.createdAt) && !Less(now, n.updatedAt) ==>
      !Less(now, n.createdAt)
  {
    if !Less(n.updatedAt, n.createdAt) && !Less(now, n.updatedAt) {
      NotLessTransitive(now, n.updatedAt, n.createdAt);
    }
  }

  /** Every two notes that do not carry the active id are newest first. */
  ghost predicate OthersInOrder(ns: seq<Note>, activeId: Option<string>) {
    forall i, j :: 0 <= i < j < |ns| && (activeId.None? || (ns[i].id != activeId.value && ns[j].id != activeId.value)) ==>
      NoOlder(ns[i], ns[j])
  }

  /** The notes after the first keep the order of the others. */
  lemma OthersInOrderTail(ns: seq<Note>, activeId: Option<string>)
    requires ns != [] && OthersInOrder(ns, activeId)
    ensures OthersInOrder(ns[1..], activeId)
  {
    forall i, j | 0 <= i < j < |ns| - 1
      ensures activeId.None? || (ns[1..][i].id != activeId.value && ns[1..][j].id != activeId.value) ==>
        NoOlder(ns[1..][i], ns[1..][j])
    {
      assert ns[1..][i] == ns[i + 1] && ns[1..][j] == ns[j + 1];
    }
  }

  /** A first note that is not the active one is at least as recent as every later
      note that is not the active one either. */
  lemma OthersInOrderHead(ns: seq<Note>, id: string, n: Note)
    requires ns != [] && OthersInOrder(ns, Some(id)) && ns[0].id != id
    requires n in ns[1..] && n.id != id
    ensures NoOlder(ns[0], n)
  {
    var k :| 0 <= k < |ns[1..]| && ns[1..][k] == n;
    assert ns[k + 1] == n;
  }

  /** A note at least as recent as every note of a sorted collection can go in front. */
  lemma SortedCons(h: Note, rest: seq<Note>)
    requires SortedByRecency(rest) && forall n :: n in rest ==> NoOlder(h, n)
    ensures SortedByRecency([h] + rest)
  {
    var r := [h] + rest;
    forall i, j | 0 <= i < j < |r| ensures NoOlder(r[i], r[j]) {
      if i == 0 {
        assert r[j] == rest[j - 1];
      } else {
        assert r[i] == rest[i - 1] && r[j] == rest[j - 1];
      }
    }
  }

  /** When the notes without a given id are in order, deleting that id leaves a
      sorted collection. */
  lemma {:induction false} OthersInOrderRemove(ns: seq<Note>, id: string)
    requires OthersInOrder(ns, Some(id))
    ensures SortedByRecency(RemoveId(ns, id))
    decreases |ns|
  {
    if ns != [] {
      var rest := RemoveId(ns[1..], id);
      OthersInOrderTail(ns, Some(id));
      OthersInOrderRemove(ns[1..], id);
      if ns[0].id != id {
        forall n | n in rest ensures NoOlder(ns[0], n) {
          OthersInOrderHead(ns, id, n);
        }
        SortedCons(ns[0], rest);
        assert RemoveId(ns, id) == [ns[0]] + rest;
      } else {
        assert RemoveId(ns, id) == rest;
      }
    }
  }

  /** What a delete leaves once the render has sorted the remaining notes: the id is
      gone, with unique ids exactly one note went, and the note made active (the
      first remaining one) is the most recent when the remaining notes were in order. */
  lemma DeleteOutcome(ns: seq<Note>, id: string)
    requires HasId(ns, id)
    ensures var kept := RemoveId(ns, id); var after := SortByRecency(kept);
      && multiset(after) == multiset(kept)
      && !HasId(after, id)
      && (FirstId(kept).Some? ==> HasId(after, FirstId(kept).value))
      && (UniqueIds(ns) ==> UniqueIds(after) && |after| == |ns| - 1)
      && (SortedByRecency(ns) ==> SortedByRecency(kept))
      && (SortedByRecency(kept) && after != [] ==> FirstId(kept) == Some(after[0].id))
      && (OthersInOrder(ns, Some(id)) && after != [] ==> FirstId(kept) == Some(after[0].id))
  {
    var kept := RemoveId(ns, id);
    var after := SortByRecency(kept);
    SortUniqueIds(kept);
    if UniqueIds(ns) {
      SubsequenceUniqueIds(kept, ns);
      RemoveIdRemovesOne(ns, id);
    }
    if SortedByRecency(ns) {
      SubsequenceSorted(kept, ns);
    }
    if OthersInOrder(ns, Some(id)) {
      OthersInOrderRemove(ns, id);
    }
    if SortedByRecency(kept) {
      SortKeepsSorted(kept);
    }
    assert forall n :: n in after <==> n in multiset(kept);
    if FirstId(kept).Some? {
      assert kept[0] in after;
    }
  }

  /** The editor's two inputs: the title field (`els.title.value`) and the content
      field (`els.content.value`). */
  datatype Fields = Fields(title: string, content: string)

  /** What `renderEditor` puts in the editor: the active note's title, or the
      placeholder when the title is empty, and its content; two empty fields when
      there is no active note. The title shown saves back as the note's own saved
      title. */
  function EditorView(ns: seq<Note>, activeId: Option<string>): (r: Fields)
    ensures FindActive(ns, activeId).None? ==> r == Fields("", "")
    ensures FindActive(ns, activeId).Some? ==>
      var n := ns[FindActive(ns, activeId).value];
      && r.content == n.content
      && (n.title != "" ==> r.title == n.title)
      && (n.title == "" ==> r.title == Untitled)
      && NormalizeTitle(r.title) == NormalizeTitle(n.title)
  {
    match FindActive(ns, activeId)
    case None => Fields("", "")
    case Some(i) =>
      if ns[i].title == "" then
        NormalizeTitleIdempotent("");
        Fields(Untitled, ns[i].content)
      else
        Fields(ns[i].title, ns[i].content)
  }

  /** A save straight after a render, with the editor untouched, writes the active
      note back with its saved title and the new time and changes nothing else. */
  lemma ResaveAfterRender(ns: seq<Note>, activeId: Option<string>, now: string)
    requires FindActive(ns, activeId).Some?
    ensures var n := ns[FindActive(ns, activeId).value];
      var v := EditorView(ns, activeId);
      SavedFromEditor(n, v.title, v.content, now) == n.(title := NormalizeTitle(n.title), updatedAt := now)
  {
  }

  class NoteStore {
    var notes: seq<Note>
    var activeId: Option<string>
    var search: string
    var timer: Timer
    /** The browser's `localStorage` item for the key "meu_bloco_v1". */
    var storage: Blob
    /** The editor inputs: a render fills them, typing changes them and a save reads them. */
    var editor: Fields
    /** How many times `saveActiveFromUI` has run. */
    ghost var saveCalls: nat

    /** The initial `state` of a page load, with whatever the browser has stored. */
    constructor (initial: Blob)
      ensures notes == [] && activeId == None && search == "" && timer == Idle
      ensures editor == Fields("", "") && storage == initial && saveCalls == 0
      ensures OthersSorted()
    {
      notes, activeId, search, timer := [], None, "", Idle;
      editor := Fields("", "");
      storage := initial;
      saveCalls := 0;
    }

    /** `getActiveNote`: the position of the first note whose id is the active id,
        and nothing when there is no active id or no note carries it. */
    function ActiveIndex(): (r: Option<nat>)
      reads this
      ensures r.Some? ==> activeId.Some? && r.value < |notes| && notes[r.value].id == activeId.value
      ensures r.Some? ==> forall j :: 0 <= j < r.value ==> notes[j].id != activeId.value
      ensures r.None? <==> activeId.None? || !HasId(notes, activeId.value)
    {
      FindActive(notes, activeId)
    }

    /** The notes `renderList` shows: those the search box's text finds, in the
        array's order, and every note for a blank box. */
    function Listed(): (r: seq<Note>)
      reads this
      ensures IsSubsequence(r, notes)
      ensures AllSpace(search) ==> r == notes
      ensures !AllSpace(search) ==>
        forall n :: n in r <==> n in notes && Contains(Haystack(n), SearchTerm(search))
    {
      var r := Search(notes, search);
      if AllSpace(search) then SearchBlankListsAll(notes, search); r else r
    }

    /** The stored record holds the in-memory notes, possibly in another order (a
        render sorts the array after the write), and the in-memory active id. */
    ghost predicate Synced()
      reads this
    {
      storage.Record? && storage.notes.Some? &&
      multiset(storage.notes.value) == multiset(notes) && storage.activeId == activeId
    }

    /** The active id, when set, names a note of the collection. */
    ghost predicate ActiveExists()
      reads this
    {
      activeId.Some? ==> HasId(notes, activeId.value)
    }

    /** The notes other than the active one are newest first. A render sorts the whole
        array and an autosave changes only the active note, so this holds between
        operations, and `deleteActive` then makes the most recent remaining note active. */
    ghost predicate OthersSorted()
      reads this
    {
      OthersInOrder(notes, activeId)
    }

    method Persist()
      modifies this`storage
      ensures storage == Encode(notes, activeId)
    {
      storage := Encode(notes, activeId);
    }

    /** `sortNotes`. */
    method SortNotes()
      modifies this`notes
      ensures notes == SortByRecency(old(notes))
      ensures multiset(notes) == multiset(old(notes)) && SortedByRecency(notes)
      ensures UniqueIds(notes) <==> UniqueIds(old(notes))
    {
      SortUniqueIds(notes);
      notes := SortByRecency(notes);
    }

    /** `renderEditor`: the editor fields show the active note. */
    method RenderEditor()
      modifies this`editor
      ensures editor == EditorView(notes, activeId)
    {
      editor := EditorView(notes, activeId);
    }

    /** `render()`: sorts the notes, redraws the list and fills the editor with the
        active note. The list is UI only; the sort and the editor fields are state. */
    method Render()
      modifies this`notes, this`editor
      ensures notes == SortByRecency(old(notes))
      ensures multiset(notes) == multiset(old(notes)) && SortedByRecency(notes)
      ensures UniqueIds(notes) <==> UniqueIds(old(notes))
      ensures editor == EditorView(notes, activeId) && OthersSorted()
    {
      SortNotes();
      RenderEditor();
    }

    /** `load`: takes the stored notes when they are an array and the stored active
        id when it is a string; anything else leaves the state as it was. */
    method Load()
      modifies this`notes, this`activeId
      ensures notes == LoadNotes(old(notes), storage)
      ensures activeId == LoadActive(old(activeId), storage)
    {
      match storage
      case Record(ns, id) =>
        if ns.Some? { notes := ns.value; }
        if id.Some? { activeId := id; }
      case _ =>
    }

    /** `createNote` with a fresh id: the new note goes in front, becomes active and
        is persisted; then the render sorts the array and shows the new, empty note. */
    method CreateNote(id: string, now: string)
      requires !HasId(notes, id)
      modifies this`notes, this`activeId, this`storage, this`editor
      ensures storage == Encode([NewNote(id, now)] + old(notes), Some(id))
      ensures notes == SortByRecency([NewNote(id, now)] + old(notes))
      ensures activeId == Some(id) && Synced() && ActiveExists()
      ensures ActiveIndex().Some? && notes[ActiveIndex().value] == NewNote(id, now)
      ensures UniqueIds(old(notes)) ==> UniqueIds(notes)
      ensures editor == Fields(Untitled, "") && OthersSorted()
    {
      ghost var before := notes;
      var note := NewNote(id, now);
      notes := [note] + notes;
      activeId := Some(id);
      Persist();
      ghost var stored := storage;
      UniqueIdsCons(note, before);
      Render();
      assert storage == stored;
      assert note in multiset(notes);
      var i := ActiveIndex().value;
      assert forall n :: n in before ==> n.id != id;
      assert notes[i] in multiset([note] + before);
    }

    /** `deleteActive`: with an active note and a confirmation, drops every note with
        its id, makes the first remaining note (in the array's current order)
        active, persists, and the render sorts the array. Otherwise nothing changes. */
    method DeleteActive(confirmed: bool)
      modifies this`notes, this`activeId, this`storage, this`editor
      ensures old(ActiveIndex()).None? || !confirmed ==>
        notes == old(notes) && activeId == old(activeId) && storage == old(storage)
        && editor == old(editor)
      ensures old(ActiveIndex()).Some? && confirmed ==>
        var kept := RemoveId(old(notes), old(activeId).value);
        && storage == Encode(kept, FirstId(kept))
        && activeId == FirstId(kept)
        && notes == SortByRecency(kept)
        && Synced() && ActiveExists()
        && !HasId(notes, old(activeId).value)
        && (UniqueIds(old(notes)) ==> UniqueIds(notes) && |notes| == |old(notes)| - 1)
        && (SortedByRecency(old(notes)) && notes != [] ==> activeId == Some(notes[0].id))
        && (old(OthersSorted()) && notes != [] ==> activeId == Some(notes[0].id))
        && editor == EditorView(notes, activeId) && OthersSorted()
      ensures old(OthersSorted()) ==> OthersSorted()
    {
      var found := ActiveIndex();
      if found.None? || !confirmed {
        return;
      }
      var id := activeId.value;
      var kept := RemoveId(notes, id);
      DeleteOutcome(notes, id);
      notes := kept;
      activeId := FirstId(kept);
      Persist();
      ghost var stored := storage;
      Render();
      assert storage == stored;
    }

    /** `renameActive`: with an active note and an answered prompt, the note gets the
        normalised title and the new update time, the state is persisted and the
        render sorts the array. A missing active note or a cancelled prompt changes
        nothing. */
    method RenameActive(answer: Option<string>, now: string)
      modifies this`notes, this`storage, this`editor
      ensures old(ActiveIndex()).None? || answer.None? ==>
        notes == old(notes) && storage == old(storage) && editor == old(editor)
      ensures old(ActiveIndex()).Some? && answer.Some? ==>
        var i := old(ActiveIndex()).value;
        var edited := old(notes)[i := Renamed(old(notes)[i], answer.value, now)];
        && storage == Encode(edited, activeId)
        && notes == SortByRecency(edited)
        && Synced()
        && editor == EditorView(notes, activeId) && OthersSorted()
      ensures UniqueIds(notes) <==> UniqueIds(old(notes))
      ensures old(OthersSorted()) ==> OthersSorted()
    {
      var found := ActiveIndex();
      if found.None? || answer.None? {
        return;
      }
      var i := found.value;
      var edited := notes[i := Renamed(notes[i], answer.value, now)];
      ReplaceKeepsIds(notes, i, Renamed(notes[i], answer.value, now), activeId);
      notes := edited;
      Persist();
      Render();
    }

    /** `setActive`: records the id as given, without checking that a note has it,
        persists, and the render sorts the array and shows that note. */
    method SetActive(id: string)
      modifies this`notes, this`activeId, this`storage, this`editor
      ensures activeId == Some(id)
      ensures storage == Encode(old(notes), Some(id))
      ensures notes == SortByRecency(old(notes)) && Synced()
      ensures UniqueIds(notes) <==> UniqueIds(old(notes))
      ensures editor == EditorView(notes, activeId) && OthersSorted()
    {
      activeId := Some(id);
      Persist();
      Render();
    }

    /** The effect of one `saveActiveFromUI` on the notes and the store: the active
        note takes the editor fields as they are. */
    twostate predicate SavedFromUI(now: string)
      reads this
    {
      var found := FindActive(old(notes), old(activeId));
      && (found.None? ==> notes == old(notes) && storage == old(storage))
      && (found.Some? ==>
            var i := found.value;
            && notes == old(notes)[i := SavedFromEditor(old(notes)[i], old(editor).title, old(editor).content, now)]
            && storage == Encode(notes, activeId))
    }

    /** `saveActiveFromUI`: copies the editor fields into the active note and persists;
        a no-op without an active note. It never changes the active id, the order of
        the notes, their ids or their creation times, or the editor, and keeps the
        same note active. */
    method SaveActiveFromUI(now: string)
      modifies this`notes, this`storage, this`saveCalls
      ensures SavedFromUI(now)
      ensures saveCalls == old(saveCalls) + 1
      ensures |notes| == |old(notes)|
      ensures forall k :: 0 <= k < |notes| ==>
        notes[k].id == old(notes)[k].id && notes[k].createdAt == old(notes)[k].createdAt
      ensures ActiveIndex() == old(ActiveIndex())
      ensures UniqueIds(notes) <==> UniqueIds(old(notes))
      ensures old(OthersSorted()) ==> OthersSorted()
    {
      saveCalls := saveCalls + 1;
      var found := ActiveIndex();
      if found.None? {
        return;
      }
      var i := found.value;
      var saved := SavedFromEditor(notes[i], editor.title, editor.content, now);
      ReplaceKeepsIds(notes, i, saved, activeId);
      notes := notes[i := saved];
      Persist();
    }

    /** `scheduleSave`, run on every edit of the title or content field: clears the
        pending timer, if any, and arms a new one. */
    method ScheduleSave()
      modifies this`timer
      ensures timer == Step(old(timer), Edit).timer == Pending
    {
      timer := Pending;
    }

    /** Typing in the title field: the field holds the new text and `scheduleSave`
        re-arms the timer. */
    method TypeTitle(value: string)
      modifies this`editor, this`timer
      ensures editor == old(editor).(title := value)
      ensures timer == Step(old(timer), Edit).timer
    {
      editor := editor.(title := value);
      ScheduleSave();
    }

    /** Typing in the content field: the field holds the new text and `scheduleSave`
        re-arms the timer. */
    method TypeContent(value: string)
      modifies this`editor, this`timer
      ensures editor == old(editor).(content := value)
      ensures timer == Step(old(timer), Edit).timer
    {
      editor := editor.(content := value);
      ScheduleSave();
    }

    /** The armed timer expires: it runs `saveActiveFromUI`, which reads the editor
        fields as they are then. Without an armed timer nothing happens. */
    method SaveTimerFires(now: string)
      modifies this`timer, this`notes, this`storage, this`saveCalls
      ensures timer == Step(old(timer), Expire).timer
      ensures saveCalls == old(saveCalls) + Step(old(timer), Expire).commits
      ensures old(timer) == Pending ==> SavedFromUI(now)
      ensures old(timer) == Idle ==> notes == old(notes) && storage == old(storage)
      ensures UniqueIds(notes) <==> UniqueIds(old(notes))
      ensures old(OthersSorted()) ==> OthersSorted()
    {
      if timer == Pending {
        timer := Idle;
        SaveActiveFromUI(now);
      }
    }

    /** Ctrl+S: saves at once and leaves a pending timer armed. */
    method SaveShortcut(now: string)
      modifies this`notes, this`storage, this`saveCalls
      ensures timer == Step(old(timer), SaveNow).timer
      ensures saveCalls == old(saveCalls) + Step(old(timer), SaveNow).commits
      ensures SavedFromUI(now)
      ensures UniqueIds(notes) <==> UniqueIds(old(notes))
      ensures old(OthersSorted()) ==> OthersSorted()
    {
      SaveActiveFromUI(now);
    }

    /** The search box `input` handler: the box's text becomes the search, and the
        list shows what it finds. */
    method SetSearch(term: string)
      modifies this`search
      ensures search == term && Listed() == Search(notes, term)
    {
      search := term;
    }

    /** The boot sequence: `load`, then, when no note was loaded, one welcome note
        that becomes active and is persisted; then the render sorts the array and
        shows the active note. */
    method Boot(id: string, now: string)
      modifies this`notes, this`activeId, this`storage, this`editor
      ensures var loaded := LoadNotes(old(notes), old(storage));
        loaded == [] ==>
          && notes == [Welcome(id, now)] && activeId == Some(id)
          && storage == Encode(notes, activeId)
          && UniqueIds(notes)
      ensures var loaded := LoadNotes(old(notes), old(storage));
        loaded != [] ==>
          && notes == SortByRecency(loaded)
          && activeId == LoadActive(old(activeId), old(storage))
          && storage == old(storage)
          && (UniqueIds(notes) <==> UniqueIds(loaded))
      ensures editor == EditorView(notes, activeId) && OthersSorted()
    {
      Load();
      if |notes| == 0 {
        notes := [Welcome(id, now)];
        activeId := Some(notes[0].id);
        Persist();
        SortKeepsSorted(notes);
      }
      Render();
    }
  }

  /** First visit: nothing stored, so the store starts with the welcome note, active. */
  method FirstVisit(id: string, now: string)
  {
    var s := new NoteStore(Missing);
    s.Boot(id, now);
    assert s.notes == [Welcome(id, now)];
    assert s.notes[0].title == "Bem-vindo" && s.activeId == Some(id);
  }

  /** Two notes created in a row: both are kept, the second is active and the first
      is unchanged. */
  method CreateTwice(a: string, b: string, t1: string, t2: string)
    requires a != b
  {
    var s := new NoteStore(Missing);
    s.CreateNote(a, t1);
    assert s.notes == [NewNote(a, t1)];
    s.CreateNote(b, t2);
    assert |s.notes| == 2 && s.activeId == Some(b);
    assert NewNote(a, t1) in multiset(s.notes);
    assert UniqueIds(s.notes);
  }

  /** Deleting the only note leaves no note and no active id. */
  method DeleteOnlyNote(id: string, now: string)
  {
    var s := new NoteStore(Missing);
    s.CreateNote(id, now);
    s.DeleteActive(true);
    assert s.notes == [] && s.activeId == None;
  }

  /** A reload reads back the notes the last commit wrote. */
  method Reload(id: string, now: string, title: string)
  {
    var s := new NoteStore(Missing);
    s.CreateNote(id, now);
    s.RenameActive(Some(title), now);
    var t := new NoteStore(s.storage);
    t.Load();
    assert multiset(t.notes) == multiset(s.notes) && t.activeId == s.activeId;
  }

  /** A burst of edits followed by one expiry saves exactly once. */
  method TypingBurst(k: nat, content: string, now: string)
    requires k >= 1
  {
    var s := new NoteStore(Missing);
    var i := 0;
    while i < k
      invariant 0 <= i <= k
      invariant s.saveCalls == 0
      invariant i > 0 ==> s.timer == Pending
    {
      s.TypeContent(content);
      i := i + 1;
    }
    s.SaveTimerFires(now);
    s.SaveTimerFires(now);
    assert s.saveCalls == 1 && s.timer == Idle;
  }

  /** No note has any content. */
  ghost predicate Blank(ns: seq<Note>) {
    forall n :: n in ns ==> n.content == ""
  }

  /** Sorting empty notes and showing one of them leaves them empty and the editor's
      content field empty. */
  lemma SwitchShowsBlank(ns: seq<Note>, id: string)
    requires Blank(ns) && HasId(ns, id)
    ensures HasId(SortByRecency(ns), id)
    ensures Blank(SortByRecency(ns)) && EditorView(SortByRecency(ns), Some(id)).content == ""
  {
    var sorted := SortByRecency(ns);
    assert forall n :: n in sorted ==> n in multiset(ns);
    var n :| n in ns && n.id == id;
    assert n in multiset(sorted);
  }

  /** Saving empty editor text into a collection of empty notes leaves it empty. */
  lemma SaveKeepsBlank(ns: seq<Note>, i: nat, view: Fields, now: string)
    requires Blank(ns) && view.content == "" && i < |ns|
    ensures Blank(ns[i := SavedFromEditor(ns[i], view.title, view.content, now)])
  {
    var ms := ns[i := SavedFromEditor(ns[i], view.title, view.content, now)];
    forall n | n in ms ensures n.content == "" {
      var k :| 0 <= k < |ms| && ms[k] == n;
      if k != i { assert ns[k] in ns; }
    }
  }

  /** A pending autosave outlives a switch of note: the timer fires after
      `setActive` has re-rendered the editor, so it saves the note now shown with
      that note's own fields, and the text typed into the previous note is lost.
      Shown here for a store whose notes are all empty. */
  method SwitchBeforeAutosave(s: NoteStore, id: string, now: string, draft: string)
    requires Blank(s.notes) && HasId(s.notes, id) && draft != ""
    modifies s
  {
    ghost var before := s.notes;
    s.TypeContent(draft);
    assert s.timer == Pending && s.editor.content == draft;
    s.SetActive(id);
    ghost var shown, view := s.notes, s.editor;
    SwitchShowsBlank(before, id);
    s.SaveTimerFires(now);
    SaveKeepsBlank(shown, FindActive(shown, Some(id)).value, view, now);
    assert forall n :: n in s.notes ==> n.content != draft;
  }
}
