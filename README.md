# Bloco de notas: a verified model of the note store

`js/app.js` is a single-page note pad. It keeps its notes in one browser
`localStorage` item. A note has an id, a title, a content and two ISO-8601
timestamps (`createdAt`, `updatedAt`). The page holds one mutable `state`:
- the notes array;
- the id of the active note, or `null`;
- the search box value;
- the autosave timer.

Section by section, the code:
- creates, renames, deletes and selects notes;
- saves the editor fields into the active note, after a 250 ms pause in typing or at once on Ctrl+S;
- lists the notes most recently updated first, filtered by the search box, each with a one-line snippet;
- seeds a welcome note ("Bem-vindo") on a first visit.

This project models that store in Dafny and proves what each operation does.

- `wrappers.dfy` (`Wrappers`): the `Option` type.
- `text.dfy` (`Text`): the JavaScript string operations the store relies on:
  - `trim()` and the `\s` class, using the exact set of JavaScript white-space and line-terminator characters;
  - `toLowerCase()` on ASCII letters;
  - `includes()`;
  - `replace(/\s+/g, " ")`;
  - an ordinal comparison in place of `localeCompare`.
- `sequences.dfy` (`Sequences`): `Array.prototype.filter` and order-preserving subsequences.
- `notes.dfy` (`Notes`): the note record, the title rule `trim() || "Sem título"`, id uniqueness, `getActiveNote`, and the delete filter.
- `ordering.dfy` (`Ordering`): `sortNotes`, modelled as a stable insertion sort, most recent first. It comes with proofs of permutation, order, stability, idempotence and id preservation.
- `listing.dfy` (`Listing`): the search filter and the snippet computed inside `renderList`.
- `debounce.dfy` (`Debounce`): the autosave timer as an Idle/Pending machine driven by edit, expiry and Ctrl+S events.
- `store.dfy` (`Store`): the class `NoteStore`. Its fields are `notes`, `activeId`, `search`, `timer`, `editor` (the values of the title and content inputs) and `storage` (the `localStorage` item). Its methods are the store's operations.

  The browser inputs are parameters:
  - the new id `uid()` makes, with a precondition that no note has it;
  - the time `nowISO()` reads;
  - the answers of `confirm` and `prompt` (`None` for a cancelled prompt);
  - the text typed into the title or content input.

  Client methods (`FirstVisit`, `CreateTwice`, `DeleteOnlyNote`, `Reload`, `TypingBurst`, `SwitchBeforeAutosave`) are proved walk-throughs of six scenarios: first visit, two creations, deleting the only note, a reload, a typing burst, and a switch of note while an autosave is pending.

Four operations call `render()`: `createNote`, `deleteActive`, `renameActive` and `setActive`; the boot sequence also ends with one. `render()` sorts `state.notes` in place *after* the operation has persisted, and `renderEditor` then writes the active note's title and content into the two inputs (js/app.js:170-198); `NoteStore.Render` does both. So the stored array keeps the order from before the sort, and memory holds the sorted one. `saveActiveFromUI` and the search box handler call only `renderList()`, which does not sort, and `scheduleSave` renders nothing. `NoteStore.Synced()` says that the stored record holds the in-memory notes (as a multiset) and the in-memory active id.

Behaviour of the code that the model keeps as written:
- `setActive` records any id, whether or not a note has it (js/app.js:118-122).
- `load` accepts any string as the active id, unchecked (js/app.js:44).
- `deleteActive` makes `state.notes[0]` active, in whatever order the array has then (js/app.js:99). An autosave renders only the list, so the array need not be sorted then, but an autosave changes only the active note, which is the one the delete removes. `NoteStore.OthersSorted()` says that the notes without the active id are newest first: the constructor and `Boot` establish it, every operation keeps it, and under it `DeleteActive` makes the most recent remaining note active.
- A pending autosave survives a switch of note. When `createNote`, `deleteActive`, `renameActive` or `setActive` runs less than 250 ms after typing, its `render()` overwrites the inputs with the newly active note. The timer then saves that note with its own fields and a new `updatedAt`, and the text just typed into the previous note is lost (js/app.js:188-189, 200-217). `SwitchBeforeAutosave` shows this.
- Ctrl+S saves without clearing the pending timer (js/app.js:245-248), so the timer still fires and saves a second time.
- The boot sequence persists only when it seeds the welcome note (js/app.js:262-273).
- The placeholder title is "Sem título".

## Model

| member | source | states |
|---|---|---|
| Text.Trim | js/app.js:111 | The result is the slice of the input between its first and last non-space characters. It is empty exactly when the input is all white space, and when not empty it neither starts nor ends with white space. |
| Text.TrimOfTrimmed | js/app.js:111-112 | Text that neither starts nor ends with white space is its own trim. |
| Text.ToLower | js/app.js:125 | Same length as the input; each position holds the input character with ASCII capitals lower-cased. |
| Text.ToLowerConcat | js/app.js:129 | Lower-casing the joined title and content is joining their lower-cased forms. |
| Text.ContainsIsOccurrence | js/app.js:130 | `includes` holds exactly when the term occurs in the text at some position. |
| Text.ContainsInJoin | js/app.js:129-130 | A term found in the title or in the content is found in the text that joins them. |
| Text.ContainsSlice | js/app.js:130 | Every slice of a string is found by `includes`. |
| Text.LessIsLexicographic | js/app.js:72 | One timestamp sorts before another exactly when, at the first position where they differ, its character is smaller, or when it is a proper prefix of the other. |
| Text.LessIrreflexive | js/app.js:72 | The ordinal order never puts a timestamp before itself. |
| Text.LessAsymmetric | js/app.js:72 | Two timestamps are never each before the other. |
| Text.LessTransitive | js/app.js:72 | The ordinal order is transitive. |
| Text.LessTotal | js/app.js:72 | Any two different timestamps are ordered one way or the other. |
| Text.NotLessTransitive | js/app.js:72 | "Not before" is transitive, so the sort comparator is a total preorder. |
| Text.CollapseSpaces | js/app.js:155 | Every run of white space becomes one plain space. The visible characters survive, all of them and in order. A space sits before the first, between two, or after the last exactly where white space sat in the input. The result is never longer, is empty only for an empty input, and starts with a space exactly when the input does. It is all white space exactly when the input is, and text without white space is unchanged. |
| Text.TrimNonSpaces | js/app.js:155 | Trimming keeps every visible character. |
| Text.PrefixNonSpaces | js/app.js:155 | The visible characters of a prefix begin the visible characters of the whole text. |
| Sequences.Filter | js/app.js:127-131 | The result keeps exactly the elements that satisfy the callback, each as many times as it occurs in the input, in their original order; it is no longer than the input. |
| Sequences.FilterConcat | js/app.js:127-131 | Filtering two parts joined is joining the filtered parts. |
| Sequences.FilterKeepsAll | js/app.js:128 | A callback that accepts every element keeps the whole array. |
| Notes.NormalizeTitle | js/app.js:111-112 | The saved title is never empty and never starts or ends with white space. A blank entry gives "Sem título"; any other entry gives its trimmed text, which occurs in the entry. |
| Notes.NormalizeTitleIdempotent | js/app.js:213 | Normalising an already saved title changes nothing. |
| Notes.UniqueIdsCons | js/app.js:84 | Putting a note in front keeps ids unique exactly when its id is new and the rest were unique. |
| Notes.SubsequenceUniqueIds | js/app.js:98 | Dropping notes from a collection with unique ids keeps them unique. |
| Notes.IndexOf | js/app.js:67 | The result is the first position whose note has the id; it is `None` exactly when no note has it. |
| Notes.FindActive | js/app.js:66-68 | The result is the first note carrying the active id. It is `None` exactly when there is no active id or no note has it. |
| Notes.FindActiveByIds | js/app.js:66-68 | Two collections with the same id at every position have the same active note. |
| Notes.FirstId | js/app.js:99 | The result is `None` exactly for an empty collection; otherwise it is the id of the first note. |
| Notes.RemoveId | js/app.js:98 | The result holds exactly the notes with another id, each as many times as before, in their order, and no note with the deleted id. |
| Notes.RemoveIdRemovesOne | js/app.js:98 | With unique ids, deleting a present id removes exactly one note. |
| Notes.RemoveIdAbsent | js/app.js:98 | Deleting an id no note has changes nothing. |
| Ordering.NoOlderTotal | js/app.js:72 | Of any two notes, one is at least as recent as the other. |
| Ordering.NoOlderTransitive | js/app.js:72 | "At least as recent" is transitive. |
| Ordering.Insert | js/app.js:72 | One insertion step adds one note to the collection. |
| Ordering.InsertPosition | js/app.js:72 | The note goes right before the first note that is not strictly more recent, after the notes ahead of it, which are all strictly more recent; the rest keep their order. |
| Ordering.InsertPermutes | js/app.js:72 | One insertion step adds exactly the inserted note. |
| Ordering.InsertSorted | js/app.js:72 | Inserting into a sorted collection keeps it sorted. |
| Ordering.SortByRecency | js/app.js:70-73 | The sort returns a rearrangement of the notes (the same multiset), ordered most recently updated first. |
| Ordering.InsertStable | js/app.js:72 | An insertion keeps the notes with any one timestamp in their order, the inserted note first among those sharing its timestamp. |
| Ordering.SortStable | js/app.js:70-73 | The sort is stable: the notes with any one timestamp keep their relative order. |
| Ordering.SortKeepsSorted | js/app.js:70-73 | A collection already in order is returned unchanged. |
| Ordering.SortIdempotent | js/app.js:70-73 | Sorting twice gives the same result as sorting once. |
| Ordering.SortNewestFirst | js/app.js:70-73 | A note at least as recent as all the others, placed in front of them, comes out first. |
| Ordering.SortUndatedLast | js/app.js:72 | Notes without an update time come after every note that has one. |
| Ordering.SubsequenceSorted | js/app.js:98-99 | Dropping notes from a sorted collection leaves it sorted. |
| Ordering.InsertHasId | js/app.js:72 | After an insertion, an id is present exactly when it was present before or belongs to the inserted note. |
| Ordering.InsertUniqueIds | js/app.js:72 | An insertion keeps ids unique exactly when the inserted id is new and the rest were unique. |
| Ordering.SortUniqueIds | js/app.js:70-73 | Sorting neither creates nor removes a duplicate id. |
| Listing.SearchTerm | js/app.js:125 | The search term is empty exactly when the search box holds only white space. |
| Listing.Haystack | js/app.js:129 | The searched text is the lower-cased title, a newline and the lower-cased content. |
| Listing.Shown | js/app.js:128-130 | A blank term keeps every note, and a term found in the lower-cased title or content keeps the note. |
| Listing.Search | js/app.js:125-131 | The listed notes keep their order in the collection. For a non-blank search they are exactly the notes whose lower-cased title and content contain the term, each as many times as it occurs in the collection. |
| Listing.SearchBlankListsAll | js/app.js:128 | A blank search lists every note, in order. |
| Listing.SearchFindsTitle | js/app.js:125-130 | Searching for a note's exact title lists that note. |
| Listing.TitleInHaystack | js/app.js:129-130 | A note's trimmed, lower-cased title occurs in its lower-cased title-and-content text. |
| Listing.LowerSliceInConcat | js/app.js:129 | A lower-cased slice of the title occurs in the lower-cased text that joins title, newline and content. |
| Listing.Snippet | js/app.js:155 | The snippet has 1 to 80 characters. Blank content gives "—". Any other content gives the first 80 characters (or all) of the collapsed, trimmed content: a snippet that starts with a visible character and has only single plain spaces. A single word of at most 80 characters is shown as is. |
| Listing.SnippetShowsContentStart | js/app.js:155 | The visible characters of the snippet are the first visible characters of the content, and all of them when the collapsed, trimmed content fits in 80 characters. |
| Listing.CutShape | js/app.js:155 | Cutting at 80 characters keeps the cut non-empty for non-empty text, keeps its first character visible and keeps spaces single. |
| Listing.TrimSingleSpaced | js/app.js:155 | Trimming collapsed text keeps spaces single and plain. |
| Listing.SnippetKeepsWord | js/app.js:155 | A short content without white space passes through collapse, trim and cut unchanged. |
| Listing.SliceSingleSpaced | js/app.js:155 | A slice of single-spaced text is single-spaced. |
| Debounce.Step | js/app.js:200-248 | One event saves at most once: exactly for Ctrl+S, or for the expiry of a pending timer. Afterwards a timer is pending exactly after an edit, or after Ctrl+S while one was pending. |
| Debounce.Run | js/app.js:200-248 | A trace saves at most once per event; after a trace ending in an edit a timer is pending, after one ending in an expiry none is. |
| Debounce.RunAppend | js/app.js:200-207 | Running two event traces one after the other gives the same result as running them joined. |
| Debounce.BurstArms | js/app.js:200-207 | Any burst of edits, from any timer state, leaves exactly one pending timer and saves nothing. |
| Debounce.BurstThenExpireCommitsOnce | js/app.js:200-207 | A burst of edits followed by one expiry saves exactly once and leaves no timer. |
| Debounce.SaveNowLeavesTimerArmed | js/app.js:245-248 | Ctrl+S during a burst saves at once but leaves the timer pending, so the expiry saves again. |
| Debounce.ExpireTwiceCommitsOnce | js/app.js:204-206 | After an expiry no timer is left, so a second expiry saves nothing. |
| Debounce.CommitsBounded | js/app.js:200-248 | Every save comes from an expiry or a Ctrl+S; edits alone never save. |
| Store.Encode | js/app.js:50-55 | Whatever the state, loading the written record gives back the written notes, and the written active id unless it was `null`. |
| Store.LoadNotes | js/app.js:43 | The state takes the stored array when there is one, and keeps its notes otherwise. |
| Store.LoadActive | js/app.js:44 | The state takes the stored active id when it is a string, and keeps its own otherwise, so loading never clears an active id. |
| Store.LoadAfterPersist | js/app.js:38-55 | Loading what `persist` wrote restores the notes, and the active id unless it was `null`. A missing or unreadable item leaves the state as it was. |
| Store.NewNote | js/app.js:77-83 | The new note has the fresh id, the placeholder title (already a saved title), no content, and the current time for both timestamps, so it is not updated before it was created. |
| Store.Welcome | js/app.js:264-270 | The welcome note has the fresh id, the title "Bem-vindo" (already a saved title), the tips text, and the current time for both timestamps. |
| Store.Renamed | js/app.js:111-113 | The renamed note keeps its id, content and creation time. Its title is the trimmed answer, or "Sem título" for a blank answer, and is never empty. Its update time is the new time, and with a clock that does not run backwards it is not before the creation time. |
| Store.SavedFromEditor | js/app.js:213-215 | The saved note keeps its id and creation time and takes the editor content verbatim. Its title is the trimmed field, or "Sem título" for a blank field, and is never empty. Its update time is the new time, and with a clock that does not run backwards it is not before the creation time. |
| Store.ReplaceKeepsIds | js/app.js:111-113 | Replacing one note by an edit with the same id and creation time keeps the length and each position's id and creation time. It keeps ids unique and keeps the same note active. |
| Store.EditKeepsDatesOrdered | js/app.js:113 | With a clock that does not run backwards, an edited note is never updated before it was created. |
| Store.EditorView | js/app.js:170-192 | The inputs show the active note's content and its title, or "Sem título" for an empty title, and are both empty without an active note; the title shown saves back as the note's own saved title. |
| Store.ResaveAfterRender | js/app.js:188-215 | A save straight after a render, with the inputs untouched, writes the active note back with its saved title and the new time, and changes nothing else. |
| Store.OthersInOrderRemove | js/app.js:98 | When the notes without a given id are newest first, the delete filter for that id leaves a sorted collection. |
| Store.DeleteOutcome | js/app.js:98-101 | After the delete and the render, the id is gone and the multiset is the filtered one; with unique ids exactly one note went; when the others were in order the first remaining note, which becomes active, is the newest. |
| Store.NoteStore.constructor | js/app.js:22-27 | A page starts with no notes, no active id, an empty search, no timer, empty inputs and the browser's stored item, with the invariant `OthersSorted` holding. |
| Store.NoteStore.ActiveIndex | js/app.js:66-68 | The result is the position of the first note carrying the active id; it is `None` exactly when there is no active id or no note has it. |
| Store.NoteStore.Listed | js/app.js:124-131 | The list shows the notes the search box's text finds, in the array's order, and every note for a blank box. |
| Store.NoteStore.Persist | js/app.js:50-55 | The stored item becomes the record of the current notes and active id. |
| Store.NoteStore.SortNotes | js/app.js:70-73 | The notes are replaced by their sorted rearrangement: the same multiset, ordered most recent first, with ids unique exactly when they were before. |
| Store.NoteStore.RenderEditor | js/app.js:170-192 | The inputs show the active note as `EditorView` gives it. |
| Store.NoteStore.Render | js/app.js:194-198 | The notes are sorted as `SortNotes` does, the inputs show the active note, and the notes other than the active one are in order. |
| Store.NoteStore.Load | js/app.js:38-48 | The state takes the stored notes when there is an array and the stored active id when it is a string; otherwise the state is kept. |
| Store.NoteStore.CreateNote | js/app.js:75-87 | The stored record holds the new note ("Sem título", empty content, the fresh id) in front of all earlier notes in their order, with the new id active. Memory holds the sorted collection, with the new note active and ids still unique; the editor shows "Sem título" and no content. |
| Store.NoteStore.DeleteActive | js/app.js:91-101 | Without an active note, or without confirmation, nothing changes and nothing is persisted. Otherwise every note with the active id is removed and the others keep their order. The first remaining note (or none) becomes active and is persisted. With unique ids exactly one note goes. When the notes other than the active one were in order, as every operation leaves them, the most recent remaining note becomes active. The editor shows the new active note. |
| Store.NoteStore.RenameActive | js/app.js:104-115 | Without an active note, or with a cancelled prompt, nothing changes. Otherwise only the active note changes: it gets the normalised title and the new update time, and the result is persisted and sorted. The active id never changes, id uniqueness is kept, and the editor shows the renamed note. |
| Store.NoteStore.SetActive | js/app.js:118-122 | The given id becomes active, whether or not a note has it. The state is persisted, the notes are sorted with ids unique exactly when they were before, and the editor shows the note with that id, or nothing. |
| Store.NoteStore.SaveActiveFromUI | js/app.js:209-217 | Without an active note nothing changes. Otherwise exactly the active note takes the values in the editor inputs and the new update time, and the state is persisted. The active id, the order, every id and every creation time stay as they were, and so does id uniqueness. |
| Store.NoteStore.ScheduleSave | js/app.js:200-207 | After an edit exactly one timer is pending, whatever was pending before. |
| Store.NoteStore.TypeTitle | js/app.js:237 | Typing in the title input changes that input alone and leaves one timer pending. |
| Store.NoteStore.TypeContent | js/app.js:238 | Typing in the content input changes that input alone and leaves one timer pending. |
| Store.NoteStore.SaveTimerFires | js/app.js:204-206 | A pending timer performs one `saveActiveFromUI` with the inputs as they are when it fires, and leaves no timer; with no timer nothing happens. Id uniqueness is kept. |
| Store.NoteStore.SaveShortcut | js/app.js:245-248 | Ctrl+S performs one `saveActiveFromUI` at once with the inputs as they are, and leaves the timer as it was. Id uniqueness is kept. |
| Store.NoteStore.SetSearch | js/app.js:232-235 | The search value becomes the box's text, and the list shows what that text finds. |
| Store.NoteStore.Boot | js/app.js:261-275 | If no note was loaded, the store holds only the welcome note "Bem-vindo"; it is active and persisted. Otherwise the loaded notes are sorted, with ids unique exactly when the loaded ones were, the loaded active id is kept and nothing is written. Either way the editor shows the active note. |

## Left out

- DOM and rendering: the element lookups, the list's elements, `setStatus`, `setMeta` (the character count), `focusEditor`, and the event wiring. These are UI only. Their effects on the state are the sort inside `render()` and the input values `renderEditor` writes, which the methods include.
- The `disabled` flags `renderEditor` sets on the inputs are not modelled: in the model text can be typed without an active note, and the save that follows changes nothing, as `saveActiveFromUI` returns without an active note.
- `localStorage`, `JSON.stringify` and `JSON.parse` are not modelled as text. The stored item is the `Blob` datatype: nothing, unreadable, or a parsed record whose fields did or did not have the expected type. Notes loaded from storage are taken to be well-formed note records; the code does not check their fields either.
- `uid()` and `nowISO()` read `Math.random` and the clock. They are parameters: a fresh id and a time string.
- Store.NewNote: uses one time for `createdAt` and `updatedAt`. `createNote` reads the clock twice (js/app.js:81-82), and the two readings can differ by a millisecond.
- Store.Welcome: uses one time for `createdAt` and `updatedAt`. The boot sequence reads the clock twice (js/app.js:268-269), and the two readings can differ by a millisecond.
- `confirm`, `prompt`, the `navigator.platform` check and the Ctrl+N / Ctrl+F shortcuts are UI. Their answers are parameters, and Ctrl+N is `CreateNote`.
- `setTimeout` and `clearTimeout`: the 250 ms delay and real time are not modelled. The timer is Idle or Pending, and its expiry is an explicit event.
- Text.ToLower: lower-cases ASCII letters only. `toLowerCase` also maps other Unicode capitals, such as accented letters.
- Text.Less: compares by code point instead of by `localeCompare`'s locale rules. The two agree on ISO-8601 timestamps.
- Listing.Snippet: counts characters, whereas `slice(0, 80)` counts UTF-16 code units. The two differ only for characters outside the Basic Multilingual Plane.
- The title fallback `note.title || "Sem título"` of each list entry (js/app.js:151) and the localised date under it are display only, so they are not modelled.
- `localStorage.setItem` (js/app.js:51) can throw, for example when the storage quota is exceeded, and nothing in the code catches it. The in-memory state has then changed while storage has not, and the `render()` after `persist()` is skipped. In the model `Persist` always succeeds.
