# Note library store of the notely note-taking screen

This project models the state store of `NoteTakingApp`, the stateful
top-level React component of the notely app. The store holds a list of category names, a list
of note cards, the active category filter, the search term, the item form's
mode and the category whose name is being edited. The handlers change that
state:

- adding a category;
- deleting a category, which retags its notes `Uncategorized`;
- renaming a category, which follows through to its notes and to the active filter;
- deleting a note;
- saving the item form, which adds a note or edits the matching notes.

The derived list of visible notes filters by category and by a
case-insensitive search over title and authors.

Modules:

- `Text` (`text.dfy`): ASCII lower-casing and substring search. These stand in for `toLowerCase` and `includes`.
- `Sequences` (`sequences.dfy`): the subsequence and no-duplicates predicates.
- `Library` (`library.dfy`): the note and item records, the seed data, and the pure list transformations each handler assigns, with their lemmas.
- `App` (`app.dfy`): the class `NoteTakingApp`. Its fields are the component's state. Its methods are the handlers, each one atomic transition. Its invariant `Valid()` says category names are unique.
- `AsWritten` (`as_written.dfy`): the add-mode card exactly as the object literal at src/App.tsx:156-160 builds it, and delete and edit over cards whose id may be undefined (see Findings).

Note ids are not unique. In the model, a new note gets the intended id: the
note count plus one (see Findings). After a deletion that id can equal a
surviving note's id (`Library.NewIdCanCollide`). As written, every note added
from the form gets the same undefined id instead (`AsWritten.SharedIdReachesBoth`).
Either way, delete and edit act on every note with a matching id, and no
uniqueness invariant is claimed.

Notes have no content field. The search covers title and authors only
(src/App.tsx:208-209).

Some helper functions and predicates carry no contract of their own. They are
specified through the contracts of the members listed below:

- `Text.Includes` (`String.prototype.includes`, src/App.tsx:208-209): through `Text.IncludesIff` and `Text.IncludesEmpty`.
- `Library.Merge` (`{ ...note, ...item }`, src/App.tsx:153) and `Library.IdMatches` (`note.id === item.id`, src/App.tsx:153): through `Library.UpdateMatching`.
- `Library.NewNote` (the new card, src/App.tsx:156-160): through `Library.AppendNew`.
- `Library.InFilter` and `Library.MatchesSearch` (src/App.tsx:207-209): through `Library.Visible` and `App.NoteTakingApp.FilteredNotes`.
- `Library.IsProtected` (src/App.tsx:182): through `App.NoteTakingApp.DeleteCategory`.
- `Library.RenameAllowed` (src/App.tsx:198): through `App.NoteTakingApp.FinishEditCategory`.

## Model

| member | source | states |
|---|---|---|
| Text.Lower | src/App.tsx:208-209 | lower-casing keeps the length and maps each character through the ASCII lower-case mapping |
| Text.LowerIdempotent | src/App.tsx:208-209 | lower-casing an already lower-cased string changes nothing |
| Text.IncludesIff | src/App.tsx:208-209 | the `includes` scan succeeds exactly when the needle occurs at some position of the haystack (both directions) |
| Text.IncludesEmpty | src/App.tsx:208-209 | every string includes the empty search term |
| Library.AddCategoryTo | src/App.tsx:175-179 | the list is unchanged exactly when the name is empty or already listed; otherwise the name is appended at the end; uniqueness of names is kept |
| Library.AddCategoryIdempotent | src/App.tsx:175-179 | adding the same name twice gives the same list as adding it once |
| Library.RemoveCategory | src/App.tsx:183 | the result holds exactly the categories other than the deleted name, as a subsequence in the original order; an absent name leaves the list unchanged; uniqueness is kept |
| Library.RenameIn | src/App.tsx:199 | same length, the old name replaced by the new one in place and nothing else changed; after a real rename the new name is listed and the old one is not; unique names stay unique when the new name was unlisted |
| Library.RenameInRoundTrip | src/App.tsx:199 | renaming to an unlisted name and back restores the category list |
| Library.Retag | src/App.tsx:184-186 | same length; each note tagged with the old name gets the new tag and keeps its other fields; every other note is unchanged |
| Library.RetagClears | src/App.tsx:184-186 | after retagging to a different name, no note carries the old tag |
| Library.RetagRoundTrip | src/App.tsx:200 | retagging to a tag no note carries and back restores the note list |
| Library.RemoveNote | src/App.tsx:165-167 | the result holds exactly the notes whose id differs, as a subsequence of the original; an absent id leaves the list unchanged |
| Library.RemoveNoteAppend | src/App.tsx:166 | deleting distributes over concatenation, so kept notes keep their order and multiplicity |
| Library.UpdateMatching | src/App.tsx:152-153 | same length; every note keeps its id and colour; notes whose id equals the item's take its title, authors, year and category; all other notes are unchanged |
| Library.UpdateMatchingIdempotent | src/App.tsx:153 | saving the same edit twice equals saving it once |
| Library.AppendNew | src/App.tsx:154-161 | the old notes are kept as a prefix and exactly one card follows, with id equal to the old count plus one, the chosen colour and the item's fields |
| Library.AddThenEdit | src/App.tsx:151-161 | adding a note and then editing by its new id leaves the last card with the edit's fields, its id and its creation colour |
| Library.NewIdCanCollide | src/App.tsx:157 | from the seed data, deleting note 1 and adding a note leaves two notes with id 6 |
| Library.Visible | src/App.tsx:206-210 | the result holds exactly the notes passing the category condition (`Recent` or equal tag) and the search condition (lower-cased term in lower-cased title or authors), as a subsequence of the notes |
| Library.VisibleAppend | src/App.tsx:206 | filtering distributes over concatenation, so visible notes keep their order and multiplicity |
| Library.VisibleShowsAll | src/App.tsx:206-210 | with the `Recent` filter and an empty search every note is visible |
| Library.VisibleCaseInsensitive | src/App.tsx:208-209 | a search term and its lower-cased form select the same notes |
| App.NoteTakingApp.constructor | src/App.tsx:141-149 | the initial state: the seed categories and notes, filter `Recent`, empty search, add mode, no category being edited, unique category names |
| App.NoteTakingApp.FilteredNotes | src/App.tsx:206-210 | the visible notes are `Library.Visible` of the current notes, filter and search term, so each note keeps its order and multiplicity (`Library.VisibleAppend`); they are a subsequence of the stored notes and are exactly those passing the active filter and the search; with `Recent` and an empty search all notes are shown |
| App.NoteTakingApp.AddOrUpdateItem | src/App.tsx:151-163 | in edit mode the notes become the edited list; in add mode one card with id count + 1 is appended; nothing else changes and category names stay unique |
| App.NoteTakingApp.DeleteNote | src/App.tsx:165-167 | the notes become those whose id differs, in order; nothing else changes |
| App.NoteTakingApp.OpenAddModal | src/App.tsx:286 | the item form switches to add mode; the lists, filter and search are unchanged |
| App.NoteTakingApp.OpenEditModal | src/App.tsx:169-173 | the item form switches to edit mode; the lists, filter and search are unchanged |
| App.NoteTakingApp.AddCategory | src/App.tsx:175-179 | the categories become the guarded append; notes, filter and search are unchanged; names stay unique |
| App.NoteTakingApp.DeleteCategory | src/App.tsx:181-191 | `Recent` and `Discover` leave categories, notes and filter unchanged; any other name is removed from the categories, its notes are retagged `Uncategorized`, and a filter on it resets to `Recent` |
| App.NoteTakingApp.StartEditCategory | src/App.tsx:193-195 | marks the category as being edited and changes nothing else |
| App.NoteTakingApp.FinishEditCategory | src/App.tsx:197-204 | when the new name is non-empty, different and unlisted, the rename reaches the categories, the notes and the active filter; otherwise those three are unchanged; the edit marker is cleared either way; names stay unique |
| App.NoteTakingApp.SelectCategory | src/App.tsx:223-243 | clicking `Recent` (line 223) or a category entry (line 243) makes it the active filter; nothing else changes |
| App.NoteTakingApp.SetSearchTerm | src/App.tsx:280 | the typed text becomes the search term; nothing else changes |
| AsWritten.NewCardAsWritten | src/App.tsx:156-160 | the card built by the object literal takes every key of the submitted item, its id included, and the chosen colour; so with an undefined item id its id is undefined, not the count-based one |
| AsWritten.AddedCardsShareId | src/App.tsx:156-160 | two successive adds as written give both cards the same undefined id, while the intended cards get ids count + 1 and count + 2 |
| AsWritten.RemoveCardAsWritten | src/App.tsx:166 | over cards whose ids may be undefined, the result holds exactly the cards whose id differs from the given one (undefined counting as equal to undefined), as a subsequence of the cards; with `AsWritten.RemoveCardAppend` this fixes how many copies of identical cards are kept |
| AsWritten.RemoveCardAppend | src/App.tsx:166 | deleting over such cards distributes over concatenation, so kept cards keep their order and every copy of an identical card is kept |
| AsWritten.UpdateCardsAsWritten | src/App.tsx:153 | over such cards, same length and every card keeps its id; cards whose id equals the item's (both undefined included) take its fields and keep their colour; the others are unchanged |
| AsWritten.SharedIdReachesBoth | src/App.tsx:153-166 | with two cards added from the form, deleting the first by its id removes both, and saving an edit of it rewrites both titles |

## Left out

- Rendering: the JSX, the `NoteCard` component, the icons and the modal open/close flags. These are presentation only.
- Form state: the text fields of `ItemModal` and `CategoryModal`. `AddOrUpdateItem` takes the submitted object as a parameter. Its `id` is the edited note's id in edit mode and undefined (`None`) in add mode.
- The `editingItem` state: it only supplies that `id`.
- The random card colour: `AddOrUpdateItem` takes the index the random draw would pick, one of the three colour options.
- `parseInt` of the year and its possible NaN: the year is an integer already supplied.
- Unicode case mapping: `Text.LowerChar` maps only the ASCII letters A-Z. `toLowerCase` maps all of Unicode.
- React batching and stale closures: each handler is one atomic transition on the current state.

## Findings

| source | as written | input that shows it | evidently intended | confidence | as-written member | corrected member |
|---|---|---|---|---|---|---|
| src/App.tsx:156-160 | `{ id: noteCards.length + 1, color, ...item }` lets the item's own `id` key replace the new id. The form always sends that key (line 43), and it is undefined in add mode because `editingItem` is null (line 286). | Any add from the form: the item `{ id: undefined, title, authors, year, category }` gives a card with an undefined id. A second add does the same, so the two cards share an id. | The new card gets id `noteCards.length + 1`. | high; not executed | AsWritten.AddedCardsShareId | Library.AppendNew |
