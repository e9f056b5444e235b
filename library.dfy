// The values of the note library (notes, submitted items, seed data) and the
// pure list transformations its handlers assign: appends, filters and maps
// over the category list and the note list, plus the visible-note filter.

module Library {
  import opened Text
  import opened Sequences

  datatype Option<T> = None | Some(value: T)

  /** A note card. `category` refers to a category by its name and is never
      checked against the category list. */
  datatype Note = Note(id: int, color: string, year: int, title: string, authors: string, category: string)

  /** The object the item form submits: `id` is the edited note's id, or
      undefined (None) when a new note is being added. */
  datatype Item = Item(id: Option<int>, title: string, authors: string, year: int, category: string)

  /** The show-all filter. */
  const Recent: string := "Recent"
  /** A sidebar entry that is not wired to any notes. */
  const Discover: string := "Discover"
  /** The tag given to notes whose category is deleted. */
  const Uncategorized: string := "Uncategorized"

  const ColorOptions: seq<string> := ["bg-green-200", "bg-yellow-200", "bg-pink-200"]

  const InitialCategories: seq<string> := [
    "Computer science", "Psychology", "Machine learning", "Biology",
    "Economics", "Math", "Statistics", "Sociology", "Sports"
  ]

  const InitialNoteCards: seq<Note> := [
    Note(1, "bg-green-200", 2024, "VCHAR: Variance-Aware Human Computation framework with Generative Representation", "Authors names here", "Machine learning"),
    Note(2, "bg-yellow-200", 2024, "Bridge-like direct programmable amplification of target and donor DNA", "Authors names here", "Biology"),
    Note(3, "bg-yellow-200", 2017, "A manifesto for reproducible science", "Authors names here", "Psychology"),
    Note(4, "bg-pink-200", 2020, "Endowment effect", "Authors names here", "Economics"),
    Note(5, "bg-pink-200", 2019, "The Curious Case of Neural Text Degeneration", "Authors names here", "Machine learning"),
    Note(6, "bg-yellow-200", 2007, "The Strength Model of Self Control", "Authors names here", "Psychology")
  ]

  /** The two names a category delete refuses. */
  predicate IsProtected(name: string)
  {
    name == Recent || name == Discover
  }

  // ---------------------------------------------------------------------
  // Categories
  // ---------------------------------------------------------------------

  /** The new category list of `addCategory`: a non-empty name that is not
      listed yet goes at the end; anything else leaves the list as it is. */
  function AddCategoryTo(categories: seq<string>, name: string): (r: seq<string>)
    ensures r == categories <==> (name == "" || name in categories)
    ensures r != categories ==> r == categories + [name]
    ensures name != "" ==> name in r
    ensures NoDuplicates(categories) ==> NoDuplicates(r)
  {
    if name != "" && name !in categories then categories + [name] else categories
  }

  /** Adding the same name twice is adding it once. */
  lemma AddCategoryIdempotent(categories: seq<string>, name: string)
    ensures AddCategoryTo(AddCategoryTo(categories, name), name) == AddCategoryTo(categories, name)
  {
  }

  /** The category list of `deleteCategory`: every occurrence of `name` goes,
      the others stay in their order. */
  function RemoveCategory(categories: seq<string>, name: string): (r: seq<string>)
    ensures forall c :: c in r <==> c in categories && c != name
    ensures Subseq(r, categories)
    ensures name !in categories ==> r == categories
    ensures NoDuplicates(categories) ==> NoDuplicates(r)
  {
    if categories == [] then []
    else if categories[0] == name then RemoveCategory(categories[1..], name)
    else
      var rest := RemoveCategory(categories[1..], name);
      assert NoDuplicates(categories) ==> NoDuplicates(categories[1..]) && categories[0] !in rest;
      [categories[0]] + rest
  }

  /** The guard of `finishEditCategory`: a non-empty new name, different from
      the old one, that is not a category yet. */
  predicate RenameAllowed(categories: seq<string>, oldName: string, newName: string)
  {
    newName != "" && newName != oldName && newName !in categories
  }

  /** The category list of a rename: `from` is replaced by `to` in place. */
  function RenameIn(categories: seq<string>, from: string, to: string): (r: seq<string>)
    ensures |r| == |categories|
    ensures forall i :: 0 <= i < |categories| ==>
      r[i] == (if categories[i] == from then to else categories[i])
    ensures from != to && from in categories ==> to in r && from !in r
    ensures from !in categories ==> r == categories
    ensures NoDuplicates(categories) && to !in categories ==> NoDuplicates(r)
  {
    if categories == [] then []
    else [if categories[0] == from then to else categories[0]] + RenameIn(categories[1..], from, to)
  }

  /** Renaming to a name that is not listed can be undone by renaming back. */
  lemma RenameInRoundTrip(categories: seq<string>, from: string, to: string)
    requires to !in categories
    ensures RenameIn(RenameIn(categories, from, to), to, from) == categories
  {
    var mid := RenameIn(categories, from, to);
    var back := RenameIn(mid, to, from);
    forall i | 0 <= i < |categories|
      ensures back[i] == categories[i]
    {
      assert categories[i] != to;
      assert mid[i] == (if categories[i] == from then to else categories[i]);
      assert back[i] == (if mid[i] == to then from else mid[i]);
    }
    assert |back| == |categories|;
  }

  // ---------------------------------------------------------------------
  // Notes
  // ---------------------------------------------------------------------

  /** The note list after a category is renamed or deleted: notes tagged
      `from` are tagged `to`, every other note is left alone. */
  function Retag(notes: seq<Note>, from: string, to: string): (r: seq<Note>)
    ensures |r| == |notes|
    ensures forall i :: 0 <= i < |notes| ==>
      r[i] == (if notes[i].category == from then notes[i].(category := to) else notes[i])
  {
    if notes == [] then []
    else [if notes[0].category == from then notes[0].(category := to) else notes[0]] + Retag(notes[1..], from, to)
  }

  /** After a retag no note carries the old tag any more. */
  lemma RetagClears(notes: seq<Note>, from: string, to: string)
    requires from != to
    ensures forall n :: n in Retag(notes, from, to) ==> n.category != from
  {
  }

  /** A retag to a tag no note carries can be undone by retagging back. */
  lemma RetagRoundTrip(notes: seq<Note>, from: string, to: string)
    requires forall n :: n in notes ==> n.category != to
    ensures Retag(Retag(notes, from, to), to, from) == notes
  {
    var back := Retag(Retag(notes, from, to), to, from);
    forall i | 0 <= i < |notes|
      ensures back[i] == notes[i]
    {
      assert notes[i] in notes;
    }
  }

  /** `deleteNote`: keeps every note whose id differs from `id`. */
  function RemoveNote(notes: seq<Note>, id: int): (r: seq<Note>)
    ensures forall n :: n in r <==> n in notes && n.id != id
    ensures Subseq(r, notes)
    ensures (forall n :: n in notes ==> n.id != id) ==> r == notes
  {
    if notes == [] then []
    else if notes[0].id == id then RemoveNote(notes[1..], id)
    else [notes[0]] + RemoveNote(notes[1..], id)
  }

  /** Deleting distributes over concatenation: the kept notes keep their
      order and their multiplicity. */
  lemma {:induction false} RemoveNoteAppend(a: seq<Note>, b: seq<Note>, id: int)
    ensures RemoveNote(a + b, id) == RemoveNote(a, id) + RemoveNote(b, id)
  {
    if a == [] {
      assert a + b == b;
    } else {
      assert (a + b)[0] == a[0] && (a + b)[1..] == a[1..] + b;
      RemoveNoteAppend(a[1..], b, id);
    }
  }

  /** `{ ...note, ...item }`: the item's fields over the note's. The two ids
      are equal wherever this is applied, and the colour is the note's. */
  function Merge(note: Note, item: Item): Note
  {
    note.(title := item.title, authors := item.authors, year := item.year, category := item.category)
  }

  /** `note.id === item.id`: an undefined item id matches no note. */
  predicate IdMatches(note: Note, item: Item)
  {
    item.id == Some(note.id)
  }

  /** The note list of an edit: every note whose id matches the item's takes
      the item's fields; all others stay as they were. */
  function UpdateMatching(notes: seq<Note>, item: Item): (r: seq<Note>)
    ensures |r| == |notes|
    ensures forall i :: 0 <= i < |notes| ==> r[i].id == notes[i].id && r[i].color == notes[i].color
    ensures forall i :: 0 <= i < |notes| && !IdMatches(notes[i], item) ==> r[i] == notes[i]
    ensures forall i :: 0 <= i < |notes| && IdMatches(notes[i], item) ==>
      r[i].title == item.title && r[i].authors == item.authors &&
      r[i].year == item.year && r[i].category == item.category
  {
    if notes == [] then []
    else [if IdMatches(notes[0], item) then Merge(notes[0], item) else notes[0]] + UpdateMatching(notes[1..], item)
  }

  /** Saving the same edit twice is saving it once. */
  lemma UpdateMatchingIdempotent(notes: seq<Note>, item: Item)
    ensures UpdateMatching(UpdateMatching(notes, item), item) == UpdateMatching(notes, item)
  {
  }

  /** The card a submitted item becomes in add mode: id one past the current
      note count, the chosen colour, the item's fields. */
  function NewNote(count: nat, color: string, item: Item): Note
  {
    Note(count + 1, color, item.year, item.title, item.authors, item.category)
  }

  /** The note list of an add: the old notes, then exactly one new card. */
  function AppendNew(notes: seq<Note>, color: string, item: Item): (r: seq<Note>)
    ensures |r| == |notes| + 1
    ensures r[..|notes|] == notes
    ensures r[|notes|].id == |notes| + 1 && r[|notes|].color == color
    ensures r[|notes|].title == item.title && r[|notes|].authors == item.authors
    ensures r[|notes|].year == item.year && r[|notes|].category == item.category
  {
    notes + [NewNote(|notes|, color, item)]
  }

  /** Adding a note and then editing it by its new id leaves the last card
      with the edit's fields, its new id and its creation colour. */
  lemma AddThenEdit(notes: seq<Note>, color: string, added: Item, edit: Item)
    requires edit.id == Some(|notes| + 1)
    ensures var r := UpdateMatching(AppendNew(notes, color, added), edit);
      |r| == |notes| + 1 &&
      r[|notes|] == Note(|notes| + 1, color, edit.year, edit.title, edit.authors, edit.category)
  {
  }

  /** Ids are not unique: from the seed data, deleting note 1 and adding a
      note gives two notes with id 6. */
  lemma NewIdCanCollide(color: string, item: Item)
    ensures var r := AppendNew(RemoveNote(InitialNoteCards, 1), color, item);
      |r| == 6 && r[4].id == 6 && r[5].id == 6
  {
  }

  // ---------------------------------------------------------------------
  // The visible notes
  // ---------------------------------------------------------------------

  /** The category condition of `filteredNotes`. */
  predicate InFilter(note: Note, active: string)
  {
    active == Recent || note.category == active
  }

  /** The search condition of `filteredNotes`: the lower-cased term occurs in
      the lower-cased title or authors. */
  predicate MatchesSearch(note: Note, term: string)
  {
    Includes(Lower(note.title), Lower(term)) || Includes(Lower(note.authors), Lower(term))
  }

  /** `filteredNotes`: the notes passing both conditions, in list order. */
  function Visible(notes: seq<Note>, active: string, term: string): (r: seq<Note>)
    ensures forall n :: n in r <==> n in notes && InFilter(n, active) && MatchesSearch(n, term)
    ensures Subseq(r, notes)
  {
    if notes == [] then []
    else if InFilter(notes[0], active) && MatchesSearch(notes[0], term) then [notes[0]] + Visible(notes[1..], active, term)
    else Visible(notes[1..], active, term)
  }

  /** Filtering distributes over concatenation, so the visible notes keep
      their relative order and multiplicity. */
  lemma {:induction false} VisibleAppend(a: seq<Note>, b: seq<Note>, active: string, term: string)
    ensures Visible(a + b, active, term) == Visible(a, active, term) + Visible(b, active, term)
  {
    if a == [] {
      assert a + b == b;
    } else {
      assert (a + b)[0] == a[0] && (a + b)[1..] == a[1..] + b;
      VisibleAppend(a[1..], b, active, term);
    }
  }

  /** With the show-all filter and an empty search every note is visible. */
  lemma {:induction false} VisibleShowsAll(notes: seq<Note>)
    ensures Visible(notes, Recent, "") == notes
  {
    if notes != [] {
      IncludesEmpty(Lower(notes[0].title));
      VisibleShowsAll(notes[1..]);
    }
  }

  /** The search ignores the case of the term. */
  lemma {:induction false} VisibleCaseInsensitive(notes: seq<Note>, active: string, term: string)
    ensures Visible(notes, active, term) == Visible(notes, active, Lower(term))
  {
    LowerIdempotent(term);
    if notes != [] {
      VisibleCaseInsensitive(notes[1..], active, term);
    }
  }
}
