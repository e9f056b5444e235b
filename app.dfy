// The state of the note-taking screen and the handlers that change it. Each
// handler is one atomic transition; the new list values are the pure
// functions of module Library.

module App {
  import opened Sequences
  import opened Library

  /** Whether the item form adds a new note or edits an existing one. */
  datatype Mode = AddMode | EditMode

  class NoteTakingApp {
    var activeCategory: string
    var categories: seq<string>
    var noteCards: seq<Note>
    var modalMode: Mode
    var searchTerm: string
    /** The category whose name is being edited in the sidebar, if any. */
    var editingCategory: Option<string>

    /** Category names stay unique: every handler that adds or renames one
        refuses a name that is already listed. */
    ghost predicate Valid()
      reads this
    {
      NoDuplicates(categories)
    }

    /** The screen as it first renders: the seed lists, the show-all filter,
        an empty search. */
    constructor ()
      ensures Valid()
      ensures activeCategory == Recent && categories == InitialCategories && noteCards == InitialNoteCards
      ensures modalMode == AddMode && searchTerm == "" && editingCategory == None
    {
      activeCategory := Recent;
      categories := InitialCategories;
      noteCards := InitialNoteCards;
      modalMode := AddMode;
      searchTerm := "";
      editingCategory := None;
    }

    /** The notes shown in the grid: those passing the category filter and
        the search, in list order. */
    function FilteredNotes(): (r: seq<Note>)
      reads this
      ensures Subseq(r, noteCards)
      ensures forall n :: n in r <==>
        n in noteCards && (activeCategory == Recent || n.category == activeCategory) && MatchesSearch(n, searchTerm)
      ensures activeCategory == Recent && searchTerm == "" ==> r == noteCards
      ensures r == Visible(noteCards, activeCategory, searchTerm)
    {
      VisibleShowsAll(noteCards);
      Visible(noteCards, activeCategory, searchTerm)
    }

    /** Saves the item form. In edit mode every note whose id matches the
        item's takes its fields; in add mode one new card goes at the end,
        its colour being option `pick`, the index the `Math.random` draw in
        `addOrUpdateItem` would choose. */
    method AddOrUpdateItem(item: Item, pick: nat)
      requires Valid()
      requires pick < |ColorOptions|
      modifies this
      ensures Valid()
      ensures noteCards == if old(modalMode) == EditMode then UpdateMatching(old(noteCards), item)
                           else AppendNew(old(noteCards), ColorOptions[pick], item)
      ensures categories == old(categories) && activeCategory == old(activeCategory)
      ensures modalMode == old(modalMode) && searchTerm == old(searchTerm) && editingCategory == old(editingCategory)
    {
      if modalMode == EditMode {
        noteCards := UpdateMatching(noteCards, item);
      } else {
        noteCards := AppendNew(noteCards, ColorOptions[pick], item);
      }
    }

    /** Deletes every note with the given id; an absent id changes nothing. */
    method DeleteNote(id: int)
      requires Valid()
      modifies this
      ensures Valid()
      ensures noteCards == RemoveNote(old(noteCards), id)
      ensures categories == old(categories) && activeCategory == old(activeCategory)
      ensures modalMode == old(modalMode) && searchTerm == old(searchTerm) && editingCategory == old(editingCategory)
    {
      noteCards := RemoveNote(noteCards, id);
    }

    /** Opens the item form for a new note. */
    method OpenAddModal()
      requires Valid()
      modifies this
      ensures Valid()
      ensures modalMode == AddMode
      ensures categories == old(categories) && noteCards == old(noteCards) && activeCategory == old(activeCategory)
      ensures searchTerm == old(searchTerm) && editingCategory == old(editingCategory)
    {
      modalMode := AddMode;
    }

    /** Opens the item form on an existing note. */
    method OpenEditModal()
      requires Valid()
      modifies this
      ensures Valid()
      ensures modalMode == EditMode
      ensures categories == old(categories) && noteCards == old(noteCards) && activeCategory == old(activeCategory)
      ensures searchTerm == old(searchTerm) && editingCategory == old(editingCategory)
    {
      modalMode := EditMode;
    }

    /** Appends a non-empty name that is not yet a category. */
    method AddCategory(name: string)
      requires Valid()
      modifies this
      ensures Valid()
      ensures categories == AddCategoryTo(old(categories), name)
      ensures noteCards == old(noteCards) && activeCategory == old(activeCategory)
      ensures modalMode == old(modalMode) && searchTerm == old(searchTerm) && editingCategory == old(editingCategory)
    {
      if name != "" && name !in categories {
        categories := categories + [name];
      }
    }

    /** Deletes a category unless it is one of the two protected names: its
        notes become Uncategorized, and a filter on it falls back to Recent. */
    method DeleteCategory(name: string)
      requires Valid()
      modifies this
      ensures Valid()
      ensures IsProtected(name) ==>
        categories == old(categories) && noteCards == old(noteCards) && activeCategory == old(activeCategory)
      ensures !IsProtected(name) ==>
        && categories == RemoveCategory(old(categories), name)
        && noteCards == Retag(old(noteCards), name, Uncategorized)
        && activeCategory == (if old(activeCategory) == name then Recent else old(activeCategory))
      ensures modalMode == old(modalMode) && searchTerm == old(searchTerm) && editingCategory == old(editingCategory)
    {
      if name != Recent && name != Discover {
        categories := RemoveCategory(categories, name);
        noteCards := Retag(noteCards, name, Uncategorized);
        if activeCategory == name {
          activeCategory := Recent;
        }
      }
    }

    /** Marks a category as being renamed in the sidebar. */
    method StartEditCategory(name: string)
      requires Valid()
      modifies this
      ensures Valid()
      ensures editingCategory == Some(name)
      ensures categories == old(categories) && noteCards == old(noteCards) && activeCategory == old(activeCategory)
      ensures modalMode == old(modalMode) && searchTerm == old(searchTerm)
    {
      editingCategory := Some(name);
    }

    /** Ends a sidebar rename. When the guard holds, `oldName` becomes
        `newName` in the category list, on every note and in the active
        filter; otherwise nothing changes. The edit marker is cleared either
        way. */
    method FinishEditCategory(oldName: string, newName: string)
      requires Valid()
      modifies this
      ensures Valid()
      ensures RenameAllowed(old(categories), oldName, newName) ==>
        && categories == RenameIn(old(categories), oldName, newName)
        && noteCards == Retag(old(noteCards), oldName, newName)
        && activeCategory == (if old(activeCategory) == oldName then newName else old(activeCategory))
      ensures !RenameAllowed(old(categories), oldName, newName) ==>
        categories == old(categories) && noteCards == old(noteCards) && activeCategory == old(activeCategory)
      ensures editingCategory == None
      ensures modalMode == old(modalMode) && searchTerm == old(searchTerm)
    {
      if newName != "" && newName != oldName && newName !in categories {
        categories := RenameIn(categories, oldName, newName);
        noteCards := Retag(noteCards, oldName, newName);
        if activeCategory == oldName {
          activeCategory := newName;
        }
      }
      editingCategory := None;
    }

    /** Clicking a sidebar entry makes it the active filter. */
    method SelectCategory(name: string)
      requires Valid()
      modifies this
      ensures Valid()
      ensures activeCategory == name
      ensures categories == old(categories) && noteCards == old(noteCards)
      ensures modalMode == old(modalMode) && searchTerm == old(searchTerm) && editingCategory == old(editingCategory)
    {
      activeCategory := name;
    }

    /** Typing in the search box replaces the search term. */
    method SetSearchTerm(term: string)
      requires Valid()
      modifies this
      ensures Valid()
      ensures searchTerm == term
      ensures categories == old(categories) && noteCards == old(noteCards) && activeCategory == old(activeCategory)
      ensures modalMode == old(modalMode) && editingCategory == old(editingCategory)
    {
      searchTerm := term;
    }
  }
}
