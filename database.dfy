/** One user's row of the `users` table, as the `Database` class reads and
    writes it: the notes document and the id counter. */
module Database {
  import opened Wrappers
  import opened Notes
  import opened Traversal
  import opened Edit
  import opened Add
  import opened Listing

  /** The largest value of the 32-bit `INT` column `notes_id_counter`. */
  const IntMax: int := 0x7fff_ffff

  datatype Error =
    | NoteNotFound(noteId: int)          // "Note with id … not found"
    | NotebookNotFound(parent: int)      // "Notebook with id … not found"
    | CounterOutOfRange                  // the counter UPDATE leaves the INT range

  class UserNotes {
    var notes: Node
    var notesIdCounter: int

    /** The invariant the operations keep (the source relies on it, never
        checks it): the root is notebook 0, ids are unique, and every id is
        below the counter, so the counter value is always a fresh id. */
    ghost predicate Valid()
      reads this
    {
      && notes.Notebook? && notes.id == 0
      && UniqueIds(notes)
      && 2 <= notesIdCounter <= IntMax
      && forall i :: i in Ids(notes) ==> 0 <= i < notesIdCounter
    }

    /** A freshly inserted row: the column defaults. */
    constructor ()
      ensures Valid()
      ensures notes == DefaultNotes() && notesIdCounter == 2
    {
      notes := DefaultNotes();
      notesIdCounter := 2;
      SeedDocument();
    }

    /** Returns the current counter and advances it by one; the UPDATE fails
        when the counter is already at the top of the column's range. */
    method ReadAndIncrementIdCounter() returns (r: Result<int, Error>)
      modifies this`notesIdCounter
      ensures old(notesIdCounter) < IntMax ==>
        r == Success(old(notesIdCounter)) && notesIdCounter == old(notesIdCounter) + 1
      ensures old(notesIdCounter) >= IntMax ==>
        r == Failure(CounterOutOfRange) && notesIdCounter == old(notesIdCounter)
    {
      var idCounter := notesIdCounter;
      if idCounter >= IntMax {
        return Failure(CounterOutOfRange);
      }
      notesIdCounter := idCounter + 1;
      r := Success(idCounter);
    }

    method GetTotalNotes() returns (d: Node)
      ensures d == notes
    {
      d := notes;
    }

    method GetNoteById(noteId: int) returns (r: Option<Node>)
      ensures r == Find(notes, noteId)
      ensures r.Some? <==> noteId in Ids(notes)
      ensures r.Some? ==> r.value.id == noteId
    {
      r := TraverseNotes(notes, noteId);
    }

    /** The listing sent to the client; the stored document is not touched. */
    method GetNotesNoContent() returns (l: Listed)
      ensures l == Strip(notes)
    {
      l := Strip(notes);
    }

    /** Patches the node with id `noteId`; a missing id fails and nothing is
        written. */
    method ModifyNoteObject(noteId: int, patch: Patch) returns (r: Result<(), Error>)
      requires Valid()
      modifies this`notes
      ensures Valid()
      ensures r.Failure? <==> noteId !in Ids(old(notes))
      ensures r.Failure? ==> r.error == NoteNotFound(noteId) && notes == old(notes)
      ensures r.Success? ==> notes == EditTree(old(notes), noteId, patch)
      ensures r.Success? ==>
        && Find(old(notes), noteId).Some?
        && Find(notes, noteId) == Some(PatchNode(Find(old(notes), noteId).value, patch))
      ensures Ids(notes) == Ids(old(notes))
      ensures forall j :: j != noteId ==> EntryAt(notes, j) == EntryAt(old(notes), j)
    {
      var note := TraverseNotes(notes, noteId);
      if note.None? {
        return Failure(NoteNotFound(noteId));
      }
      ghost var before := notes;
      notes := EditTree(notes, noteId, patch);
      EditKeepsIds(before, noteId, patch);
      EditFindsPatched(before, noteId, patch, note.value);
      forall j | j != noteId
        ensures EntryAt(notes, j) == EntryAt(before, j)
      {
        EditFrame(before, noteId, patch, j);
      }
      r := Success(());
    }

    /** Appends a new node of the given kind as the last child of notebook
        `parent` and returns its id, taken from the counter. A missing or
        non-notebook parent fails before the counter is read. */
    method AddNoteObject(parent: int, kind: Kind) returns (r: Result<int, Error>)
      requires Valid()
      modifies this
      ensures Valid()
      ensures !IsNotebookAt(old(notes), parent) ==>
        r == Failure(NotebookNotFound(parent))
      ensures IsNotebookAt(old(notes), parent) && old(notesIdCounter) == IntMax ==>
        r == Failure(CounterOutOfRange)
      ensures r.Failure? ==> notes == old(notes) && notesIdCounter == old(notesIdCounter)
      ensures IsNotebookAt(old(notes), parent) && old(notesIdCounter) < IntMax ==>
        r == Success(old(notesIdCounter))
      ensures r.Success? ==>
        && IsNotebookAt(old(notes), parent)
        && r.value !in Ids(old(notes))
        && notesIdCounter == r.value + 1
        && notes == AddTree(old(notes), parent, NewNode(r.value, kind))
        && Ids(notes) == Ids(old(notes)) + {r.value}
        && Find(notes, r.value) == Some(NewNode(r.value, kind))
        && Find(notes, parent) == Some(WithChild(Find(old(notes), parent).value, NewNode(r.value, kind)))
      ensures r.Success? ==>
        forall j :: j != parent && j != r.value ==> EntryAt(notes, j) == EntryAt(old(notes), j)
    {
      var parentNotebook := TraverseNotes(notes, parent);
      if parentNotebook.None? || !parentNotebook.value.Notebook? {
        return Failure(NotebookNotFound(parent));
      }
      var newId := ReadAndIncrementIdCounter();
      if newId.Failure? {
        return Failure(newId.error);
      }
      var newNote := NewNode(newId.value, kind);
      ghost var before := notes;
      notes := AddTree(notes, parent, newNote);
      AddKeepsUnique(before, parent, newNote);
      AddFindsChild(before, parent, newNote);
      AddFindsParent(before, parent, newNote, parentNotebook.value);
      forall j | j != parent && j != newNote.id
        ensures EntryAt(notes, j) == EntryAt(before, j)
      {
        AddFrame(before, parent, newNote, j);
      }
      r := Success(newId.value);
    }
  }

  /** A new user's first requests, checked against the contracts above:
      adding a note under the root yields id 2 with the default shape,
      renaming note 1 keeps its content, and a note cannot be a parent. */
  method FreshUserScenario() {
    var user := new UserNotes();
    assert IsNotebookAt(user.notes, 0);
    var added := user.AddNoteObject(0, NoteKind);
    assert added == Success(2);
    var got := user.GetNoteById(2);
    assert got == Some(Note(2, "New Note", ""));
    assert EntryAt(user.notes, 1) == Some(NoteEntry("My First Note", "Hello, World!"));

    var edited := user.ModifyNoteObject(1, Patch(Some("Renamed"), None));
    assert edited.Success?;
    got := user.GetNoteById(1);
    assert got == Some(Note(1, "Renamed", "Hello, World!"));

    assert Find(user.notes, 1).value.Note?;
    var rejected := user.AddNoteObject(1, NoteKind);
    assert rejected == Failure(NotebookNotFound(1)) && user.notesIdCounter == 3;
  }
}
