# freenote note tree, modelled in Dafny

freenote stores each user's notes as one nested JSON document in the
`notes` column of a `users` row, next to a per-user id counter
`notes_id_counter`. This project models the in-memory engine of
`database.py` that works on that document:

- the document shape (a note holds content; a notebook holds an ordered
  list of child nodes) and the seed document of a new row;
- `_traverse_notes`, the non-recursive lookup by id over an explicit stack;
- `modify_noteobject`, which patches the title (always) and the content
  (notes only) of the node with a given id;
- `add_noteobject`, which appends a default node with a counter-issued id
  to a notebook;
- `_read_and_increment_id_counter`;
- `get_notes_no_content` / `delete_content`, the listing with every note's
  content removed.

Modules, one per part of the engine:

- `Wrappers` (wrappers.dfy): `Option` and `Result`.
- `Notes` (notes.dfy): `Node`, `Kind`, the seed document, `Ids`, `UniqueIds`, and the lookup specification.
  - `Find` searches a node and then its children's subtrees, last child first. That is the order in which the stack pops them.
  - `EntryAt` gives the own fields of the node a lookup finds. For a note these are the title and content. For a notebook they are the title and the ordered child ids.
- `Traversal` (traversal.dfy): the stack loop, proved equal to `Find`.
- `Edit` (edit.dfy) and `Add` (add.dfy): the two updates as functions on the document, with lookup and frame lemmas.
- `Listing` (listing.dfy): the content-free listing.
- `Database` (database.dfy): class `UserNotes`, holding the row's `notes` and `notesIdCounter`.
  - Its methods are the operations of `Database` for one user.
  - `Valid()` is the invariant they keep: the root is notebook 0, ids are unique, and every id lies in `0 .. notesIdCounter - 1`.

The source edits the document through the reference `_traverse_notes`
returns. The model replaces the document with an update by id
(`EditTree`, `AddTree`). Under `Valid()` ids are unique, so both change the
same node.

The model follows the code in three places worth noting:

- A missing parent and a note parent raise the same error, "Notebook with id … not found" (database.py:252-253).
- A loaded document is never validated, so the model has no malformed-document check.
- The counter is a `SELECT` followed by a separate `UPDATE` (database.py:64-83). Run sequentially, that is the same as one read-and-increment.

## Model

| member | source | states |
|---|---|---|
| Notes.DefaultNotes | database.py:10-24 | the seed is a notebook with id 0 titled "Notes" whose only child is note 1, "My First Note", with content "Hello, World!" |
| Notes.SeedDocument | database.py:10-24 | the seed's root is notebook 0 titled "Notes" with note 1 ("My First Note", "Hello, World!") as its only child; its ids are {0, 1} and unique, and a lookup of id 1 finds that note |
| Notes.FindSound | database.py:193-203 | lookup finds a node exactly when the id occurs at some depth of the tree, and the node found carries the searched id |
| Notes.FindAmongAppend | database.py:193-201 | searching a stack `a + b` searches the top part `b` to the end before any of `a` (pop order) |
| Notes.SizeOfAppend | database.py:199-201 | pushing the children of a popped notebook leaves one node fewer on the stack in total (termination measure) |
| Notes.UniqueIdsCount | database.py:255-256 | the uniqueness invariant is the same as "as many distinct ids as nodes" |
| Traversal.TraverseNotes | database.py:187-203 | the stack loop returns exactly `Find`: a node with `find_id` when one occurs, `None` only when none does; it terminates |
| Edit.PatchNode | database.py:225-229 | the title is replaced for either kind; the content only on a note; id, kind and a notebook's children are unchanged |
| Edit.EditTree | database.py:219-229 | the edited document keeps the root's id and kind |
| Edit.EditAbsent | database.py:219-223 | an id that does not occur leaves the document as it is |
| Edit.EditKeepsIds | database.py:219-229 | an edit keeps the set of ids and their uniqueness |
| Edit.EditFindsPatched | database.py:219-229 | a lookup of the edited id afterwards finds the previously found node with the patch applied |
| Edit.EditFrame | database.py:219-235 | every other id's own fields (title, content, child ids) are the same after the edit |
| Add.NewNode | database.py:255-264 | a new note is titled "New Note" with content ""; a new notebook is titled "New Notebook" with no children; its only id is the one given |
| Add.IsNotebookAt | database.py:250-253 | the parent check passes only for an id that occurs in the document, on the node a lookup finds there; an absent id always fails it |
| Add.WithChild | database.py:266 | the parent keeps its id, title and kind; a notebook gets exactly one more child, the new node, after its earlier children in their order |
| Add.AddTree | database.py:250-266 | the document after the append keeps the root's id and kind |
| Add.AddAbsent | database.py:250-253 | a parent id that does not occur leaves the document as it is |
| Add.AddKeepsUnique | database.py:255-266 | appending a subtree with fresh unique ids under a notebook adds exactly its ids and keeps all ids unique |
| Add.AddFindsParent | database.py:266 | afterwards the parent is found with its earlier children, in order, followed by the new node |
| Add.AddFindsChild | database.py:266 | afterwards a lookup of the new id finds the new node |
| Add.AddFrame | database.py:266 | every id other than the parent's and the new one has the same own fields after the add |
| Listing.Strip | database.py:172-183 | the listed node keeps the id, title and kind of the node; a listed notebook has as many children as the notebook |
| Listing.StripExact | database.py:172-183 | two documents give the same listing if and only if they differ at most in note contents (ids, titles, kinds, child order all kept) |
| Listing.ContentEditUnlisted | database.py:172-183 | an edit without a title leaves the listing unchanged |
| Database.UserNotes.constructor | database.py:93-94 | a new row holds the seed document and counter 2, and satisfies the invariant |
| Database.UserNotes.ReadAndIncrementIdCounter | database.py:64-83 | returns the counter and advances it by exactly one; fails, leaving it unchanged, when the 32-bit column cannot hold the next value |
| Database.UserNotes.GetTotalNotes | database.py:146-166 | returns the stored document |
| Database.UserNotes.GetNoteById | database.py:131-144 | returns the lookup result for the stored document: a node with that id exactly when the id occurs |
| Database.UserNotes.GetNotesNoContent | database.py:168-185 | returns the listing of the stored document and changes nothing |
| Database.UserNotes.ModifyNoteObject | database.py:205-238 | fails with NoteNotFound exactly when the id is absent, and then nothing is written; otherwise the found node is patched, ids and the counter are unchanged, and every other id's own fields are unchanged; the invariant is kept |
| Database.UserNotes.AddNoteObject | database.py:240-279 | a missing or non-notebook parent fails before the counter is touched; otherwise the old counter value is the new id and is fresh, the counter advances by one, the new default node is the parent's last child, a lookup of the id finds it, and nothing else changes; the invariant is kept |

## Left out

- Database I/O is not modelled: the connection, `CREATE DATABASE`/`CREATE TABLE`, the SQL statements, `commit` and `__del__`. The row's two columns are plain fields of `UserNotes`.
- Rows keyed by `google_id` are not modelled, and neither are `user_exists` and `add_user`. The class models one user's row, as a new row is created with the column defaults.
- A missing user row is not modelled. In the source it makes `fetchone()` return `None` and the call fails.
- `json.dumps` serialisation and the `print` calls in `delete_content` are not modelled.
- Concurrency is not modelled. Two requests can each load, mutate and write back the whole document and lose an update. The counter's SELECT and UPDATE can interleave. The model is sequential.
- `note_type` is free text in the source. The model has only "note" and "notebook". With any other string, `add_noteobject` builds a node that has a `notes` list. `_traverse_notes` does not descend into that node, and it cannot be a parent.
- After the counter UPDATE fails, the model only returns the error and `UserNotes` stays usable. In the source, the failed statement leaves the connection's transaction aborted, and database.py never rolls it back. app.py:17 shares one `Database` for all users. So every later statement on that connection fails, for every user.
- In-place mutation is not modelled. `delete_content` deletes keys from a freshly loaded copy; the model builds a new `Listed` value. Edit and add write through a reference; the model updates by id.
- Edit.EditTree: with repeated ids it would patch every topmost node carrying the id, while the source patches only the first one its traversal finds. `Valid()` rules out repeated ids.
- Add.AddTree: with repeated ids it would append under every topmost notebook carrying the id, while the source appends only under the first one found. `Valid()` rules out repeated ids.
- The Flask routes, OAuth flow, key file handling and the client-side rendering are not part of this model.
