/** Editing a node in place by id: the in-memory part of
    `modify_noteobject`. */
module Edit {
  import opened Wrappers
  import opened Notes

  /** The keys of `new_note_data` the edit honours; an absent key is `None`. */
  datatype Patch = Patch(title: Option<string>, content: Option<string>)

  /** A patch applied to one node: the title for either kind, the content
      only when the node is a note; id, kind and children never change. */
  function PatchNode(n: Node, p: Patch): (r: Node)
    ensures r.id == n.id && r.KindOf() == n.KindOf()
    ensures r.title == if p.title.Some? then p.title.value else n.title
    ensures r.Note? ==> r.content == if p.content.Some? then p.content.value else n.content
    ensures r.Notebook? ==> r.notes == n.notes
  {
    match n
    case Note(id, t, c) => Note(id, p.title.GetOr(t), p.content.GetOr(c))
    case Notebook(id, t, cs) => Notebook(id, p.title.GetOr(t), cs)
  }

  /** The document after patching the node with id `k`; the source writes
      through the reference the traversal returns, modelled here as an
      update by id. */
  function EditTree(n: Node, k: int, p: Patch): (r: Node)
    ensures r.id == n.id && r.KindOf() == n.KindOf()
  {
    if n.id == k then PatchNode(n, p)
    else match n
      case Note(_, _, _) => n
      case Notebook(id, t, cs) => Notebook(id, t, EditAmong(cs, k, p))
  }

  function EditAmong(cs: seq<Node>, k: int, p: Patch): (r: seq<Node>)
    ensures |r| == |cs|
  {
    if cs == [] then []
    else EditAmong(cs[..|cs| - 1], k, p) + [EditTree(cs[|cs| - 1], k, p)]
  }

  /** An id that does not occur leaves the tree as it is. */
  lemma {:induction false} EditAbsent(n: Node, k: int, p: Patch)
    requires k !in Ids(n)
    ensures EditTree(n, k, p) == n
  {
    if n.Notebook? {
      EditAmongAbsent(n.notes, k, p);
    }
  }

  lemma {:induction false} EditAmongAbsent(cs: seq<Node>, k: int, p: Patch)
    requires k !in IdsOf(cs)
    ensures EditAmong(cs, k, p) == cs
  {
    if cs != [] {
      EditAbsent(cs[|cs| - 1], k, p);
      EditAmongAbsent(cs[..|cs| - 1], k, p);
    }
  }

  /** An edit keeps the set of ids and their uniqueness. */
  lemma {:induction false} EditKeepsIds(n: Node, k: int, p: Patch)
    ensures Ids(EditTree(n, k, p)) == Ids(n)
    ensures UniqueIds(n) ==> UniqueIds(EditTree(n, k, p))
  {
    if n.Notebook? && n.id != k {
      EditAmongKeepsIds(n.notes, k, p);
    }
  }

  lemma {:induction false} EditAmongKeepsIds(cs: seq<Node>, k: int, p: Patch)
    ensures IdsOf(EditAmong(cs, k, p)) == IdsOf(cs)
    ensures ChildIds(EditAmong(cs, k, p)) == ChildIds(cs)
    ensures UniqueAmong(cs) ==> UniqueAmong(EditAmong(cs, k, p))
  {
    if cs != [] {
      var r := EditAmong(cs, k, p);
      assert r[..|r| - 1] == EditAmong(cs[..|cs| - 1], k, p);
      EditKeepsIds(cs[|cs| - 1], k, p);
      EditAmongKeepsIds(cs[..|cs| - 1], k, p);
    }
  }

  /** A lookup of the edited id after the edit finds the node it found
      before, patched. */
  lemma {:induction false} EditFindsPatched(n: Node, k: int, p: Patch, m: Node)
    requires Find(n, k) == Some(m)
    ensures Find(EditTree(n, k, p), k) == Some(PatchNode(m, p))
  {
    if n.id != k {
      EditAmongFindsPatched(n.notes, k, p, m);
    }
  }

  lemma {:induction false} EditAmongFindsPatched(cs: seq<Node>, k: int, p: Patch, m: Node)
    requires FindAmong(cs, k) == Some(m)
    ensures FindAmong(EditAmong(cs, k, p), k) == Some(PatchNode(m, p))
  {
    var r := EditAmong(cs, k, p);
    var init, last := cs[..|cs| - 1], cs[|cs| - 1];
    assert r[..|r| - 1] == EditAmong(init, k, p);
    if Find(last, k).Some? {
      EditFindsPatched(last, k, p, m);
    } else {
      FindSound(last, k);
      EditAbsent(last, k, p);
      EditAmongFindsPatched(init, k, p, m);
    }
  }

  /** Every other id sees the same own fields after the edit: titles,
      contents and child lists of all other nodes are untouched. */
  lemma {:induction false} EditFrame(n: Node, k: int, p: Patch, j: int)
    requires j != k
    ensures EntryAt(EditTree(n, k, p), j) == EntryAt(n, j)
  {
    if n.Notebook? {
      if n.id != k {
        EditAmongKeepsIds(n.notes, k, p);
      }
      if n.id != j && n.id != k {
        EditAmongFrame(n.notes, k, p, j);
      }
    }
  }

  lemma {:induction false} EditAmongFrame(cs: seq<Node>, k: int, p: Patch, j: int)
    requires j != k
    ensures FindAmong(EditAmong(cs, k, p), j).Some? == FindAmong(cs, j).Some?
    ensures FindAmong(cs, j).Some? ==>
      EntryOf(FindAmong(EditAmong(cs, k, p), j).value) == EntryOf(FindAmong(cs, j).value)
  {
    if cs != [] {
      var r := EditAmong(cs, k, p);
      assert r[..|r| - 1] == EditAmong(cs[..|cs| - 1], k, p);
      EditFrame(cs[|cs| - 1], k, p, j);
      EditAmongFrame(cs[..|cs| - 1], k, p, j);
    }
  }
}
