/** Appending a new child to a notebook: the in-memory part of
    `add_noteobject`. */
module Add {
  import opened Wrappers
  import opened Notes

  /** The node `add_noteobject` builds for a fresh id. */
  function NewNode(id: int, kind: Kind): (r: Node)
    ensures r.id == id && r.KindOf() == kind && Ids(r) == {id} && UniqueIds(r)
    ensures r.Note? ==> r.title == "New Note" && r.content == ""
    ensures r.Notebook? ==> r.title == "New Notebook" && r.notes == []
  {
    match kind
    case NoteKind => Note(id, "New Note", "")
    case NotebookKind => Notebook(id, "New Notebook", [])
  }

  /** The source's parent check: a node with that id exists and is a
      notebook. */
  predicate IsNotebookAt(d: Node, parent: int): (b: bool)
    ensures b ==> parent in Ids(d) && Find(d, parent).Some? && Find(d, parent).value.id == parent
    ensures parent !in Ids(d) ==> !b
  {
    FindSound(d, parent);
    Find(d, parent).Some? && Find(d, parent).value.Notebook?
  }

  /** A notebook with `c` appended as its last child. */
  function WithChild(nb: Node, c: Node): (r: Node)
    ensures r.id == nb.id && r.title == nb.title && r.KindOf() == nb.KindOf()
    ensures nb.Notebook? ==>
      |r.notes| == |nb.notes| + 1 && r.notes[..|nb.notes|] == nb.notes && r.notes[|nb.notes|] == c
    ensures nb.Note? ==> r == nb
  {
    match nb
    case Note(_, _, _) => nb
    case Notebook(id, t, cs) => Notebook(id, t, cs + [c])
  }

  /** The document after appending `c` to the notebook with id `parent`;
      the source appends through the reference the traversal returns,
      modelled here as an update by id. */
  function AddTree(n: Node, parent: int, c: Node): (r: Node)
    ensures r.id == n.id && r.KindOf() == n.KindOf()
  {
    if n.id == parent then WithChild(n, c)
    else match n
      case Note(_, _, _) => n
      case Notebook(id, t, cs) => Notebook(id, t, AddAmong(cs, parent, c))
  }

  function AddAmong(cs: seq<Node>, parent: int, c: Node): (r: seq<Node>)
    ensures |r| == |cs|
  {
    if cs == [] then []
    else AddAmong(cs[..|cs| - 1], parent, c) + [AddTree(cs[|cs| - 1], parent, c)]
  }

  lemma {:induction false} AddAbsent(n: Node, parent: int, c: Node)
    requires parent !in Ids(n)
    ensures AddTree(n, parent, c) == n
  {
    if n.Notebook? {
      AddAmongAbsent(n.notes, parent, c);
    }
  }

  lemma {:induction false} AddAmongAbsent(cs: seq<Node>, parent: int, c: Node)
    requires parent !in IdsOf(cs)
    ensures AddAmong(cs, parent, c) == cs
  {
    if cs != [] {
      AddAbsent(cs[|cs| - 1], parent, c);
      AddAmongAbsent(cs[..|cs| - 1], parent, c);
    }
  }

  lemma {:induction false} AddAmongKeepsChildIds(cs: seq<Node>, parent: int, c: Node)
    ensures ChildIds(AddAmong(cs, parent, c)) == ChildIds(cs)
  {
    if cs != [] {
      var r := AddAmong(cs, parent, c);
      assert r[..|r| - 1] == AddAmong(cs[..|cs| - 1], parent, c);
      AddAmongKeepsChildIds(cs[..|cs| - 1], parent, c);
    }
  }

  /** Adding a subtree with fresh, unique ids under an existing notebook
      adds exactly its ids and keeps all ids unique. */
  lemma {:induction false} AddKeepsUnique(n: Node, parent: int, c: Node)
    requires UniqueIds(n) && UniqueIds(c) && Ids(c) !! Ids(n)
    requires IsNotebookAt(n, parent)
    ensures Ids(AddTree(n, parent, c)) == Ids(n) + Ids(c)
    ensures UniqueIds(AddTree(n, parent, c))
  {
    if n.id == parent {
      var cs := n.notes;
      var r := cs + [c];
      assert r[..|r| - 1] == cs;
    } else {
      AddAmongKeepsUnique(n.notes, parent, c);
    }
  }

  lemma {:induction false} AddAmongKeepsUnique(cs: seq<Node>, parent: int, c: Node)
    requires UniqueAmong(cs) && UniqueIds(c) && Ids(c) !! IdsOf(cs)
    requires FindAmong(cs, parent).Some? && FindAmong(cs, parent).value.Notebook?
    ensures IdsOf(AddAmong(cs, parent, c)) == IdsOf(cs) + Ids(c)
    ensures UniqueAmong(AddAmong(cs, parent, c))
  {
    var r := AddAmong(cs, parent, c);
    var init, last := cs[..|cs| - 1], cs[|cs| - 1];
    assert r[..|r| - 1] == AddAmong(init, parent, c);
    FindSound(last, parent);
    if Find(last, parent).Some? {
      FindAmongSound(init, parent);
      AddAmongAbsent(init, parent, c);
      AddKeepsUnique(last, parent, c);
    } else {
      AddAbsent(last, parent, c);
      AddAmongKeepsUnique(init, parent, c);
    }
  }

  /** After the add, the parent is found with its earlier children in their
      order and the new node as the last child. */
  lemma {:induction false} AddFindsParent(n: Node, parent: int, c: Node, nb: Node)
    requires Find(n, parent) == Some(nb)
    ensures Find(AddTree(n, parent, c), parent) == Some(WithChild(nb, c))
  {
    if n.id != parent {
      AddAmongFindsParent(n.notes, parent, c, nb);
    }
  }

  lemma {:induction false} AddAmongFindsParent(cs: seq<Node>, parent: int, c: Node, nb: Node)
    requires FindAmong(cs, parent) == Some(nb)
    ensures FindAmong(AddAmong(cs, parent, c), parent) == Some(WithChild(nb, c))
  {
    var r := AddAmong(cs, parent, c);
    var init, last := cs[..|cs| - 1], cs[|cs| - 1];
    assert r[..|r| - 1] == AddAmong(init, parent, c);
    if Find(last, parent).Some? {
      AddFindsParent(last, parent, c, nb);
    } else {
      FindSound(last, parent);
      AddAbsent(last, parent, c);
      AddAmongFindsParent(init, parent, c, nb);
    }
  }

  /** A lookup of the new node's id after the add finds the new node. */
  lemma {:induction false} AddFindsChild(n: Node, parent: int, c: Node)
    requires IsNotebookAt(n, parent) && c.id !in Ids(n)
    ensures Find(AddTree(n, parent, c), c.id) == Some(c)
  {
    if n.id == parent {
      var cs := n.notes + [c];
      assert cs[|cs| - 1] == c;
      assert n.id in Ids(n);
      assert FindAmong(cs, c.id) == Some(c);
    } else {
      AddAmongFindsChild(n.notes, parent, c);
    }
  }

  lemma {:induction false} AddAmongFindsChild(cs: seq<Node>, parent: int, c: Node)
    requires FindAmong(cs, parent).Some? && FindAmong(cs, parent).value.Notebook?
    requires c.id !in IdsOf(cs)
    ensures FindAmong(AddAmong(cs, parent, c), c.id) == Some(c)
  {
    var r := AddAmong(cs, parent, c);
    var init, last := cs[..|cs| - 1], cs[|cs| - 1];
    assert r[..|r| - 1] == AddAmong(init, parent, c);
    if Find(last, parent).Some? {
      AddFindsChild(last, parent, c);
    } else {
      FindSound(last, parent);
      FindSound(last, c.id);
      AddAbsent(last, parent, c);
      AddAmongFindsChild(init, parent, c);
    }
  }

  /** Every id other than the parent's and the new subtree's sees the same
      own fields after the add. */
  lemma {:induction false} AddFrame(n: Node, parent: int, c: Node, j: int)
    requires j != parent && j !in Ids(c)
    ensures EntryAt(AddTree(n, parent, c), j) == EntryAt(n, j)
  {
    if n.Notebook? {
      if n.id == parent {
        var cs := n.notes + [c];
        assert cs[..|cs| - 1] == n.notes;
        FindSound(c, j);
        assert FindAmong(cs, j) == FindAmong(n.notes, j);
      } else {
        AddAmongKeepsChildIds(n.notes, parent, c);
        if n.id != j {
          AddAmongFrame(n.notes, parent, c, j);
        }
      }
    }
  }

  lemma {:induction false} AddAmongFrame(cs: seq<Node>, parent: int, c: Node, j: int)
    requires j != parent && j !in Ids(c)
    ensures FindAmong(AddAmong(cs, parent, c), j).Some? == FindAmong(cs, j).Some?
    ensures FindAmong(cs, j).Some? ==>
      EntryOf(FindAmong(AddAmong(cs, parent, c), j).value) == EntryOf(FindAmong(cs, j).value)
  {
    if cs != [] {
      var r := AddAmong(cs, parent, c);
      assert r[..|r| - 1] == AddAmong(cs[..|cs| - 1], parent, c);
      AddFrame(cs[|cs| - 1], parent, c, j);
      AddAmongFrame(cs[..|cs| - 1], parent, c, j);
    }
  }
}
