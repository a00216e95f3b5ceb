/** The non-recursive lookup of the source: a depth-first search over an
    explicit stack of nodes. */
module Traversal {
  import opened Wrappers
  import opened Notes

  /** Pops a node, returns it if its id matches, and otherwise pushes the
      children of a notebook in order. The result is exactly the recursive
      specification `Find`: a node with the searched id whenever one occurs
      in the tree, and `None` only when no node has it. */
  method TraverseNotes(notes: Node, findId: int) returns (r: Option<Node>)
    ensures r == Find(notes, findId)
    ensures r.Some? <==> findId in Ids(notes)
    ensures r.Some? ==> r.value.id == findId
  {
    FindSound(notes, findId);
    var stack := [notes];
    assert stack[..0] == [];
    while stack != []
      invariant FindAmong(stack, findId) == Find(notes, findId)
      decreases SizeOf(stack)
    {
      ghost var before := stack;
      var current := stack[|stack| - 1];
      stack := stack[..|stack| - 1];
      assert SizeOf(before) == SizeOf(stack) + Size(current);
      if current.id == findId {
        return Some(current);
      }
      if current.Notebook? {
        ghost var rest := stack;
        for i := 0 to |current.notes|
          invariant stack == rest + current.notes[..i]
        {
          stack := stack + [current.notes[i]];
          assert current.notes[..i + 1] == current.notes[..i] + [current.notes[i]];
        }
        assert current.notes[..|current.notes|] == current.notes;
        FindAmongAppend(rest, current.notes, findId);
        SizeOfAppend(rest, current.notes);
      }
    }
    return None;
  }
}
