/** The note tree of one user: the document shape stored in the `notes`
    column, the seed document, and the lookup specification that the
    stack-based traversal is proved against. */
module Notes {
  import opened Wrappers

  /** The two node types; the `note_type` string of the source. */
  datatype Kind = NoteKind | NotebookKind

  /** A node of the document: a note holds content, a notebook an ordered
      list of child nodes (its `notes` field). */
  datatype Node =
    | Note(id: int, title: string, content: string)
    | Notebook(id: int, title: string, notes: seq<Node>)
  {
    function KindOf(): Kind {
      if Note? then NoteKind else NotebookKind
    }
  }

  /** The document every new user row starts with. */
  function DefaultNotes(): (d: Node)
    ensures d.Notebook? && d.id == 0 && d.title == "Notes"
    ensures d.notes == [Note(1, "My First Note", "Hello, World!")]
  {
    Notebook(0, "Notes", [Note(1, "My First Note", "Hello, World!")])
  }

  /** Number of nodes in a tree; the traversal's termination measure. */
  function Size(n: Node): nat {
    match n
    case Note(_, _, _) => 1
    case Notebook(_, _, cs) => 1 + SizeOf(cs)
  }

  function SizeOf(cs: seq<Node>): nat {
    if cs == [] then 0 else SizeOf(cs[..|cs| - 1]) + Size(cs[|cs| - 1])
  }

  /** Every id that occurs in the tree, at any depth. */
  function Ids(n: Node): set<int> {
    match n
    case Note(id, _, _) => {id}
    case Notebook(id, _, cs) => {id} + IdsOf(cs)
  }

  function IdsOf(cs: seq<Node>): set<int> {
    if cs == [] then {} else IdsOf(cs[..|cs| - 1]) + Ids(cs[|cs| - 1])
  }

  /** No id occurs twice in the tree. */
  predicate UniqueIds(n: Node) {
    match n
    case Note(_, _, _) => true
    case Notebook(id, _, cs) => id !in IdsOf(cs) && UniqueAmong(cs)
  }

  /** The trees of a child list are each id-unique and pairwise disjoint. */
  predicate UniqueAmong(cs: seq<Node>) {
    cs == [] ||
    (var init, last := cs[..|cs| - 1], cs[|cs| - 1];
     UniqueAmong(init) && UniqueIds(last) && IdsOf(init) !! Ids(last))
  }

  /** Ids of the direct children, in order. */
  function ChildIds(cs: seq<Node>): (ids: seq<int>)
    ensures |ids| == |cs|
    ensures forall i :: 0 <= i < |cs| ==> ids[i] == cs[i].id
  {
    seq(|cs|, i requires 0 <= i < |cs| => cs[i].id)
  }

  /** Lookup by id, in the order the source's stack visits nodes: the node
      itself, then the subtrees of its children, LAST child first (the
      children are pushed in order and popped from the end). */
  function Find(n: Node, id: int): Option<Node> {
    if n.id == id then Some(n)
    else if n.Notebook? then FindAmong(n.notes, id)
    else None
  }

  /** Lookup in a list of trees searched from the end, as a stack whose top
      is the last element. */
  function FindAmong(cs: seq<Node>, id: int): Option<Node> {
    if cs == [] then None
    else match Find(cs[|cs| - 1], id)
      case Some(m) => Some(m)
      case None => FindAmong(cs[..|cs| - 1], id)
  }

  /** The fields a node owns itself, without its subtrees: title and content
      of a note; title and the ordered child ids of a notebook. */
  datatype Entry =
    | NoteEntry(title: string, content: string)
    | NotebookEntry(title: string, children: seq<int>)

  function EntryOf(n: Node): Entry {
    match n
    case Note(_, t, c) => NoteEntry(t, c)
    case Notebook(_, t, cs) => NotebookEntry(t, ChildIds(cs))
  }

  /** What a lookup of `id` sees of the found node's own fields. */
  function EntryAt(d: Node, id: int): Option<Entry> {
    match Find(d, id)
    case Some(m) => Some(EntryOf(m))
    case None => None
  }

  /** Lookup is sound and complete: it finds a node exactly when the id
      occurs in the tree, and what it finds carries that id. */
  lemma {:induction false} FindSound(n: Node, id: int)
    ensures Find(n, id).Some? <==> id in Ids(n)
    ensures Find(n, id).Some? ==> Find(n, id).value.id == id
  {
    if n.id != id && n.Notebook? {
      FindAmongSound(n.notes, id);
    }
  }

  lemma {:induction false} FindAmongSound(cs: seq<Node>, id: int)
    ensures FindAmong(cs, id).Some? <==> id in IdsOf(cs)
    ensures FindAmong(cs, id).Some? ==> FindAmong(cs, id).value.id == id
  {
    if cs != [] {
      FindSound(cs[|cs| - 1], id);
      FindAmongSound(cs[..|cs| - 1], id);
    }
  }

  /** Searching a stack `a + b` searches `b` (the top) first, then `a`. */
  lemma {:induction false} FindAmongAppend(a: seq<Node>, b: seq<Node>, id: int)
    ensures FindAmong(a + b, id) ==
      if FindAmong(b, id).Some? then FindAmong(b, id) else FindAmong(a, id)
  {
    if b != [] {
      var ab := a + b;
      assert ab[..|ab| - 1] == a + b[..|b| - 1];
      assert ab[|ab| - 1] == b[|b| - 1];
      FindAmongAppend(a, b[..|b| - 1], id);
    } else {
      assert a + b == a;
    }
  }

  lemma {:induction false} SizeOfAppend(a: seq<Node>, b: seq<Node>)
    ensures SizeOf(a + b) == SizeOf(a) + SizeOf(b)
  {
    if b != [] {
      var ab := a + b;
      assert ab[..|ab| - 1] == a + b[..|b| - 1];
      assert ab[|ab| - 1] == b[|b| - 1];
      SizeOfAppend(a, b[..|b| - 1]);
    } else {
      assert a + b == a;
    }
  }

  /** Uniqueness means counting: a tree has unique ids exactly when it has
      as many distinct ids as nodes. */
  lemma {:induction false} UniqueIdsCount(n: Node)
    ensures |Ids(n)| <= Size(n)
    ensures UniqueIds(n) <==> |Ids(n)| == Size(n)
  {
    if n.Notebook? {
      UniqueAmongCount(n.notes);
      var s := IdsOf(n.notes);
      assert |{n.id} + s| == |s| + 1 <==> n.id !in s;
    }
  }

  lemma {:induction false} UniqueAmongCount(cs: seq<Node>)
    ensures |IdsOf(cs)| <= SizeOf(cs)
    ensures UniqueAmong(cs) <==> |IdsOf(cs)| == SizeOf(cs)
  {
    if cs != [] {
      var init, last := cs[..|cs| - 1], cs[|cs| - 1];
      UniqueIdsCount(last);
      UniqueAmongCount(init);
      var a, b := IdsOf(init), Ids(last);
      assert |a + b| + |a * b| == |a| + |b|;
      assert a !! b <==> |a * b| == 0;
    }
  }

  /** The seed document is a root notebook 0 holding the single note 1, and
      its ids are unique and below the initial counter value 2. */
  lemma SeedDocument()
    ensures DefaultNotes().Notebook? && DefaultNotes().id == 0
    ensures DefaultNotes().title == "Notes"
    ensures DefaultNotes().notes == [Note(1, "My First Note", "Hello, World!")]
    ensures Ids(DefaultNotes()) == {0, 1} && UniqueIds(DefaultNotes())
    ensures Find(DefaultNotes(), 1) == Some(Note(1, "My First Note", "Hello, World!"))
  {
  }
}
