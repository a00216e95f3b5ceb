/** The listing view of `get_notes_no_content`: the document with the
    `content` of every note removed, at every depth. */
module Listing {
  import opened Wrappers
  import opened Notes
  import opened Edit

  /** A node as the listing shows it; a listed note has no content field. */
  datatype Listed =
    | ListedNote(id: int, title: string)
    | ListedNotebook(id: int, title: string, notes: seq<Listed>)

  /** `delete_content`: drops the content of notes and recurses into the
      children of everything else. */
  function Strip(n: Node): (r: Listed)
    ensures r.id == n.id && r.title == n.title && (r.ListedNote? <==> n.Note?)
    ensures r.ListedNotebook? ==> |r.notes| == |n.notes|
  {
    match n
    case Note(id, t, _) => ListedNote(id, t)
    case Notebook(id, t, cs) => ListedNotebook(id, t, StripAmong(cs))
  }

  function StripAmong(cs: seq<Node>): (r: seq<Listed>)
    ensures |r| == |cs|
  {
    if cs == [] then [] else StripAmong(cs[..|cs| - 1]) + [Strip(cs[|cs| - 1])]
  }

  /** Two trees that agree everywhere except in note contents: same kinds,
      ids and titles, and notebooks with equally many children that agree
      position by position. */
  predicate SameShape(a: Node, b: Node) {
    match a
    case Note(i, t, _) => b.Note? && b.id == i && b.title == t
    case Notebook(i, t, xs) =>
      b.Notebook? && b.id == i && b.title == t && SameShapeAmong(xs, b.notes)
  }

  predicate SameShapeAmong(xs: seq<Node>, ys: seq<Node>) {
    |xs| == |ys| &&
    (xs == [] ||
     (SameShapeAmong(xs[..|xs| - 1], ys[..|ys| - 1]) && SameShape(xs[|xs| - 1], ys[|ys| - 1])))
  }

  /** The listing forgets exactly the contents: two documents list the same
      if and only if they differ at most in the contents of their notes. */
  lemma {:induction false} StripExact(a: Node, b: Node)
    ensures Strip(a) == Strip(b) <==> SameShape(a, b)
  {
    if a.Notebook? && b.Notebook? {
      StripAmongExact(a.notes, b.notes);
    }
  }

  lemma {:induction false} StripAmongExact(xs: seq<Node>, ys: seq<Node>)
    ensures StripAmong(xs) == StripAmong(ys) <==> SameShapeAmong(xs, ys)
  {
    if |xs| == |ys| && xs != [] {
      var rx, ry := StripAmong(xs), StripAmong(ys);
      assert rx[..|rx| - 1] == StripAmong(xs[..|xs| - 1]);
      assert ry[..|ry| - 1] == StripAmong(ys[..|ys| - 1]);
      assert rx[|rx| - 1] == Strip(xs[|xs| - 1]);
      assert ry[|ry| - 1] == Strip(ys[|ys| - 1]);
      StripExact(xs[|xs| - 1], ys[|ys| - 1]);
      StripAmongExact(xs[..|xs| - 1], ys[..|ys| - 1]);
    }
  }

  /** An edit that sets no title changes nothing the listing shows. */
  lemma {:induction false} ContentEditUnlisted(n: Node, k: int, p: Patch)
    requires p.title.None?
    ensures SameShape(EditTree(n, k, p), n)
    ensures Strip(EditTree(n, k, p)) == Strip(n)
  {
    if n.Notebook? {
      if n.id == k {
        SameShapeAmongRefl(n.notes);
      } else {
        ContentEditAmongUnlisted(n.notes, k, p);
      }
    }
    StripExact(EditTree(n, k, p), n);
  }

  lemma {:induction false} ContentEditAmongUnlisted(cs: seq<Node>, k: int, p: Patch)
    requires p.title.None?
    ensures SameShapeAmong(EditAmong(cs, k, p), cs)
  {
    if cs != [] {
      var r := EditAmong(cs, k, p);
      assert r[..|r| - 1] == EditAmong(cs[..|cs| - 1], k, p);
      ContentEditUnlisted(cs[|cs| - 1], k, p);
      ContentEditAmongUnlisted(cs[..|cs| - 1], k, p);
    }
  }

  lemma {:induction false} SameShapeRefl(n: Node)
    ensures SameShape(n, n)
  {
    if n.Notebook? {
      SameShapeAmongRefl(n.notes);
    }
  }

  lemma {:induction false} SameShapeAmongRefl(cs: seq<Node>)
    ensures SameShapeAmong(cs, cs)
  {
    if cs != [] {
      SameShapeRefl(cs[|cs| - 1]);
      SameShapeAmongRefl(cs[..|cs| - 1]);
    }
  }
}
