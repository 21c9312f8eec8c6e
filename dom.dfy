/**
 * The part of the editor's document the widget looks at: element nodes with
 * an identity (the key of their inline style in the style map), a tag, the
 * classes the widget tests for, whether jQuery considers them rendered
 * (`:not(:hidden)`), whether their inner HTML is exactly CKEditor's filler
 * `<br>`, and their child elements in document order.
 */
module Dom {
  import opened JsStrings

  /** Tags the widget distinguishes: `p`, `h1`..`h6`, `ul` (a to-do list being
      a `ul` of class `todo-list`), `ol`, `li`, `span`, and everything else. */
  datatype Tag = P | Heading(level: nat) | UnorderedList(todo: bool) | OrderedList | Item | SpanTag | Other
  {
    /** `:is(ul, ol)` */
    predicate IsList() {
      UnorderedList? || this == OrderedList
    }
  }

  datatype Node = Node(
    id: nat,
    tag: Tag,
    image: bool,       // has class `image`
    unhandled: bool,   // matches the unhandled-element selectors (horizontal line, include note, mermaid, code block, table)
    shown: bool,       // not jQuery `:hidden`
    fillerOnly: bool,  // inner HTML is `<br data-cke-filler="true">`
    children: seq<Node>)

  /** Every proper descendant element, in document order (what `find` walks). */
  function Descendants(e: Node): seq<Node>
    decreases e, 1
  {
    DescendantsOf(e, 0)
  }

  /** The children of `e` from index `i` on, each followed by its descendants. */
  function DescendantsOf(e: Node, i: nat): seq<Node>
    decreases e, 0, |e.children| - i
  {
    if i >= |e.children| then []
    else [e.children[i]] + Descendants(e.children[i]) + DescendantsOf(e, i + 1)
  }

  lemma {:induction false} DescendantsOfMembers(e: Node, i: nat, x: Node)
    ensures x in DescendantsOf(e, i) <==>
            exists k :: i <= k < |e.children| && (x == e.children[k] || x in Descendants(e.children[k]))
    decreases |e.children| - i
  {
    if i < |e.children| {
      DescendantsOfMembers(e, i + 1, x);
      if x in DescendantsOf(e, i) && x != e.children[i] && x !in Descendants(e.children[i]) {
        assert x in DescendantsOf(e, i + 1);
      }
    }
  }

  /** A node is a proper descendant exactly when it is a child or lies below one. */
  lemma DescendantsMembers(e: Node, x: Node)
    ensures x in Descendants(e) <==>
            exists k :: 0 <= k < |e.children| && (x == e.children[k] || x in Descendants(e.children[k]))
  {
    DescendantsOfMembers(e, 0, x);
  }

  lemma ChildIsDescendant(e: Node, k: nat)
    requires k < |e.children|
    ensures e.children[k] in Descendants(e)
  {
    DescendantsMembers(e, e.children[k]);
  }

  lemma DescendantOfChild(e: Node, k: nat, x: Node)
    requires k < |e.children| && x in Descendants(e.children[k])
    ensures x in Descendants(e)
  {
    DescendantsMembers(e, x);
  }

  /** The node itself followed by its descendants. */
  function Family(e: Node): seq<Node> {
    [e] + Descendants(e)
  }

  /** Ids of a node and all its descendants. */
  function IdsOf(e: Node): set<nat> {
    set x | x in Family(e) :: x.id
  }

  /** The node at `path` (a sequence of child indices) below `e`. */
  function At(e: Node, path: seq<nat>): Option<Node>
    decreases |path|
  {
    if path == [] then Some(e)
    else if path[0] < |e.children| then At(e.children[path[0]], path[1..])
    else None
  }

  /** The child elements of the node at `path`, or none if there is no such node. */
  function ChildrenAt(e: Node, path: seq<nat>): seq<Node> {
    match At(e, path)
    case None => []
    case Some(n) => n.children
  }

  /** Inserts `x` as the `i`-th child of the node at `path` (jQuery `insertBefore`
      of the current `i`-th child). Nothing changes when there is no such position. */
  function InsertChild(e: Node, path: seq<nat>, i: nat, x: Node): Node
    decreases |path|
  {
    if path == [] then
      (if i <= |e.children| then e.(children := e.children[..i] + [x] + e.children[i..]) else e)
    else if path[0] < |e.children| then
      e.(children := e.children[path[0] := InsertChild(e.children[path[0]], path[1..], i, x)])
    else e
  }

  /** Removes the `i`-th child of the node at `path` (jQuery `remove`). */
  function RemoveChild(e: Node, path: seq<nat>, i: nat): Node
    decreases |path|
  {
    if path == [] then
      (if i < |e.children| then e.(children := e.children[..i] + e.children[i + 1..]) else e)
    else if path[0] < |e.children| then
      e.(children := e.children[path[0] := RemoveChild(e.children[path[0]], path[1..], i)])
    else e
  }

  lemma {:induction false} InsertChildAt(e: Node, path: seq<nat>, i: nat, x: Node)
    requires At(e, path).Some? && i <= |ChildrenAt(e, path)|
    ensures var cs := ChildrenAt(e, path);
            ChildrenAt(InsertChild(e, path, i, x), path) == cs[..i] + [x] + cs[i..]
    decreases |path|
  {
    if path != [] {
      InsertChildAt(e.children[path[0]], path[1..], i, x);
    }
  }

  lemma {:induction false} RemoveChildAt(e: Node, path: seq<nat>, i: nat)
    requires At(e, path).Some? && i < |ChildrenAt(e, path)|
    ensures var cs := ChildrenAt(e, path);
            ChildrenAt(RemoveChild(e, path, i), path) == cs[..i] + cs[i + 1..]
    decreases |path|
  {
    if path != [] {
      RemoveChildAt(e.children[path[0]], path[1..], i);
    }
  }

  // ---- families and identities ----

  /** Below a node of `e`'s family lies only `e`'s family. */
  lemma {:induction false} FamilyTransitive(e: Node, c: Node, x: Node)
    requires c in Family(e) && x in Family(c)
    ensures x in Family(e)
    decreases e
  {
    if c != e {
      assert c in Descendants(e);
      DescendantsMembers(e, c);
      var k :| 0 <= k < |e.children| && (c == e.children[k] || c in Descendants(e.children[k]));
      assert c in Family(e.children[k]);
      FamilyTransitive(e.children[k], c, x);
      DescendantsMembers(e, x);
    }
  }

  lemma {:induction false} AtInFamily(e: Node, path: seq<nat>)
    requires At(e, path).Some?
    ensures At(e, path).value in Family(e)
    decreases |path|
  {
    if path != [] {
      var c := e.children[path[0]];
      AtInFamily(c, path[1..]);
      ChildIsDescendant(e, path[0]);
      FamilyTransitive(e, c, At(e, path).value);
    }
  }

  /** Whatever lies below a child of the node at `path` lies in the document. */
  lemma ChildrenAtInFamily(e: Node, path: seq<nat>, k: nat, x: Node)
    requires k < |ChildrenAt(e, path)| && x in Family(ChildrenAt(e, path)[k])
    ensures x in Family(e)
  {
    var n := At(e, path).value;
    AtInFamily(e, path);
    ChildIsDescendant(n, k);
    FamilyTransitive(n, n.children[k], x);
    FamilyTransitive(e, n, x);
  }

  /** The ids in a node's family: its own and those below each child. */
  lemma IdsOfUnfold(e: Node, id: nat)
    ensures id in IdsOf(e) <==> id == e.id || exists k :: 0 <= k < |e.children| && id in IdsOf(e.children[k])
  {
    if id in IdsOf(e) && id != e.id {
      var x :| x in Family(e) && x.id == id;
      DescendantsMembers(e, x);
      var k :| 0 <= k < |e.children| && (x == e.children[k] || x in Descendants(e.children[k]));
      assert x in Family(e.children[k]);
    }
    if exists k :: 0 <= k < |e.children| && id in IdsOf(e.children[k]) {
      var k :| 0 <= k < |e.children| && id in IdsOf(e.children[k]);
      var x :| x in Family(e.children[k]) && x.id == id;
      ChildIsDescendant(e, k);
      FamilyTransitive(e, e.children[k], x);
    }
  }

  lemma LeafIds(x: Node)
    requires x.children == []
    ensures IdsOf(x) == {x.id}
  {
    assert Descendants(x) == [];
    assert Family(x) == [x];
  }

  /** Inserting a node brings in no id but the inserted family's. */
  lemma {:induction false} IdsInsertChild(e: Node, path: seq<nat>, i: nat, x: Node)
    ensures IdsOf(InsertChild(e, path, i, x)) <= IdsOf(e) + IdsOf(x)
    decreases |path|
  {
    if path == [] {
      if i <= |e.children| {
        IdsInsertHere(e, i, x);
      }
    } else if path[0] < |e.children| {
      IdsInsertChild(e.children[path[0]], path[1..], i, x);
      IdsReplaceChild(e, path[0], InsertChild(e.children[path[0]], path[1..], i, x), IdsOf(x));
    }
  }

  lemma IdsInsertHere(e: Node, i: nat, x: Node)
    requires i <= |e.children|
    ensures IdsOf(e.(children := e.children[..i] + [x] + e.children[i..])) <= IdsOf(e) + IdsOf(x)
  {
    var e' := e.(children := e.children[..i] + [x] + e.children[i..]);
    forall id | id in IdsOf(e')
      ensures id in IdsOf(e) + IdsOf(x)
    {
      IdsOfUnfold(e', id);
      IdsOfUnfold(e, id);
      if id != e'.id {
        var k :| 0 <= k < |e'.children| && id in IdsOf(e'.children[k]);
        if k < i {
          assert e'.children[k] == e.children[k];
        } else if k > i {
          assert e'.children[k] == e.children[k - 1];
        }
      }
    }
  }

  /** Replacing one child by a node whose ids are the old child's, plus
      `extra`, adds at most `extra` to the ids of the whole. */
  lemma IdsReplaceChild(e: Node, k: nat, c: Node, extra: set<nat>)
    requires k < |e.children| && IdsOf(c) <= IdsOf(e.children[k]) + extra
    ensures IdsOf(e.(children := e.children[k := c])) <= IdsOf(e) + extra
  {
    var e' := e.(children := e.children[k := c]);
    forall id | id in IdsOf(e')
      ensures id in IdsOf(e) + extra
    {
      IdsOfUnfold(e', id);
      IdsOfUnfold(e, id);
      if id != e'.id {
        var j :| 0 <= j < |e'.children| && id in IdsOf(e'.children[j]);
        if j != k {
          assert e'.children[j] == e.children[j];
        }
      }
    }
  }

  lemma {:induction false} IdsRemoveChild(e: Node, path: seq<nat>, i: nat)
    ensures IdsOf(RemoveChild(e, path, i)) <= IdsOf(e)
    decreases |path|
  {
    if path == [] {
      if i < |e.children| {
        IdsRemoveHere(e, i);
      }
    } else if path[0] < |e.children| {
      IdsRemoveChild(e.children[path[0]], path[1..], i);
      IdsReplaceChild(e, path[0], RemoveChild(e.children[path[0]], path[1..], i), {});
    }
  }

  lemma IdsRemoveHere(e: Node, i: nat)
    requires i < |e.children|
    ensures IdsOf(e.(children := e.children[..i] + e.children[i + 1..])) <= IdsOf(e)
  {
    var e' := e.(children := e.children[..i] + e.children[i + 1..]);
    forall id | id in IdsOf(e')
      ensures id in IdsOf(e)
    {
      IdsOfUnfold(e', id);
      IdsOfUnfold(e, id);
      if id != e'.id {
        var k :| 0 <= k < |e'.children| && id in IdsOf(e'.children[k]);
        if k < i {
          assert e'.children[k] == e.children[k];
        } else {
          assert e'.children[k] == e.children[k + 1];
        }
      }
    }
  }

  lemma {:induction false} InsertChildKeepsPath(e: Node, path: seq<nat>, i: nat, x: Node)
    ensures At(e, path).Some? ==> At(InsertChild(e, path, i, x), path).Some?
    decreases |path|
  {
    if path != [] && path[0] < |e.children| {
      InsertChildKeepsPath(e.children[path[0]], path[1..], i, x);
    }
  }
}
