/**
 * The document-level effect of the widget's operations: collapsing or
 * expanding a section (trilium-collapsible.js:459-647), with the
 * `[Hidden Section]` placeholder it inserts and removes.
 *
 * Every element is known by its id; the element-by-element marking of
 * `Toggle.MarkAll` and `Toggle.UnmarkAll` is used throughout.
 */
module Document {
  import opened JsStrings
  import opened Dom
  import opened Markers
  import opened Indent
  import opened Selectors
  import opened Walker
  import opened Toggle

  /** The editor's content: the element tree under the editor container, the
      inline styles, the `contenteditable` attribute set by the widget, and
      the id the next created element gets. */
  datatype Doc = Doc(root: Node, styles: Styles, editable: map<nat, bool>, nextId: nat)

  /** Every id in use lies below `nextId`, so a new element's id is new. */
  ghost predicate Fresh(d: Doc) {
    (forall id :: id in d.styles ==> id < d.nextId) &&
    (forall id :: id in IdsOf(d.root) ==> id < d.nextId)
  }

  // ---- the placeholder ----

  /** The style of the placeholder put in front of a collapsed section at
      indentation `v`: one level deeper, hidden, and marked as an error element. */
  function PlaceholderStyle(v: int): string {
    MarginText(v + 40) + Sentinel(Hidden) + Sentinel(Error) + ";"
  }

  /** The placeholder's style reads back as indentation `v + 40`. */
  lemma PlaceholderIndent(v: int)
    ensures GetIndentValue(PlaceholderStyle(v)) == v + 40
  {
    var rest := Sentinel(Hidden) + Sentinel(Error) + ";";
    MarginKeyAlone();
    GetIndentValueOfMarginText("", v + 40, rest);
    PlaceholderSplit(v, rest);
  }

  lemma MarginKeyAlone()
    ensures IndexOf("" + MarginKey, MarginKey) == Some(0)
  {
    assert StartsWith("" + MarginKey, MarginKey);
  }

  lemma PlaceholderSplit(v: int, rest: string)
    requires rest == Sentinel(Hidden) + Sentinel(Error) + ";"
    ensures PlaceholderStyle(v) == "" + MarginText(v + 40) + rest
  {
  }

  /** The placeholder paragraph. It is not rendered while the section it
      stands for is collapsed under its header. */
  function Placeholder(id: nat): Node {
    Node(id, P, false, false, false, false, [])
  }

  lemma MarginTextPlain(px: int)
    ensures forall i :: 0 <= i < |MarginText(px)| ==> Markers.Plain(MarginText(px)[i])
  {
    var d := IntToString(px);
    assert MarginText(px) == MarginKey + d + "px";
    forall i | 0 <= i < |MarginText(px)|
      ensures Markers.Plain(MarginText(px)[i])
    {
      if |MarginKey| <= i < |MarginKey| + |d| {
        assert MarginText(px)[i] == d[i - |MarginKey|];
      }
    }
  }

  /** The placeholder's style is decorated and carries `hidden` and `error`. */
  lemma PlaceholderDecorated(v: int)
    ensures DecoratedWith(PlaceholderStyle(v), {Hidden, Error})
  {
    var text := MarginText(v + 40);
    MarginTextPlain(v + 40);
    PlainRender(text);
    var head := PlainTokens(text);
    var tail := PlaceholderTail();
    var ts := head + tail;
    RenderAppend(head, tail);
    MarkSetAppend(head, tail);
    WellFormedJoin(head, tail);
    PlaceholderStyleSplit(v);
    assert EndsPlain(ts);
  }

  lemma PlaceholderStyleSplit(v: int)
    ensures PlaceholderStyle(v) == MarginText(v + 40) + (Sentinel(Hidden) + Sentinel(Error) + ";")
  {
  }

  /** The tokens after the placeholder's margin: `hidden`, `error` and `;`. */
  function PlaceholderTail(): (tail: seq<Token>)
    ensures Render(tail) == Sentinel(Hidden) + Sentinel(Error) + ";"
    ensures MarkSet(tail) == {Hidden, Error}
    ensures WellFormed(tail) && EndsPlain(tail)
  {
    var tail := [Mark(Hidden), Mark(Error), Ch(';')];
    assert tail[1..] == [Mark(Error), Ch(';')];
    assert tail[1..][1..] == [Ch(';')];
    tail
  }

  lemma WellFormedJoin(a: seq<Token>, b: seq<Token>)
    requires WellFormed(a) && WellFormed(b)
    ensures WellFormed(a + b)
  {
    forall i | 0 <= i < |a + b| && (a + b)[i].Ch?
      ensures Markers.Plain((a + b)[i].c)
    {
      if i < |a| {
        assert (a + b)[i] == a[i];
      } else {
        assert (a + b)[i] == b[i - |a|];
      }
    }
  }

  // ---- collapsing and expanding a section ----

  /** `toggleSectionVisibility` started at child `start` of the element at
      `parent`, with indentation threshold `v`. An empty section changes
      nothing. Collapsing inserts the placeholder before the start element and
      marks every target `hidden`; expanding removes the marker from every
      target and then removes the start element if it is an error element. */
  function Toggled(d: Doc, tables: Tables, considerListsIndented: bool,
                   parent: seq<nat>, start: nat, v: int, collapse: bool): (r: Doc)
    ensures Fresh(d) ==> Fresh(r)
    ensures r.editable == d.editable
  {
    var sibs := ChildrenAt(d.root, parent);
    var targets := Targets(Ctx(tables, considerListsIndented, d.styles, sibs, v, collapse), start);
    if targets == [] then d
    else
      TargetsInDocument(d, tables, considerListsIndented, parent, start, v, collapse);
      CollapseFresh(d, parent, start, v, Flatten(targets));
      ExpandFresh(d, parent, start, Flatten(targets));
      if collapse then
        d.(root := InsertChild(d.root, parent, start, Placeholder(d.nextId)),
           styles := MarkAll(d.styles[d.nextId := PlaceholderStyle(v)], Flatten(targets), Hidden),
           nextId := d.nextId + 1)
      else
        var styles := UnmarkAll(d.styles, Flatten(targets), Hidden);
        d.(root := if start < |sibs| && HasMarker(styles, sibs[start], Error) then RemoveChild(d.root, parent, start) else d.root,
           styles := styles)
  }

  /** A walk that collects nothing leaves the document as it was: no
      placeholder is inserted and no style changes. */
  lemma NoTargetsNoChange(d: Doc, tables: Tables, cl: bool, parent: seq<nat>, start: nat, v: int, collapse: bool)
    requires Targets(Ctx(tables, cl, d.styles, ChildrenAt(d.root, parent), v, collapse), start) == []
    ensures Toggled(d, tables, cl, parent, start, v, collapse) == d
  {
  }

  /** The targets of a section walk all lie in the document. */
  lemma TargetsInDocument(d: Doc, tables: Tables, cl: bool, parent: seq<nat>, start: nat, v: int, collapse: bool)
    ensures var sibs := ChildrenAt(d.root, parent);
            var targets := Targets(Ctx(tables, cl, d.styles, sibs, v, collapse), start);
            Ids(Flatten(targets)) <= IdsOf(d.root)
  {
    var sibs := ChildrenAt(d.root, parent);
    var ctx := Ctx(tables, cl, d.styles, sibs, v, collapse);
    var targets := Targets(ctx, start);
    WalkWithin(ctx, start, false, 0);
    forall id | id in Ids(Flatten(targets))
      ensures id in IdsOf(d.root)
    {
      var x :| x in Flatten(targets) && x.id == id;
      var t :| t in targets && x in t;
      var j :| start <= j < |sibs| && !AlreadyHidden(ctx, sibs[j]) && x in Family(sibs[j]);
      ChildrenAtInFamily(d.root, parent, j, x);
    }
  }

  /** Restyling elements already in use keeps every id below `nextId`. */
  lemma RestyledFresh(d: Doc, styles: Styles)
    requires Fresh(d)
    requires forall id :: id in styles ==> id in d.styles || id in IdsOf(d.root)
    ensures Fresh(d.(styles := styles))
  {
  }

  /** Collapsing keeps every id in use below `nextId`. */
  lemma CollapseFresh(d: Doc, parent: seq<nat>, start: nat, v: int, xs: seq<Node>)
    requires Ids(xs) <= IdsOf(d.root)
    ensures Fresh(d) ==> Fresh(d.(root := InsertChild(d.root, parent, start, Placeholder(d.nextId)),
                     styles := MarkAll(d.styles[d.nextId := PlaceholderStyle(v)], xs, Hidden),
                     nextId := d.nextId + 1))
  {
    if !Fresh(d) {
      return;
    }
    var root' := InsertChild(d.root, parent, start, Placeholder(d.nextId));
    var s0 := d.styles[d.nextId := PlaceholderStyle(v)];
    var styles' := MarkAll(s0, xs, Hidden);
    IdsInsertChild(d.root, parent, start, Placeholder(d.nextId));
    LeafIds(Placeholder(d.nextId));
    assert IdsOf(root') <= IdsOf(d.root) + {d.nextId};
    assert styles'.Keys == d.styles.Keys + {d.nextId} + Ids(xs);
    forall id | id in styles'.Keys
      ensures id < d.nextId + 1
    {
      if id in Ids(xs) {
        assert id in IdsOf(d.root);
      }
    }
  }

  /** Expanding, with or without removing the start element, keeps every id
      in use below `nextId`. */
  lemma ExpandFresh(d: Doc, parent: seq<nat>, start: nat, xs: seq<Node>)
    requires Ids(xs) <= IdsOf(d.root)
    ensures Fresh(d) ==> Fresh(d.(styles := UnmarkAll(d.styles, xs, Hidden)))
    ensures Fresh(d) ==> Fresh(d.(root := RemoveChild(d.root, parent, start), styles := UnmarkAll(d.styles, xs, Hidden)))
  {
    IdsRemoveChild(d.root, parent, start);
  }

  /** Collapsing a non-empty section: the placeholder stands right before the
      start element, every collected element carries `hidden`, and no other
      style changes. */
  lemma CollapseFacts(d: Doc, tables: Tables, cl: bool, parent: seq<nat>, start: nat, v: int)
    requires Fresh(d) && At(d.root, parent).Some?
    requires Targets(Ctx(tables, cl, d.styles, ChildrenAt(d.root, parent), v, true), start) != []
    ensures var sibs := ChildrenAt(d.root, parent);
            var d' := Toggled(d, tables, cl, parent, start, v, true);
            start < |sibs| &&
            ChildrenAt(d'.root, parent) == sibs[..start] + [Placeholder(d.nextId)] + sibs[start..] &&
            d'.styles[d.nextId] == PlaceholderStyle(v)
    ensures var sibs := ChildrenAt(d.root, parent);
            var targets := Targets(Ctx(tables, cl, d.styles, sibs, v, true), start);
            var d' := Toggled(d, tables, cl, parent, start, v, true);
            (forall x :: x in Flatten(targets) ==> HasMarker(d'.styles, x, Hidden)) &&
            (forall id :: id in d.styles && id !in Ids(Flatten(targets)) ==> d'.styles[id] == d.styles[id])
  {
    var sibs := ChildrenAt(d.root, parent);
    var ctx := Ctx(tables, cl, d.styles, sibs, v, true);
    var targets := Targets(ctx, start);
    var xs := Flatten(targets);
    var s0 := d.styles[d.nextId := PlaceholderStyle(v)];
    InsertChildAt(d.root, parent, start, Placeholder(d.nextId));
    TargetsInDocument(d, tables, cl, parent, start, v, true);
    assert d.nextId !in Ids(xs);
    MarkAllKeeps(s0, xs, Hidden, d.nextId);
    MarkAllMarks(s0, xs, Hidden);
    forall id | id in d.styles && id !in Ids(xs)
      ensures MarkAll(s0, xs, Hidden)[id] == d.styles[id]
    {
      MarkAllKeeps(s0, xs, Hidden, id);
    }
  }

  /** Expanding a non-empty section: each collected element loses `hidden`
      and keeps every other marker its decorated style carries; no other style
      changes; the start element is removed exactly when it is still an
      error element. */
  lemma ExpandFacts(d: Doc, tables: Tables, cl: bool, parent: seq<nat>, start: nat, v: int,
                    x: Node, ms: set<Marker>, q: Marker)
    requires Targets(Ctx(tables, cl, d.styles, ChildrenAt(d.root, parent), v, false), start) != []
    requires x in Flatten(Targets(Ctx(tables, cl, d.styles, ChildrenAt(d.root, parent), v, false), start))
    requires x.id in d.styles ==> DecoratedWith(d.styles[x.id], ms)
    requires q != Hidden
    ensures var d' := Toggled(d, tables, cl, parent, start, v, false);
            !HasMarker(d'.styles, x, Hidden) &&
            (HasMarker(d'.styles, x, q) <==> x.id in d.styles && q in ms)
    ensures var sibs := ChildrenAt(d.root, parent);
            var targets := Targets(Ctx(tables, cl, d.styles, sibs, v, false), start);
            var d' := Toggled(d, tables, cl, parent, start, v, false);
            (forall id :: id in d.styles && id !in Ids(Flatten(targets)) ==> d'.styles[id] == d.styles[id]) &&
            d'.nextId == d.nextId &&
            (d'.root == if HasMarker(d'.styles, sibs[start], Error) then RemoveChild(d.root, parent, start) else d.root)
  {
    var sibs := ChildrenAt(d.root, parent);
    var ctx := Ctx(tables, cl, d.styles, sibs, v, false);
    var targets := Targets(ctx, start);
    var xs := Flatten(targets);
    UnmarkAllClears(d.styles, xs, Hidden, x, ms, q);
    forall id | id in d.styles && id !in Ids(xs)
      ensures UnmarkAll(d.styles, xs, Hidden)[id] == d.styles[id]
    {
      UnmarkAllKeeps(d.styles, xs, Hidden, id);
    }
  }
}
