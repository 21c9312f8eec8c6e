/**
 * The widget acting on one editor's document in place: the element tree,
 * the inline styles and `contenteditable` attributes are fields the handlers
 * rewrite, and each handler is proved to leave the document exactly as the
 * corresponding function of `Document` and `Handlers` describes.
 */
module Editing {
  import opened JsStrings
  import opened Dom
  import opened Markers
  import opened Indent
  import opened Selectors
  import opened Walker
  import opened Toggle
  import opened Document
  import opened Handlers

  class Editor {
    var root: Node
    var styles: Styles
    var editable: map<nat, bool>
    var nextId: nat
    const tables: Tables
    const levels: nat
    const considerListsIndented: bool

    /** The document as the functions of the model see it. */
    function Current(): Doc
      reads this
    {
      Doc(root, styles, editable, nextId)
    }

    ghost predicate Valid()
      reads this
    {
      Fresh(Current()) && Built(tables, levels)
    }

    /** The selector tables are built once, for `levels0` indentation levels. */
    constructor (root0: Node, styles0: Styles, nextId0: nat, levels0: nat, considerListsIndented0: bool)
      requires Fresh(Doc(root0, styles0, map[], nextId0))
      ensures Valid()
      ensures Current() == Doc(root0, styles0, map[], nextId0)
      ensures levels == levels0 && considerListsIndented == considerListsIndented0
    {
      var t := BuildTables(levels0);
      root := root0;
      styles := styles0;
      editable := map[];
      nextId := nextId0;
      tables := t;
      levels := levels0;
      considerListsIndented := considerListsIndented0;
    }

    /** The marking loop: `addMarker` on each element in turn, each reading
        its own current style. */
    method MarkTargets(xs: seq<Node>, m: Marker)
      modifies this
      ensures styles == MarkAll(old(styles), xs, m)
      ensures root == old(root) && editable == old(editable) && nextId == old(nextId)
    {
      ghost var s0 := styles;
      for n := 0 to |xs|
        invariant styles == MarkAll(s0, xs[..n], m)
        invariant root == old(root) && editable == old(editable) && nextId == old(nextId)
      {
        MarkAllStep(s0, xs, m, n);
        styles := styles[xs[n].id := AddMarker(StyleOpt(styles, xs[n]), m, TypeOf(xs[n]))];
      }
      assert xs[..|xs|] == xs;
    }

    /** The unmarking loop: `removeMarker` on each element in turn. */
    method UnmarkTargets(xs: seq<Node>, m: Marker)
      modifies this
      ensures styles == UnmarkAll(old(styles), xs, m)
      ensures root == old(root) && editable == old(editable) && nextId == old(nextId)
    {
      ghost var s0 := styles;
      for n := 0 to |xs|
        invariant styles == UnmarkAll(s0, xs[..n], m)
        invariant root == old(root) && editable == old(editable) && nextId == old(nextId)
      {
        UnmarkAllStep(s0, xs, m, n);
        styles := styles[xs[n].id := RemoveMarker(StyleOpt(styles, xs[n]), m, TypeOf(xs[n]))];
      }
      assert xs[..|xs|] == xs;
    }

    /** `toggleSectionVisibility` from child `start` of the element at
        `parent`: collect the targets, then mark or unmark them one element at
        a time, inserting or removing the placeholder. */
    method ToggleSectionVisibility(parent: seq<nat>, start: nat, v: int, collapse: bool)
      requires Valid()
      modifies this
      ensures Valid()
      ensures Current() == Toggled(old(Current()), tables, considerListsIndented, parent, start, v, collapse)
    {
      ghost var d0 := Current();
      var sibs := ChildrenAt(root, parent);
      var targets := CollectTargets(Ctx(tables, considerListsIndented, styles, sibs, v, collapse), start);
      if targets == [] {
        return;
      }
      var xs := Flatten(targets);
      assert Fresh(Toggled(d0, tables, considerListsIndented, parent, start, v, collapse));
      if collapse {
        styles := styles[nextId := PlaceholderStyle(v)];
        root := InsertChild(root, parent, start, Placeholder(nextId));
        nextId := nextId + 1;
        MarkTargets(xs, Hidden);
      } else {
        UnmarkTargets(xs, Hidden);
        if start < |sibs| && HasMarker(styles, sibs[start], Error) {
          root := RemoveChild(root, parent, start);
        }
      }
    }

    /** A click near the left edge of a collapsible header: flip its
        `collapsed` marker, then collapse or expand the section after it. */
    method HeadingClicked(path: seq<nat>, nearEdge: bool)
      requires Valid()
      modifies this
      ensures Valid()
      ensures Current() == HeadingClick(old(Current()), tables, considerListsIndented, path, nearEdge)
    {
      var hit := ClickedHeader(Current(), path, nearEdge);
      if hit.Some? {
        var x := hit.value;
        var newStyle := HeaderStyle(Current(), x);
        ClickedHeaderInDocument(Current(), path, nearEdge);
        FlipCollapsed(x);
        ToggleSectionVisibility(path[..|path| - 1], path[|path| - 1] + 1, GetIndentValue(newStyle),
                                Includes(newStyle, Sentinel(Collapsed)));
      }
    }

    /** The header's `toggleMarker('collapsed')`. */
    method FlipCollapsed(x: Node)
      requires Valid() && x.id in IdsOf(root)
      modifies this
      ensures Valid()
      ensures Current() == Flipped(old(Current()), x)
    {
      styles := styles[x.id := ToggleMarker(StyleOpt(styles, x), Collapsed, DefaultStyle(Text))];
    }

    /** One iteration of the repair loop: expand the section `x` starts. */
    method RepairOne(x: Node)
      requires Valid()
      modifies this
      ensures Valid()
      ensures Current() == Handlers.RepairOne(old(Current()), tables, considerListsIndented, x)
    {
      var s := RepairSection(Current(), x);
      if s.Some? {
        ToggleSectionVisibility(s.value.parent, s.value.start, s.value.v, false);
      }
    }

    /** A click on a leftover hidden element: expand, in document order, the
        section of every hidden element that is still rendered. */
    method RepairClicked(path: seq<nat>)
      requires Valid()
      modifies this
      ensures Valid()
      ensures Current() == RepairClick(old(Current()), tables, considerListsIndented, path)
    {
      if !RepairHit(root, styles, path) {
        return;
      }
      ghost var d0 := Current();
      var xs := ErrorElements(Current());
      for n := 0 to |xs|
        invariant Valid()
        invariant Current() == RepairAll(d0, tables, considerListsIndented, xs[..n])
      {
        RepairAllStep(d0, tables, considerListsIndented, xs, n);
        RepairOne(xs[n]);
      }
      assert xs[..|xs|] == xs;
    }

    /** The toolbar button: flip `collapsible` on the `h2`..`h6` holding the
        cursor and make it editable exactly when it is no longer collapsible. */
    method ToggleCollapsibility(cursor: seq<nat>)
      requires Valid()
      modifies this
      ensures Valid()
      ensures Current() == Handlers.ToggleCollapsibility(old(Current()), cursor)
    {
      var target := CursorBlock(root, cursor);
      if target.Some? && target.value.tag.Heading? && 2 <= target.value.tag.level <= 6 {
        var x := target.value;
        ghost var d0 := Current();
        AtInFamily(root, cursor[..1]);
        assert x.id in IdsOf(root);
        var newStyle := ToggleMarker(StyleOpt(styles, x), Collapsible, DefaultStyle(Text));
        styles := styles[x.id := newStyle];
        editable := editable[x.id := !Includes(newStyle, Sentinel(Collapsible))];
        assert Current() == Handlers.ToggleCollapsibility(d0, cursor);
        assert Fresh(Current());
      }
    }

    /** The span loop: `toggleMarker` on each element in turn. */
    method ToggleEach(xs: seq<Node>, m: Marker, dflt: string)
      modifies this
      ensures styles == ToggleAll(old(styles), xs, m, dflt)
      ensures root == old(root) && editable == old(editable) && nextId == old(nextId)
    {
      ghost var s0 := styles;
      for n := 0 to |xs|
        invariant styles == ToggleAll(s0, xs[..n], m, dflt)
        invariant root == old(root) && editable == old(editable) && nextId == old(nextId)
      {
        ToggleAllStep(s0, xs, m, dflt, n);
        styles := styles[xs[n].id := ToggleMarker(StyleOpt(styles, xs[n]), m, dflt)];
      }
      assert xs[..|xs|] == xs;
    }

    /** A click on a bullet in a nested list: toggle or clear `list-collapsed`
        one element at a time. */
    method BulletClicked(path: seq<nat>, hotspot: bool)
      requires Valid()
      modifies this
      ensures Valid()
      ensures Current() == BulletClick(old(Current()), path, hotspot)
    {
      if !(hotspot && BulletFires(Current(), path)) {
        return;
      }
      ghost var d0 := Current();
      var e := At(root, path).value;
      var marked := Marked(styles, Descendants(e), ListCollapsed);
      var spans := Spans(Descendants(e));
      if e.fillerOnly {
        return;
      }
      AtInFamily(root, path);
      assert e.id in IdsOf(root);
      assert forall x :: x in Descendants(e) ==> x.id in IdsOf(root) by {
        forall x | x in Descendants(e)
          ensures x.id in IdsOf(root)
        {
          FamilyTransitive(root, e, x);
        }
      }
      if marked == [] && spans == [] {
        styles := styles[e.id := ToggleMarker(StyleOpt(styles, e), ListCollapsed, DefaultStyle(SpanType))];
        assert e.id in IdsOf(root);
      } else if marked == [] {
        ToggleEach(spans, ListCollapsed, DefaultStyle(SpanType));
      } else {
        UnmarkTargets(marked, ListCollapsed);
      }
      RestyledFresh(d0, styles);
      assert Current() == BulletClick(d0, path, hotspot);
    }
  }
}
