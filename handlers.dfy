/**
 * What the widget does in response to the user: a click on a collapsible
 * header (trilium-collapsible.js:685-705), a click on a leftover hidden
 * element (trilium-collapsible.js:713-734), the toolbar button that makes a
 * header collapsible (trilium-collapsible.js:738-763), and a click on a list
 * bullet (trilium-collapsible.js:414-456).
 *
 * A click is given by the path of the element it lands on (jQuery's
 * `e.target`) and by whether it lands in the area the handler measures
 * against the element's bounding box; the handler runs when the element or
 * one of its ancestors below the editor container matches its selector.
 */
module Handlers {
  import opened JsStrings
  import opened Dom
  import opened Markers
  import opened Indent
  import opened Selectors
  import opened Walker
  import opened Toggle
  import opened Document

  // ---- clicking a collapsible header ----

  /** `ul *`: some ancestor of the element at `path` is a `ul`. */
  predicate InsideUl(root: Node, path: seq<nat>) {
    exists j :: 0 <= j < |path| && At(root, path[..j]).Some? && At(root, path[..j]).value.tag.UnorderedList?
  }

  /** The element at `path` or one of its ancestors below the container
      carries `collapsible` and lies in no `ul`. */
  predicate CollapsibleHit(root: Node, styles: Styles, path: seq<nat>) {
    exists k :: 1 <= k <= |path| && At(root, path[..k]).Some? &&
      HasMarker(styles, At(root, path[..k]).value, Collapsible) && !InsideUl(root, path[..k])
  }

  /** The new style of a clicked header: `collapsed` toggled. */
  function HeaderStyle(d: Doc, x: Node): string {
    ToggleMarker(StyleOpt(d.styles, x), Collapsed, DefaultStyle(Text))
  }

  /** A click near the left edge of a collapsible header toggles its
      `collapsed` marker, then collapses (marker now present) or expands the
      section that starts at the header's next sibling, with the header's own
      indentation as threshold. */
  function HeadingClick(d: Doc, tables: Tables, cl: bool, path: seq<nat>, nearEdge: bool): (r: Doc)
    ensures Fresh(d) ==> Fresh(r)
    ensures r.editable == d.editable
  {
    match ClickedHeader(d, path, nearEdge)
    case None => d
    case Some(x) =>
      var newStyle := HeaderStyle(d, x);
      ClickedHeaderInDocument(d, path, nearEdge);
      Toggled(Flipped(d, x), tables, cl,
              path[..|path| - 1], path[|path| - 1] + 1, GetIndentValue(newStyle),
              Includes(newStyle, Sentinel(Collapsed)))
  }

  /** The header a click at `path` toggles, if any. */
  function ClickedHeader(d: Doc, path: seq<nat>, nearEdge: bool): (r: Option<Node>)
    ensures r.Some? ==> |path| > 0 && At(d.root, path) == r
  {
    if nearEdge && |path| > 0 && At(d.root, path).Some? && CollapsibleHit(d.root, d.styles, path) then
      At(d.root, path)
    else None
  }

  /** The document with the header's `collapsed` marker flipped. */
  function Flipped(d: Doc, x: Node): (r: Doc)
    ensures Fresh(d) && x.id in IdsOf(d.root) ==> Fresh(r)
  {
    d.(styles := d.styles[x.id := HeaderStyle(d, x)])
  }

  /** The header a click toggles lies in the document. */
  lemma ClickedHeaderInDocument(d: Doc, path: seq<nat>, nearEdge: bool)
    requires ClickedHeader(d, path, nearEdge).Some?
    ensures ClickedHeader(d, path, nearEdge).value.id in IdsOf(d.root)
  {
    AtInFamily(d.root, path);
  }

  /** The click collapses the section exactly when the header was not
      collapsed, and the header's new style is its old one with `collapsed`
      flipped. */
  lemma HeadingClickDirection(d: Doc, x: Node, ts: seq<Token>)
    requires x.id in d.styles && d.styles[x.id] == Render(ts) && WellFormed(ts) && EndsPlain(ts)
    ensures Includes(HeaderStyle(d, x), Sentinel(Collapsed)) <==> Collapsed !in MarkSet(ts)
    ensures HeaderStyle(d, x) == Render(ToggleTokens(ts, Collapsed))
    ensures TextOf(ToggleTokens(ts, Collapsed)) == TextOf(ts)
    ensures MarkSet(ToggleTokens(ts, Collapsed)) - {Collapsed} == MarkSet(ts) - {Collapsed}
  {
    ToggleMarkerRender(ts, Collapsed, DefaultStyle(Text));
    ToggleTokensFacts(ts, Collapsed);
    IncludesRender(ToggleTokens(ts, Collapsed), Collapsed);
  }

  /** A style whose first `margin-left:` is followed by `<px>px` keeps
      reading as `px` when a marker is toggled, whatever plain text comes
      before it: the threshold of a header's section does not depend on
      whether it is collapsed. */
  lemma ToggleKeepsIndent(lead: string, px: int, rest: string, m: Marker, dflt: string)
    requires forall i :: 0 <= i < |lead| ==> Markers.Plain(lead[i])
    requires IndexOf(lead + MarginKey, MarginKey) == Some(|lead|)
    requires rest != []
    ensures GetIndentValue(ToggleMarker(Some(lead + MarginText(px) + rest), m, dflt)) == px
  {
    var pre := lead + MarginText(px);
    LeadPlain(lead, px);
    if Includes(pre + rest, Sentinel(m)) {
      RemoveKeepsPrefix(pre, rest, m);
      if m == Collapsible {
        RemoveKeepsPrefix(pre, RemoveAll(rest, Sentinel(m)), Collapsed);
        GetIndentValueOfMarginText(lead, px, RemoveAll(RemoveAll(rest, Sentinel(m)), Sentinel(Collapsed)));
      } else {
        GetIndentValueOfMarginText(lead, px, RemoveAll(rest, Sentinel(m)));
      }
    } else {
      InsertAfterPrefix(pre, rest, Sentinel(m));
      GetIndentValueOfMarginText(lead, px, InsertBeforeLast(rest, Sentinel(m)));
    }
  }

  lemma LeadPlain(lead: string, px: int)
    requires forall i :: 0 <= i < |lead| ==> Markers.Plain(lead[i])
    ensures forall i :: 0 <= i < |lead + MarginText(px)| ==> Markers.Plain((lead + MarginText(px))[i])
  {
    MarginTextPlain(px);
  }

  lemma RemoveKeepsPrefix(pre: string, rest: string, m: Marker)
    requires forall i :: 0 <= i < |pre| ==> Markers.Plain(pre[i])
    ensures RemoveAll(pre + rest, Sentinel(m)) == pre + RemoveAll(rest, Sentinel(m))
  {
    NoSentinelInPlain(pre, rest, Sentinel(m));
    RemoveAllSkipsPrefix(pre, rest, Sentinel(m));
  }

  lemma InsertAfterPrefix(u: string, rest: string, x: string)
    requires rest != []
    ensures InsertBeforeLast(u + rest, x) == u + InsertBeforeLast(rest, x)
  {
    var s := u + rest;
    assert s[..|s| - 1] == u + rest[..|rest| - 1];
    assert s[|s| - 1..] == rest[|rest| - 1..];
    assert InsertBeforeLast(s, x) == s[..|s| - 1] + x + s[|s| - 1..];
    assert InsertBeforeLast(rest, x) == rest[..|rest| - 1] + x + rest[|rest| - 1..];
  }

  /** A sentinel cannot start inside a prefix of plain characters. */
  lemma NoSentinelInPlain(u: string, w: string, p: string)
    requires |p| > 0 && p[0] == '/'
    requires forall i :: 0 <= i < |u| ==> Markers.Plain(u[i])
    ensures forall j :: 0 <= j < |u| ==> !OccursAt(u + w, p, j)
  {
    forall j | 0 <= j < |u|
      ensures !OccursAt(u + w, p, j)
    {
      assert (u + w)[j] == u[j];
      if j + |p| <= |u + w| {
        assert (u + w)[j..j + |p|][0] == u[j];
      }
    }
  }

  /** The header's own style after the click is its toggled style: the
      section walk from its next sibling never reaches it, given that no
      later sibling's family reuses its id. */
  lemma HeaderUntouched(d: Doc, tables: Tables, cl: bool, path: seq<nat>)
    requires Fresh(d)
    requires |path| > 0 && At(d.root, path).Some? && CollapsibleHit(d.root, d.styles, path)
    requires var sibs := ChildrenAt(d.root, path[..|path| - 1]);
             var x := At(d.root, path).value;
             forall j :: path[|path| - 1] < j < |sibs| ==> x.id !in IdsOf(sibs[j])
    ensures var x := At(d.root, path).value;
            var d' := HeadingClick(d, tables, cl, path, true);
            x.id in d'.styles && d'.styles[x.id] == HeaderStyle(d, x)
  {
    var x := At(d.root, path).value;
    var newStyle := HeaderStyle(d, x);
    var d1 := d.(styles := d.styles[x.id := newStyle]);
    var parent, index := path[..|path| - 1], path[|path| - 1];
    var v, collapse := GetIndentValue(newStyle), Includes(newStyle, Sentinel(Collapsed));
    HeadingClickFires(d, tables, cl, path);
    assert HeadingClick(d, tables, cl, path, true) == Toggled(d1, tables, cl, parent, index + 1, v, collapse);
    AtInFamily(d.root, path);
    assert x.id in IdsOf(d.root);
    assert x.id < d1.nextId;
    assert ChildrenAt(d1.root, parent) == ChildrenAt(d.root, parent);
    SectionAfterKeeps(d1, tables, cl, parent, index, v, collapse, x.id);
  }

  /** The section walk from the sibling after `index` keeps the style of an
      id that no later sibling's family holds. */
  lemma SectionAfterKeeps(d: Doc, tables: Tables, cl: bool, parent: seq<nat>, index: nat, v: int, collapse: bool, id: nat)
    requires id in d.styles && id < d.nextId
    requires var sibs := ChildrenAt(d.root, parent);
             forall j :: index < j < |sibs| ==> id !in IdsOf(sibs[j])
    ensures var d' := Toggled(d, tables, cl, parent, index + 1, v, collapse);
            id in d'.styles && d'.styles[id] == d.styles[id]
  {
    var ctx := Ctx(tables, cl, d.styles, ChildrenAt(d.root, parent), v, collapse);
    WalkAvoids(ctx, index + 1, id);
    ToggledKeeps(d, tables, cl, parent, index + 1, v, collapse, id);
  }

  lemma HeadingClickFires(d: Doc, tables: Tables, cl: bool, path: seq<nat>)
    requires |path| > 0 && At(d.root, path).Some? && CollapsibleHit(d.root, d.styles, path)
    ensures var x := At(d.root, path).value;
            var newStyle := HeaderStyle(d, x);
            HeadingClick(d, tables, cl, path, true) ==
              Toggled(d.(styles := d.styles[x.id := newStyle]), tables, cl, path[..|path| - 1], path[|path| - 1] + 1,
                      GetIndentValue(newStyle), Includes(newStyle, Sentinel(Collapsed)))
  {
  }

  /** A walk from `start` collects no element with an id outside the families
      of the siblings from `start` on. */
  lemma WalkAvoids(ctx: Ctx, start: nat, id: nat)
    requires forall j :: start <= j < |ctx.sibs| ==> id !in IdsOf(ctx.sibs[j])
    ensures id !in Ids(Flatten(Targets(ctx, start)))
  {
    var targets := Targets(ctx, start);
    WalkWithin(ctx, start, false, 0);
    forall y | y in Flatten(targets)
      ensures y.id != id
    {
      var t :| t in targets && y in t;
      var j :| start <= j < |ctx.sibs| && !AlreadyHidden(ctx, ctx.sibs[j]) && y in Family(ctx.sibs[j]);
      assert y.id in IdsOf(ctx.sibs[j]);
    }
  }

  /** A section toggle leaves the style of an element it does not collect
      as it was. */
  lemma ToggledKeeps(d: Doc, tables: Tables, cl: bool, parent: seq<nat>, start: nat, v: int, collapse: bool, id: nat)
    requires id in d.styles && id < d.nextId
    requires id !in Ids(Flatten(Targets(Ctx(tables, cl, d.styles, ChildrenAt(d.root, parent), v, collapse), start)))
    ensures var d' := Toggled(d, tables, cl, parent, start, v, collapse);
            id in d'.styles && d'.styles[id] == d.styles[id]
  {
    var targets := Targets(Ctx(tables, cl, d.styles, ChildrenAt(d.root, parent), v, collapse), start);
    if targets != [] {
      if collapse {
        MarkAllKeeps(d.styles[d.nextId := PlaceholderStyle(v)], Flatten(targets), Hidden, id);
      } else {
        UnmarkAllKeeps(d.styles, Flatten(targets), Hidden, id);
      }
    }
  }

  // ---- making a header collapsible ----

  /** The element `.first()` picks among those whose text contains the cursor
      mark: in document order the first is the container's child that holds
      the cursor. */
  function CursorBlock(root: Node, cursor: seq<nat>): (r: Option<Node>)
    ensures r.Some? ==> |cursor| > 0 && r.value.id in IdsOf(root)
  {
    if |cursor| > 0 && At(root, cursor[..1]).Some? then
      AtInFamily(root, cursor[..1]);
      At(root, cursor[..1])
    else None
  }

  /** `toggleCollapsibility`: on an `h2`..`h6` holding the cursor, toggle
      `collapsible` (clearing `collapsed` with it) and make the header
      non-editable exactly when it is now collapsible. Nothing else changes:
      a collapsed section stays collapsed when its header stops being
      collapsible. */
  function ToggleCollapsibility(d: Doc, cursor: seq<nat>): (r: Doc)
    ensures r.root == d.root && r.nextId == d.nextId
    ensures Fresh(d) ==> Fresh(r)
    ensures forall id :: id in d.styles && (CursorBlock(d.root, cursor).None? || id != CursorBlock(d.root, cursor).value.id) ==>
              id in r.styles && r.styles[id] == d.styles[id]
    ensures (CursorBlock(d.root, cursor).None? || !CursorBlock(d.root, cursor).value.tag.Heading? ||
             !(2 <= CursorBlock(d.root, cursor).value.tag.level <= 6)) ==> r == d
  {
    match CursorBlock(d.root, cursor)
    case None => d
    case Some(x) =>
      if x.tag.Heading? && 2 <= x.tag.level <= 6 then
        var newStyle := ToggleMarker(StyleOpt(d.styles, x), Collapsible, DefaultStyle(Text));
        var editable := d.editable[x.id := !Includes(newStyle, Sentinel(Collapsible))];
        RestyleOneFresh(d, x.id, newStyle, editable);
        d.(styles := d.styles[x.id := newStyle], editable := editable)
      else d
  }

  /** Writing the style of an element in use keeps every id below `nextId`. */
  lemma RestyleOneFresh(d: Doc, id: nat, s: string, editable: map<nat, bool>)
    requires id in IdsOf(d.root)
    ensures Fresh(d) ==> Fresh(d.(styles := d.styles[id := s], editable := editable))
  {
  }

  /** On a decorated header: `collapsible` flips, clearing it clears
      `collapsed` too, the header is editable exactly when it is not
      collapsible, and neither the tree nor any other style changes. */
  lemma CollapsibilityFacts(d: Doc, cursor: seq<nat>, ts: seq<Token>)
    requires CursorBlock(d.root, cursor).Some?
    requires var x := CursorBlock(d.root, cursor).value;
             x.tag.Heading? && 2 <= x.tag.level <= 6 &&
             x.id in d.styles && d.styles[x.id] == Render(ts) && WellFormed(ts) && EndsPlain(ts)
    ensures var x := CursorBlock(d.root, cursor).value;
            var d' := ToggleCollapsibility(d, cursor);
            d'.styles[x.id] == Render(ToggleTokens(ts, Collapsible)) &&
            (Collapsible in MarkSet(ts) ==> MarkSet(ToggleTokens(ts, Collapsible)) == MarkSet(ts) - {Collapsible, Collapsed}) &&
            (Collapsible !in MarkSet(ts) ==> MarkSet(ToggleTokens(ts, Collapsible)) == MarkSet(ts) + {Collapsible}) &&
            (d'.editable[x.id] <==> Collapsible in MarkSet(ts))
    ensures var x := CursorBlock(d.root, cursor).value;
            var d' := ToggleCollapsibility(d, cursor);
            d'.root == d.root && d'.nextId == d.nextId &&
            (forall id :: id in d.styles && id != x.id ==> d'.styles[id] == d.styles[id])
  {
    ToggleMarkerRender(ts, Collapsible, DefaultStyle(Text));
    ToggleTokensFacts(ts, Collapsible);
    IncludesRender(ToggleTokens(ts, Collapsible), Collapsible);
  }

  /** Pressing the button twice on a header that carried neither marker gives
      its style back and leaves it editable. */
  lemma CollapsibilityTwice(d: Doc, cursor: seq<nat>, ts: seq<Token>)
    requires CursorBlock(d.root, cursor).Some?
    requires var x := CursorBlock(d.root, cursor).value;
             x.tag.Heading? && 2 <= x.tag.level <= 6 &&
             x.id in d.styles && d.styles[x.id] == Render(ts) && WellFormed(ts) && EndsPlain(ts) &&
             Collapsible !in MarkSet(ts) && Collapsed !in MarkSet(ts)
    ensures var x := CursorBlock(d.root, cursor).value;
            var d2 := ToggleCollapsibility(ToggleCollapsibility(d, cursor), cursor);
            d2.styles == d.styles && d2.root == d.root && d2.editable[x.id]
  {
    var x := CursorBlock(d.root, cursor).value;
    var d1 := ToggleCollapsibility(d, cursor);
    var ts1 := ToggleTokens(ts, Collapsible);
    var s1 := ToggleMarker(Some(Render(ts)), Collapsible, DefaultStyle(Text));
    assert d1.root == d.root && d1.styles == d.styles[x.id := s1];
    var s2 := ToggleMarker(Some(s1), Collapsible, DefaultStyle(Text));
    assert ToggleCollapsibility(d1, cursor).styles == d1.styles[x.id := s2];
    ToggleTwice(ts, Collapsible, DefaultStyle(Text));
    assert s2 == d.styles[x.id];
    assert Includes(s2, Sentinel(Collapsible)) == false by {
      IncludesRender(ts, Collapsible);
    }
  }

  // ---- repairing leftover hidden elements ----

  /** The repair handler's selectors, on one element: it carries `hidden`, or
      a child of it does, or it is a list holding a `p` that does. */
  predicate RepairSelector(styles: Styles, e: Node) {
    HasMarker(styles, e, Hidden) ||
    (exists c :: c in e.children && HasMarker(styles, c, Hidden)) ||
    (e.tag.IsList() && exists x :: x in Descendants(e) && x.tag == P && HasMarker(styles, x, Hidden))
  }

  predicate RepairHit(root: Node, styles: Styles, path: seq<nat>) {
    exists k :: 1 <= k <= |path| && At(root, path[..k]).Some? && RepairSelector(styles, At(root, path[..k]).value)
  }

  /** The elements of `xs` that are rendered, in order. */
  function ShownOnly(xs: seq<Node>): (r: seq<Node>)
    ensures forall x :: x in r <==> x in xs && x.shown
  {
    if xs == [] then [] else (if xs[0].shown then [xs[0]] else []) + ShownOnly(xs[1..])
  }

  /** `[style*="hidden"]:not(:hidden)` below the container, in document order:
      elements marked hidden that are nevertheless rendered. */
  function ErrorElements(d: Doc): (r: seq<Node>)
    ensures forall x :: x in r <==> x in Descendants(d.root) && x.shown && HasMarker(d.styles, x, Hidden)
  {
    ShownOnly(Marked(d.styles, Descendants(d.root), Hidden))
  }

  /** The path of the first element in document order with id `id`. */
  function Locate(e: Node, id: nat): (r: Option<seq<nat>>)
    ensures r.Some? ==> |r.value| > 0 && At(e, r.value).Some? && At(e, r.value).value.id == id
    decreases e, 1
  {
    LocateFrom(e, 0, id)
  }

  function LocateFrom(e: Node, i: nat, id: nat): (r: Option<seq<nat>>)
    ensures r.Some? ==> |r.value| > 0 && At(e, r.value).Some? && At(e, r.value).value.id == id
    decreases e, 0, |e.children| - i
  {
    if i >= |e.children| then None
    else if e.children[i].id == id then Some([i])
    else
      match Locate(e.children[i], id)
      case Some(p) =>
        assert ([i] + p)[1..] == p;
        Some([i] + p)
      case None => LocateFrom(e, i + 1, id)
  }

  /** Where a repair step starts: the position of `x` in the document, as
      the parent's path and the child index, and the threshold, which is the
      indentation of `x` less one level. */
  datatype Section = Section(parent: seq<nat>, start: nat, v: int)

  function RepairSection(d: Doc, x: Node): Option<Section> {
    match Locate(d.root, x.id)
    case None => None
    case Some(path) => Some(Section(path[..|path| - 1], path[|path| - 1], GetIndentValue(StyleOf(d.styles, x)) - 40))
  }

  /** One iteration of the repair loop: expand the section the element
      starts, with its indentation less one level as threshold. */
  function RepairOne(d: Doc, tables: Tables, cl: bool, x: Node): (r: Doc)
    ensures Fresh(d) ==> Fresh(r)
  {
    match RepairSection(d, x)
    case None => d
    case Some(s) => Toggled(d, tables, cl, s.parent, s.start, s.v, false)
  }

  /** The repair loop over `xs`, in order. */
  function RepairAll(d: Doc, tables: Tables, cl: bool, xs: seq<Node>): (r: Doc)
    ensures Fresh(d) ==> Fresh(r)
  {
    if xs == [] then d else RepairOne(RepairAll(d, tables, cl, xs[..|xs| - 1]), tables, cl, xs[|xs| - 1])
  }

  lemma RepairAllStep(d: Doc, tables: Tables, cl: bool, xs: seq<Node>, n: nat)
    requires n < |xs|
    ensures RepairAll(d, tables, cl, xs[..n + 1]) == RepairOne(RepairAll(d, tables, cl, xs[..n]), tables, cl, xs[n])
  {
    assert xs[..n + 1][..n] == xs[..n];
  }

  /** A click on a leftover hidden element expands, one after the other, the
      sections of all hidden elements that are rendered. */
  function RepairClick(d: Doc, tables: Tables, cl: bool, path: seq<nat>): (r: Doc)
    ensures Fresh(d) ==> Fresh(r)
  {
    if RepairHit(d.root, d.styles, path) then RepairAll(d, tables, cl, ErrorElements(d)) else d
  }

  /** An element styled as a placeholder at indentation `v` falls in the
      first group of a walk with threshold `v`. */
  lemma PlaceholderInGroup(styles: Styles, tables: Tables, levels: nat, p: Node, v: int)
    requires Built(tables, levels)
    requires p.id in styles && styles[p.id] == PlaceholderStyle(v)
    requires 0 <= v && v % 40 == 0 && v + 40 <= 40 * levels
    ensures Is(styles, p, Group1(tables, v))
  {
    assert OccursAt(PlaceholderStyle(v), MarginText(v + 40), 0);
    IncludesAt(PlaceholderStyle(v), MarginText(v + 40), 0);
    assert Matches(styles, p, Margin(Direct, v + 40));
    SliceThreshold(styles, p, tables.standard, levels, Direct, v);
  }

  /** A walk whose first element belongs to the run collects that element. */
  lemma RunMemberCollected(ctx: Ctx, k: nat)
    requires k < |ctx.sibs| && RunMember(ctx, ctx.sibs[k])
    ensures Targets(ctx, k) != [] && ctx.sibs[k] in Flatten(Targets(ctx, k))
  {
    var p := ctx.sibs[k];
    DecidePlain(ctx, k, 0);
    WalkCons(ctx, k, 0, [p]);
    assert Targets(ctx, k)[0] == [p];
    assert [p] in Targets(ctx, k);
    assert p in [p];
  }

  /** Repairing from an orphaned placeholder standing for a section at
      indentation `v`: its own indentation is `v + 40`, so the repair walks
      with threshold `v` (`PlaceholderStyle`), takes the placeholder itself,
      and so removes it, unmarked. */
  lemma RepairRemovesPlaceholder(d: Doc, tables: Tables, levels: nat, cl: bool, parent: seq<nat>, k: nat, v: int)
    requires Built(tables, levels)
    requires k < |ChildrenAt(d.root, parent)|
    requires var p := ChildrenAt(d.root, parent)[k];
             p.id in d.styles && d.styles[p.id] == PlaceholderStyle(v)
    requires 0 <= v && v % 40 == 0 && v + 40 <= 40 * levels
    ensures var p := ChildrenAt(d.root, parent)[k];
            var d' := Toggled(d, tables, cl, parent, k, v, false);
            d'.root == RemoveChild(d.root, parent, k) && !HasMarker(d'.styles, p, Hidden)
  {
    var sibs := ChildrenAt(d.root, parent);
    var p := sibs[k];
    var ctx := Ctx(tables, cl, d.styles, sibs, v, false);
    PlaceholderDecorated(v);
    assert RunMember(ctx, p) by {
      DecoratedHas(PlaceholderStyle(v), {Hidden, Error}, Collapsed);
      PlaceholderInGroup(d.styles, tables, levels, p, v);
    }
    RunMemberCollected(ctx, k);
    UnmarkAllClears(d.styles, Flatten(Targets(ctx, k)), Hidden, p, {Hidden, Error}, Error);
  }

  // ---- clicking a list bullet ----

  /** `ul:not(.todo-list) > li:has(> :is(ul, ol)) > :first-child` on the
      element at `q`. */
  predicate BulletSelectorAt(root: Node, q: seq<nat>) {
    |q| >= 2 && q[|q| - 1] == 0 &&
    At(root, q[..|q| - 2]).Some? && At(root, q[..|q| - 2]).value.tag == UnorderedList(false) &&
    At(root, q[..|q| - 1]).Some? && At(root, q[..|q| - 1]).value.tag == Item &&
    exists c :: c in At(root, q[..|q| - 1]).value.children && c.tag.IsList()
  }

  predicate BulletHit(root: Node, path: seq<nat>) {
    exists k :: 2 <= k <= |path| && BulletSelectorAt(root, path[..k])
  }

  /** The `span` elements of `xs`, in order. */
  function Spans(xs: seq<Node>): (r: seq<Node>)
    ensures forall x :: x in r <==> x in xs && x.tag == SpanTag
  {
    if xs == [] then [] else (if xs[0].tag == SpanTag then [xs[0]] else []) + Spans(xs[1..])
  }

  /** `toggleMarker` applied to each element of `xs` in turn. */
  function ToggleAll(styles: Styles, xs: seq<Node>, m: Marker, dflt: string): (r: Styles)
    ensures r.Keys == styles.Keys + Ids(xs)
  {
    if xs == [] then styles
    else
      var x := xs[|xs| - 1];
      var s := ToggleAll(styles, xs[..|xs| - 1], m, dflt);
      IdsLast(xs);
      s[x.id := ToggleMarker(StyleOpt(s, x), m, dflt)]
  }

  lemma ToggleAllStep(styles: Styles, xs: seq<Node>, m: Marker, dflt: string, n: nat)
    requires n < |xs|
    ensures var s := ToggleAll(styles, xs[..n], m, dflt);
            ToggleAll(styles, xs[..n + 1], m, dflt) == s[xs[n].id := ToggleMarker(StyleOpt(s, xs[n]), m, dflt)]
  {
    assert xs[..n + 1][..n] == xs[..n];
  }

  predicate DistinctIds(xs: seq<Node>) {
    forall i, j :: 0 <= i < j < |xs| ==> xs[i].id != xs[j].id
  }

  /** Toggling elements with distinct ids toggles each once, from its own
      style, and touches nothing else. */
  lemma {:induction false} ToggleAllEach(styles: Styles, xs: seq<Node>, m: Marker, dflt: string, id: nat)
    requires DistinctIds(xs)
    ensures forall x :: x in xs && x.id == id ==> ToggleAll(styles, xs, m, dflt)[id] == ToggleMarker(StyleOpt(styles, x), m, dflt)
    ensures id !in Ids(xs) && id in styles ==> ToggleAll(styles, xs, m, dflt)[id] == styles[id]
    decreases |xs|
  {
    if xs != [] {
      var init := xs[..|xs| - 1];
      var x := xs[|xs| - 1];
      assert DistinctIds(init);
      IdsLast(xs);
      ToggleAllEach(styles, init, m, dflt, id);
      if x.id == id {
        assert id !in Ids(init) by {
          forall y | y in init
            ensures y.id != id
          {
            var i :| 0 <= i < |init| && init[i] == y;
            assert xs[i] == y;
          }
        }
        assert forall y :: y in xs && y.id == id ==> y == x || y in init;
      }
    }
  }

  /** The bullet handler's selector matched at or above the clicked element,
      and that element's parent is an `li`. */
  predicate BulletFires(d: Doc, path: seq<nat>) {
    |path| > 0 && At(d.root, path).Some? &&
    At(d.root, path[..|path| - 1]).Some? && At(d.root, path[..|path| - 1]).value.tag == Item &&
    BulletHit(d.root, path)
  }

  /** A click on a bullet: nothing for an empty bullet; otherwise, when no
      descendant carries `list-collapsed`, toggle it on each `span` below the
      element (on the element itself when it has none); else remove it from
      every descendant carrying it. `removeMarker` is called there without an
      element type, but those elements all have a style, so the type is never
      consulted. */
  function BulletClick(d: Doc, path: seq<nat>, hotspot: bool): (r: Doc)
    ensures r.root == d.root && r.editable == d.editable && r.nextId == d.nextId
  {
    if hotspot && BulletFires(d, path) then
      var e := At(d.root, path).value;
      var marked := Marked(d.styles, Descendants(e), ListCollapsed);
      var spans := Spans(Descendants(e));
      if e.fillerOnly then d
      else if marked == [] && spans == [] then
        d.(styles := d.styles[e.id := ToggleMarker(StyleOpt(d.styles, e), ListCollapsed, DefaultStyle(SpanType))])
      else if marked == [] then
        d.(styles := ToggleAll(d.styles, spans, ListCollapsed, DefaultStyle(SpanType)))
      else
        d.(styles := UnmarkAll(d.styles, marked, ListCollapsed))
    else d
  }

  /** Collapsing a sub-list: when no descendant of the clicked element carries
      `list-collapsed` and it has `span`s with distinct ids, every such span
      carries it afterwards and no other style changes. */
  lemma BulletMarksSpans(d: Doc, path: seq<nat>, x: Node)
    requires BulletFires(d, path)
    requires var e := At(d.root, path).value;
             !e.fillerOnly && Marked(d.styles, Descendants(e), ListCollapsed) == [] &&
             Spans(Descendants(e)) != [] && DistinctIds(Spans(Descendants(e)))
    ensures var e := At(d.root, path).value;
            var d' := BulletClick(d, path, true);
            (x in Spans(Descendants(e)) ==> HasMarker(d'.styles, x, ListCollapsed)) &&
            (x.id !in Ids(Spans(Descendants(e))) && x.id in d.styles ==> d'.styles[x.id] == d.styles[x.id])
  {
    var e := At(d.root, path).value;
    var spans := Spans(Descendants(e));
    var dflt := DefaultStyle(SpanType);
    ToggleAllEach(d.styles, spans, ListCollapsed, dflt, x.id);
    if x in spans {
      assert !HasMarker(d.styles, x, ListCollapsed);
      DefaultStyleDecorated(SpanType);
      IncludesRender(PlainTokens(dflt), ListCollapsed);
    }
  }

  /** Expanding a sub-list: when some descendant carries `list-collapsed`, no
      descendant whose style is decorated carries it afterwards. */
  lemma BulletClearsMarks(d: Doc, path: seq<nat>, x: Node, ms: set<Marker>)
    requires BulletFires(d, path)
    requires var e := At(d.root, path).value;
             !e.fillerOnly && Marked(d.styles, Descendants(e), ListCollapsed) != []
    requires x in Descendants(At(d.root, path).value)
    requires x.id in d.styles ==> DecoratedWith(d.styles[x.id], ms)
    ensures !HasMarker(BulletClick(d, path, true).styles, x, ListCollapsed)
  {
    var e := At(d.root, path).value;
    var marked := Marked(d.styles, Descendants(e), ListCollapsed);
    if x.id in Ids(marked) {
      var y :| y in marked && y.id == x.id;
      assert HasMarker(d.styles, x, ListCollapsed);
      UnmarkAllClears(d.styles, marked, ListCollapsed, x, ms, Hidden);
    } else {
      UnmarkAllKeeps(d.styles, marked, ListCollapsed, x.id);
    }
  }
}
