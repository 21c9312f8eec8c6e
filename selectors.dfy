/**
 * The indentation selectors: the three tables built once at start-up
 * (trilium-collapsible.js:102-110), the slices `toggleSectionVisibility`
 * takes of them (trilium-collapsible.js:462-488), and what each selector
 * matches on the document model.
 */
module Selectors {
  import opened JsStrings
  import opened Dom
  import opened Indent

  /** Inline styles by element id; an id without an entry has no `style` attribute. */
  type Styles = map<nat, string>

  /** `[style*="text"]` */
  predicate StyleIncludes(styles: Styles, e: Node, text: string) {
    e.id in styles && Includes(styles[e.id], text)
  }

  /** Where an element of each group keeps its indentation: on itself (group 1),
      on a child (group 2, block quotes and admonitions), or on a `p` inside a
      list item (group 3, lists). */
  datatype Convention = Direct | ChildOf | GrandchildOf

  datatype Selector =
    | Margin(convention: Convention, px: int)
      // `:is(ul, ol):has(li > :not(p[style*="margin-left:"]))`
    | UnindentedOther
      // `grandchildSelectors[i]` for an `i` outside the table: the text `undefined`
    | Undefined

  /** `margin-left:<px>px` on a `p` that is a child of some `li` below list `e`. */
  predicate ListItemParagraph(styles: Styles, e: Node, text: string) {
    e.tag.IsList() &&
    exists d :: d in Descendants(e) && d.tag == Item &&
      exists c :: c in d.children && c.tag == P && StyleIncludes(styles, c, text)
  }

  predicate Matches(styles: Styles, e: Node, s: Selector) {
    match s
    case Margin(Direct, px) => StyleIncludes(styles, e, MarginText(px))
    case Margin(ChildOf, px) => exists c :: c in e.children && StyleIncludes(styles, c, MarginText(px))
    case Margin(GrandchildOf, px) => ListItemParagraph(styles, e, MarginText(px))
    case UnindentedOther =>
      e.tag.IsList() &&
      exists d :: d in Descendants(e) && d.tag == Item &&
        exists c :: c in d.children && !(c.tag == P && StyleIncludes(styles, c, MarginKey))
    case Undefined => false
  }

  /** `$(e).is(list)` for a comma-separated selector list. */
  predicate Is(styles: Styles, e: Node, css: seq<Selector>) {
    exists s :: s in css && Matches(styles, e, s)
  }

  lemma IsAppend(styles: Styles, e: Node, a: seq<Selector>, b: seq<Selector>)
    ensures Is(styles, e, a + b) <==> Is(styles, e, a) || Is(styles, e, b)
  {
    if Is(styles, e, a + b) {
      var s :| s in a + b && Matches(styles, e, s);
      assert s in a || s in b;
    }
    if Is(styles, e, a) {
      var s :| s in a && Matches(styles, e, s);
      assert s in a + b;
    }
    if Is(styles, e, b) {
      var s :| s in b && Matches(styles, e, s);
      assert s in a + b;
    }
  }

  // ---- the tables ----

  datatype Tables = Tables(standard: seq<Selector>, child: seq<Selector>, grandchild: seq<Selector>)

  /** Entry `i` of a table built for `levels` levels selects indentation `40 * (i + 1)`. */
  predicate BuiltWith(table: seq<Selector>, levels: nat, c: Convention) {
    |table| == levels &&
    forall i :: 0 <= i < levels ==> table[i] == Margin(c, 40 * (i + 1))
  }

  predicate Built(t: Tables, levels: nat) {
    BuiltWith(t.standard, levels, Direct) &&
    BuiltWith(t.child, levels, ChildOf) &&
    BuiltWith(t.grandchild, levels, GrandchildOf)
  }

  /** The start-up loop filling `standardSelectors`, `childSelectors` and
      `grandchildSelectors` for indentation levels 1 to `levels`. */
  method BuildTables(levels: nat) returns (t: Tables)
    ensures Built(t, levels)
  {
    var standard: seq<Selector> := [];
    var child: seq<Selector> := [];
    var grandchild: seq<Selector> := [];
    for level := 1 to levels + 1
      invariant BuiltWith(standard, level - 1, Direct)
      invariant BuiltWith(child, level - 1, ChildOf)
      invariant BuiltWith(grandchild, level - 1, GrandchildOf)
    {
      standard := standard + [Margin(Direct, level * 40)];
      child := child + [Margin(ChildOf, level * 40)];
      grandchild := grandchild + [Margin(GrandchildOf, level * 40)];
    }
    t := Tables(standard, child, grandchild);
  }

  // ---- slicing by an indentation value ----

  /** `v / 40` as `slice` converts it: truncated toward zero. */
  function TruncDiv40(v: int): int {
    if v >= 0 then v / 40 else -((-v) / 40)
  }

  /** Where `table.slice(k)` starts for a table of length `len`. */
  function SliceStart(len: nat, k: int): (r: nat)
    ensures r <= len
  {
    if k < 0 then (if len + k < 0 then 0 else len + k)
    else if k > len then len
    else k
  }

  /** The entries of `table` from position `k` on, dropped one at a time. */
  function Suffix(table: seq<Selector>, k: nat): seq<Selector>
    decreases k
  {
    if k == 0 || table == [] then table else Suffix(table[1..], k - 1)
  }

  lemma {:induction false} SuffixIsSlice(table: seq<Selector>, k: nat)
    requires k <= |table|
    ensures Suffix(table, k) == table[k..]
    decreases k
  {
    if k > 0 {
      SuffixIsSlice(table[1..], k - 1);
      assert table[1..][k - 1..] == table[k..];
    }
  }

  /** `table.slice(v / 40)` */
  function SliceFrom(table: seq<Selector>, v: int): seq<Selector> {
    Suffix(table, SliceStart(|table|, TruncDiv40(v)))
  }

  /** `grandchildSelectors[v / 40 - 1]`: defined only for a whole level inside the table. */
  function GrandchildAt(table: seq<Selector>, v: int): Selector {
    if v % 40 == 0 && 1 <= v / 40 <= |table| then table[v / 40 - 1] else Undefined
  }

  const UnindentedListCss: seq<Selector> := [Margin(GrandchildOf, 0), UnindentedOther]

  function Group1(t: Tables, v: int): seq<Selector> {
    SliceFrom(t.standard, v)
  }

  function Group2(t: Tables, v: int): seq<Selector> {
    SliceFrom(t.child, v)
  }

  /** Group 3, widened by same-level lists when lists count as indented
      (`selectorIndex == 0` holds exactly when `v` is 0). */
  function Group3(t: Tables, v: int, considerListsIndented: bool): seq<Selector> {
    SliceFrom(t.grandchild, v) +
      (if !considerListsIndented then []
       else if v == 0 then UnindentedListCss
       else [GrandchildAt(t.grandchild, v)])
  }

  /** The selectors a subsection under a collapsed header at indentation `h` skips. */
  function SubsectionCss(t: Tables, h: int): seq<Selector> {
    SliceFrom(t.standard, h) + SliceFrom(t.child, h) + SliceFrom(t.grandchild, h)
  }

  /** An element matches a slice of a table exactly when it carries, by the
      table's convention, one of the indentations 40 * L for the levels L past
      the slice's start. */
  lemma SliceMatches(styles: Styles, e: Node, table: seq<Selector>, levels: nat, c: Convention, v: int)
    requires BuiltWith(table, levels, c)
    ensures var start := SliceStart(levels, TruncDiv40(v));
            Is(styles, e, SliceFrom(table, v)) <==>
            exists px :: 40 * start < px <= 40 * levels && px % 40 == 0 && Matches(styles, e, Margin(c, px))
  {
    var start := SliceStart(levels, TruncDiv40(v));
    SuffixIsSlice(table, start);
    if Is(styles, e, SliceFrom(table, v)) {
      SliceMatchesOnly(styles, e, table, levels, c, start);
    }
    if exists px :: 40 * start < px <= 40 * levels && px % 40 == 0 && Matches(styles, e, Margin(c, px)) {
      var px :| 40 * start < px <= 40 * levels && px % 40 == 0 && Matches(styles, e, Margin(c, px));
      SliceMatchesIf(styles, e, table, levels, c, start, px);
    }
  }

  lemma SliceMatchesOnly(styles: Styles, e: Node, table: seq<Selector>, levels: nat, c: Convention, start: nat)
    requires BuiltWith(table, levels, c) && start <= levels
    requires Is(styles, e, table[start..])
    ensures exists px :: 40 * start < px <= 40 * levels && px % 40 == 0 && Matches(styles, e, Margin(c, px))
  {
    var s :| s in table[start..] && Matches(styles, e, s);
    SliceEntry(table, levels, c, start, s);
    var px :| 40 * start < px <= 40 * levels && px % 40 == 0 && s == Margin(c, px);
    assert Matches(styles, e, Margin(c, px));
  }

  /** Each entry of a table slice is the selector of a level past the slice's start. */
  lemma SliceEntry(table: seq<Selector>, levels: nat, c: Convention, start: nat, s: Selector)
    requires BuiltWith(table, levels, c) && start <= levels
    requires s in table[start..]
    ensures exists px :: 40 * start < px <= 40 * levels && px % 40 == 0 && s == Margin(c, px)
  {
    var sl := table[start..];
    var k :| 0 <= k < |sl| && sl[k] == s;
    var i := start + k;
    assert s == table[i];
    var px := 40 * (i + 1);
    Times40Monotone(start + 1, i + 1);
    Times40Monotone(i + 1, levels);
    Times40Whole(i + 1);
    assert s == Margin(c, px);
  }

  lemma Times40Whole(q: int)
    ensures (40 * q) % 40 == 0 && (40 * q) / 40 == q
  {
  }

  lemma Times40Monotone(a: int, b: int)
    requires a <= b
    ensures 40 * a <= 40 * b
  {
  }

  lemma SliceMatchesIf(styles: Styles, e: Node, table: seq<Selector>, levels: nat, c: Convention, start: nat, px: int)
    requires BuiltWith(table, levels, c) && start <= levels
    requires 40 * start < px <= 40 * levels && px % 40 == 0 && Matches(styles, e, Margin(c, px))
    ensures Is(styles, e, table[start..])
  {
    var q := px / 40;
    assert px == 40 * q;
    assert start < q <= levels;
    var i := q - 1;
    assert table[i] == Margin(c, px);
    assert table[start..][i - start] == table[i];
  }

  /** For a whole, non-negative indentation `v` the slice selects exactly the
      deeper levels: indentations `px` with `v < px <= 40 * levels`. */
  lemma SliceThreshold(styles: Styles, e: Node, table: seq<Selector>, levels: nat, c: Convention, v: int)
    requires BuiltWith(table, levels, c)
    requires v >= 0 && v % 40 == 0
    ensures Is(styles, e, SliceFrom(table, v)) <==>
            exists px :: v < px <= 40 * levels && px % 40 == 0 && Matches(styles, e, Margin(c, px))
  {
    SliceMatches(styles, e, table, levels, c, v);
  }

  /** The element carries, by convention `c`, the indentation of a level
      deeper than `v` inside the table. */
  predicate DeeperThan(styles: Styles, e: Node, c: Convention, v: int, levels: nat) {
    exists px :: v < px <= 40 * levels && px % 40 == 0 && Matches(styles, e, Margin(c, px))
  }

  /** Group 1 holds the elements that are themselves indented deeper than `v`. */
  lemma Group1Levels(styles: Styles, e: Node, t: Tables, levels: nat, v: int)
    requires Built(t, levels) && v >= 0 && v % 40 == 0
    ensures Is(styles, e, Group1(t, v)) <==> DeeperThan(styles, e, Direct, v, levels)
  {
    SliceThreshold(styles, e, t.standard, levels, Direct, v);
  }

  /** Group 2 holds the elements with a child indented deeper than `v`. */
  lemma Group2Levels(styles: Styles, e: Node, t: Tables, levels: nat, v: int)
    requires Built(t, levels) && v >= 0 && v % 40 == 0
    ensures Is(styles, e, Group2(t, v)) <==> DeeperThan(styles, e, ChildOf, v, levels)
  {
    SliceThreshold(styles, e, t.child, levels, ChildOf, v);
  }

  /** Group 3 holds the lists with an item paragraph indented deeper than `v`;
      when lists count as indented, also those at `v` itself, or, for `v` 0,
      the unindented lists. */
  lemma Group3Levels(styles: Styles, e: Node, t: Tables, levels: nat, v: int, cl: bool)
    requires Built(t, levels) && v >= 0 && v % 40 == 0 && v <= 40 * levels
    ensures !cl ==> (Is(styles, e, Group3(t, v, cl)) <==> DeeperThan(styles, e, GrandchildOf, v, levels))
    ensures cl && v > 0 ==>
              (Is(styles, e, Group3(t, v, cl)) <==>
                 DeeperThan(styles, e, GrandchildOf, v, levels) || Matches(styles, e, Margin(GrandchildOf, v)))
    ensures cl && v == 0 ==>
              (Is(styles, e, Group3(t, v, cl)) <==>
                 DeeperThan(styles, e, GrandchildOf, v, levels) || Is(styles, e, UnindentedListCss))
  {
    var extra := if !cl then [] else if v == 0 then UnindentedListCss else [GrandchildAt(t.grandchild, v)];
    SliceThreshold(styles, e, t.grandchild, levels, GrandchildOf, v);
    IsAppend(styles, e, SliceFrom(t.grandchild, v), extra);
    if cl && v > 0 {
      GrandchildAtDefined(t.grandchild, levels, v);
      assert Is(styles, e, extra) <==> Matches(styles, e, Margin(GrandchildOf, v)) by {
        assert extra == [Margin(GrandchildOf, v)];
        if Matches(styles, e, Margin(GrandchildOf, v)) {
          assert Margin(GrandchildOf, v) in extra;
        }
      }
    }
  }

  /** Under a collapsed header at `h`, the guard skips exactly the elements
      indented deeper than `h` by any of the three conventions. */
  lemma SubsectionLevels(styles: Styles, e: Node, t: Tables, levels: nat, h: int)
    requires Built(t, levels) && h >= 0 && h % 40 == 0
    ensures Is(styles, e, SubsectionCss(t, h)) <==>
              DeeperThan(styles, e, Direct, h, levels) || DeeperThan(styles, e, ChildOf, h, levels) ||
              DeeperThan(styles, e, GrandchildOf, h, levels)
  {
    var a, b, c := SliceFrom(t.standard, h), SliceFrom(t.child, h), SliceFrom(t.grandchild, h);
    IsAppend(styles, e, a + b, c);
    IsAppend(styles, e, a, b);
    SliceThreshold(styles, e, t.standard, levels, Direct, h);
    SliceThreshold(styles, e, t.child, levels, ChildOf, h);
    SliceThreshold(styles, e, t.grandchild, levels, GrandchildOf, h);
  }

  /** The repair pass passes `getIndentValue - 40`, which is -40 for an element
      at indentation 0: the slice then keeps only the deepest level. */
  lemma SliceAtMinusForty(table: seq<Selector>, levels: nat, c: Convention)
    requires BuiltWith(table, levels, c) && levels > 0
    ensures SliceFrom(table, -40) == [Margin(c, 40 * levels)]
  {
    SuffixIsSlice(table, levels - 1);
  }

  /** Whether a value past the table or in the middle of a level picks a
      same-level list selector: only whole levels inside the table do. */
  lemma GrandchildAtDefined(table: seq<Selector>, levels: nat, v: int)
    requires BuiltWith(table, levels, GrandchildOf)
    ensures GrandchildAt(table, v) != Undefined <==> v % 40 == 0 && 40 <= v <= 40 * levels
    ensures GrandchildAt(table, v) != Undefined ==> GrandchildAt(table, v) == Margin(GrandchildOf, v)
  {
  }
}
