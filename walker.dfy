/**
 * The section walk of `toggleSectionVisibility`
 * (trilium-collapsible.js:459-612): starting at one element, it moves along
 * the following siblings and collects the elements whose indentation puts
 * them inside the section, until it meets the section's boundary.
 *
 * `Decide` is one iteration of the source loop on one sibling, `Walk` the
 * whole loop, and `CollectTargets` the loop as the source writes it.
 */
module Walker {
  import opened JsStrings
  import opened Dom
  import opened Markers
  import opened Indent
  import opened Selectors

  /** What one walk works on: the selector tables, the `considerListsIndented`
      setting, the styles, the start element's siblings (it included), the
      indentation threshold and whether the section is being collapsed. */
  datatype Ctx = Ctx(
    tables: Tables,
    considerListsIndented: bool,
    styles: Styles,
    sibs: seq<Node>,
    v: int,
    collapse: bool)

  /** One collected target: a single element, or a jQuery collection of them. */
  type Target = seq<Node>

  predicate HasMarker(styles: Styles, e: Node, m: Marker) {
    StyleIncludes(styles, e, Sentinel(m))
  }

  /** The style an element's `attr('style')` reads, `""` standing in for a missing one. */
  function StyleOf(styles: Styles, e: Node): string {
    if e.id in styles then styles[e.id] else ""
  }

  function G1(ctx: Ctx, e: Node): bool {
    Is(ctx.styles, e, Group1(ctx.tables, ctx.v))
  }

  function G2(ctx: Ctx, e: Node): bool {
    Is(ctx.styles, e, Group2(ctx.tables, ctx.v))
  }

  function G3(ctx: Ctx, e: Node): bool {
    Is(ctx.styles, e, Group3(ctx.tables, ctx.v, ctx.considerListsIndented))
  }

  /** `$(sibs[i]).is(unhandledElementSelectors)`; false past the last sibling. */
  predicate UnhandledAt(sibs: seq<Node>, i: nat) {
    i < |sibs| && sibs[i].unhandled
  }

  /** The first item's first span holds only CKEditor's filler `<br>`: an empty list. */
  predicate FirstItemFiller(e: Node) {
    |e.children| > 0 && e.children[0].tag == Item &&
    |e.children[0].children| > 0 && e.children[0].children[0].tag == SpanTag &&
    e.children[0].children[0].fillerOnly
  }

  /** What collapsing takes from a list: the children of the first item's first
      child when that child is a `span` with children, else that child itself
      (an empty collection when the list has no such child). */
  function CollapseExtract(e: Node): (r: Target)
    ensures forall x :: x in r ==> x in Descendants(e)
  {
    if |e.children| > 0 && e.children[0].tag == Item && |e.children[0].children| > 0 then
      var li := e.children[0];
      var first := li.children[0];
      ChildIsDescendant(e, 0);
      ChildIsDescendant(li, 0);
      DescendantOfChild(e, 0, first);
      if first.tag == SpanTag && |first.children| > 0 then
        forall x | x in first.children
          ensures x in Descendants(e)
        {
          var k :| 0 <= k < |first.children| && first.children[k] == x;
          ChildIsDescendant(first, k);
          DescendantOfChild(li, 0, x);
          DescendantOfChild(e, 0, x);
        }
        first.children
      else [first]
    else []
  }

  /** `find` of the descendants carrying the `hidden` marker, in document order. */
  function HiddenDescendants(styles: Styles, e: Node): (r: Target)
    ensures forall x :: x in r ==> x in Descendants(e) && HasMarker(styles, x, Hidden)
  {
    Marked(styles, Descendants(e), Hidden)
  }

  /** The elements of `xs` carrying marker `m`, in order. */
  function Marked(styles: Styles, xs: seq<Node>, m: Marker): (r: seq<Node>)
    ensures forall x :: x in r ==> x in xs && HasMarker(styles, x, m)
    ensures forall x :: x in xs && HasMarker(styles, x, m) ==> x in r
  {
    if xs == [] then []
    else (if HasMarker(styles, xs[0], m) then [xs[0]] else []) + Marked(styles, xs[1..], m)
  }

  /** The outcome of one loop iteration: stop (`break`), or add targets and
      move to the next sibling with an updated subsection guard. */
  datatype Step = Stop | Advance(add: seq<Target>, guard: bool, h: int)

  /** One iteration of the loop on `sibs[i]`, with the subsection guard
      `guard` active for a collapsed header at indentation `h`. */
  function Decide(ctx: Ctx, i: nat, guard: bool, h: int): (r: Step)
    requires i < |ctx.sibs|
    ensures r.Advance? ==> |r.add| <= 1
    ensures r.Advance? && ctx.collapse && !guard ==> !r.guard
  {
    var e := ctx.sibs[i];
    var g1 := G1(ctx, e);
    var g2 := G2(ctx, e);
    var g3 := G3(ctx, e);
    if ctx.collapse && !e.shown && (g1 || g2 || g3) then Advance([], guard, h)
    else if guard && Is(ctx.styles, e, SubsectionCss(ctx.tables, h)) then Advance([], guard, h)
    else if guard && e.image then Advance([], guard, h)
    else if guard && e.unhandled && !UnhandledAt(ctx.sibs, i + 1) then Advance([], guard, h)
    else
      // the guard, if it was active, has ended here
      var header := !ctx.collapse && HasMarker(ctx.styles, e, Collapsed);
      var guard' := header;
      var h' := if header then GetIndentValue(ctx.styles[e.id]) else h;
      if ctx.considerListsIndented && ctx.collapse &&
         Is(ctx.styles, e, UnindentedListCss) && e.tag != P && FirstItemFiller(e) then Stop
      else if g1 then Advance([[e]], guard', h')
      else if g2 then Advance([e.children], guard', h')
      else if g3 then
        Advance([if ctx.collapse then CollapseExtract(e) else HiddenDescendants(ctx.styles, e)], guard', h')
      else if e.image then Advance([[e]], guard', h')
      else if e.unhandled then (if UnhandledAt(ctx.sibs, i + 1) then Stop else Advance([], guard', h'))
      else Stop
  }

  /** How many siblings a walk from `sibs[i]` can still visit. */
  function Remaining(ctx: Ctx, i: nat): nat {
    if i < |ctx.sibs| then |ctx.sibs| - i else 0
  }

  /** The loop from `sibs[i]` on, `acc` holding the targets collected so far. */
  function Walk(ctx: Ctx, i: nat, guard: bool, h: int, acc: seq<Target>): seq<Target>
    decreases |ctx.sibs| - i
  {
    if i >= |ctx.sibs| then acc
    else
      match Decide(ctx, i, guard, h)
      case Stop => acc
      case Advance(add, guard', h') => Walk(ctx, i + 1, guard', h', acc + add)
  }

  /** The targets of a walk from `sibs[start]`: at most one collection per
      sibling from `start` on, and none for a walk starting past the last one. */
  function Targets(ctx: Ctx, start: nat): (r: seq<Target>)
    ensures |r| <= Remaining(ctx, start)
  {
    WalkBound(ctx, start, false, 0, []);
    Walk(ctx, start, false, 0, [])
  }

  /** The loop adds at most one collection per sibling it visits. */
  lemma {:induction false} WalkBound(ctx: Ctx, i: nat, guard: bool, h: int, acc: seq<Target>)
    ensures |Walk(ctx, i, guard, h, acc)| <= |acc| + Remaining(ctx, i)
    decreases |ctx.sibs| - i
  {
    if i < |ctx.sibs| {
      match Decide(ctx, i, guard, h)
      case Stop =>
      case Advance(add, guard', h') =>
        WalkBound(ctx, i + 1, guard', h', acc + add);
    }
  }

  /** The source loop, `continue` and `break` included. */
  method CollectTargets(ctx: Ctx, start: nat) returns (targets: seq<Target>)
    ensures targets == Targets(ctx, start)
  {
    var i := start;
    var guard := false;
    var h := 0;
    targets := [];
    while i < |ctx.sibs|
      invariant Walk(ctx, i, guard, h, targets) == Targets(ctx, start)
      decreases |ctx.sibs| - i
    {
      ghost var guard0, h0, targets0 := guard, h, targets;
      ghost var step := Decide(ctx, i, guard0, h0);
      assert step.Stop? ==> Walk(ctx, i, guard0, h0, targets0) == targets0;
      assert step.Advance? ==>
        Walk(ctx, i, guard0, h0, targets0) == Walk(ctx, i + 1, step.guard, step.h, targets0 + step.add);
      assert targets + [] == targets;
      var e := ctx.sibs[i];
      var g1 := G1(ctx, e);
      var g2 := G2(ctx, e);
      var g3 := G3(ctx, e);
      if ctx.collapse && !e.shown {
        if g1 || g2 || g3 {
          assert Decide(ctx, i, guard0, h0) == Advance([], guard0, h0);
          i := i + 1;
          continue;
        }
      }
      if guard {
        if Is(ctx.styles, e, SubsectionCss(ctx.tables, h)) {
          assert Decide(ctx, i, guard0, h0) == Advance([], guard0, h0);
          i := i + 1;
          continue;
        } else if e.image {
          assert Decide(ctx, i, guard0, h0) == Advance([], guard0, h0);
          i := i + 1;
          continue;
        } else if e.unhandled {
          if UnhandledAt(ctx.sibs, i + 1) {
            guard := false;
          } else {
            assert Decide(ctx, i, guard0, h0) == Advance([], guard0, h0);
            i := i + 1;
            continue;
          }
        } else {
          guard := false;
        }
      }
      if !ctx.collapse && HasMarker(ctx.styles, e, Collapsed) {
        guard := true;
        h := GetIndentValue(ctx.styles[e.id]);
      }
      ghost var rest := step;
      assert rest == Stop || (rest.Advance? && rest.guard == guard && rest.h == h);
      if ctx.considerListsIndented && ctx.collapse {
        if Is(ctx.styles, e, UnindentedListCss) && e.tag != P {
          if FirstItemFiller(e) {
            assert rest == Stop;
            break;
          }
        }
      }
      if g1 {
        assert rest == Advance([[e]], guard, h);
        targets := targets + [[e]];
      } else if g2 {
        assert rest == Advance([e.children], guard, h);
        targets := targets + [e.children];
      } else if g3 {
        if ctx.collapse {
          assert rest == Advance([CollapseExtract(e)], guard, h);
          targets := targets + [CollapseExtract(e)];
        } else {
          assert rest == Advance([HiddenDescendants(ctx.styles, e)], guard, h);
          targets := targets + [HiddenDescendants(ctx.styles, e)];
        }
      } else if e.image {
        assert rest == Advance([[e]], guard, h);
        targets := targets + [[e]];
      } else if e.unhandled {
        if UnhandledAt(ctx.sibs, i + 1) {
          assert rest == Stop;
          break;
        }
        assert rest == Advance([], guard, h);
      } else {
        assert rest == Stop;
        break;
      }
      i := i + 1;
    }
  }

  // ---- properties of the walk ----

  predicate Grouped(ctx: Ctx, e: Node) {
    G1(ctx, e) || G2(ctx, e) || G3(ctx, e)
  }

  /** Elements the walk passes over without looking further while collapsing:
      already hidden ones that belong to a group. */
  predicate AlreadyHidden(ctx: Ctx, e: Node) {
    ctx.collapse && !e.shown && Grouped(ctx, e)
  }

  /** The empty-list boundary of the `considerListsIndented` heuristic. */
  predicate EmptyListStop(ctx: Ctx, e: Node) {
    ctx.considerListsIndented && ctx.collapse &&
    Is(ctx.styles, e, UnindentedListCss) && e.tag != P && FirstItemFiller(e)
  }

  lemma {:induction false} WalkAccumulates(ctx: Ctx, i: nat, guard: bool, h: int, acc: seq<Target>)
    ensures Walk(ctx, i, guard, h, acc) == acc + Walk(ctx, i, guard, h, [])
    decreases |ctx.sibs| - i
  {
    if i < |ctx.sibs| {
      match Decide(ctx, i, guard, h)
      case Stop =>
      case Advance(add, guard', h') =>
        var rest := Walk(ctx, i + 1, guard', h', []);
        WalkAccumulates(ctx, i + 1, guard', h', acc + add);
        WalkAccumulates(ctx, i + 1, guard', h', [] + add);
        AppendEmpty(acc, add);
        AppendAssoc(acc, add, rest);
    }
  }

  /** Every element a target holds lies in the family of a sibling at or
      after `i` that is not already hidden. */
  predicate WithinFrom(ctx: Ctx, targets: seq<Target>, i: nat) {
    forall t, x :: t in targets && x in t ==>
      exists j :: i <= j < |ctx.sibs| && !AlreadyHidden(ctx, ctx.sibs[j]) && x in Family(ctx.sibs[j])
  }

  lemma DecideWithin(ctx: Ctx, i: nat, guard: bool, h: int)
    requires i < |ctx.sibs|
    ensures Decide(ctx, i, guard, h).Advance? && Decide(ctx, i, guard, h).add != [] ==>
              !AlreadyHidden(ctx, ctx.sibs[i])
    ensures Decide(ctx, i, guard, h).Advance? ==>
              forall t, x :: t in Decide(ctx, i, guard, h).add && x in t ==> x in Family(ctx.sibs[i])
  {
    var e := ctx.sibs[i];
    forall k | 0 <= k < |e.children|
      ensures e.children[k] in Family(e)
    {
      ChildIsDescendant(e, k);
    }
  }

  /** The walk's targets come from siblings at or after its start, and never
      from an already hidden one. */
  lemma {:induction false} WalkWithin(ctx: Ctx, i: nat, guard: bool, h: int)
    ensures WithinFrom(ctx, Walk(ctx, i, guard, h, []), i)
    decreases |ctx.sibs| - i
  {
    if i < |ctx.sibs| {
      match Decide(ctx, i, guard, h)
      case Stop =>
        assert Walk(ctx, i, guard, h, []) == [];
      case Advance(add, guard', h') =>
        assert [] + add == add;
        DecideWithin(ctx, i, guard, h);
        WalkWithin(ctx, i + 1, guard', h');
        WalkAccumulates(ctx, i + 1, guard', h', add);
        WithinFromAppend(ctx, add, Walk(ctx, i + 1, guard', h', []), i);
    }
  }

  lemma WithinFromAppend(ctx: Ctx, add: seq<Target>, rest: seq<Target>, i: nat)
    requires i < |ctx.sibs|
    requires add != [] ==> !AlreadyHidden(ctx, ctx.sibs[i])
    requires forall t, x :: t in add && x in t ==> x in Family(ctx.sibs[i])
    requires WithinFrom(ctx, rest, i + 1)
    ensures WithinFrom(ctx, add + rest, i)
  {
    forall t, x | t in add + rest && x in t
      ensures exists j :: i <= j < |ctx.sibs| && !AlreadyHidden(ctx, ctx.sibs[j]) && x in Family(ctx.sibs[j])
    {
      if t in add {
        assert !AlreadyHidden(ctx, ctx.sibs[i]) && x in Family(ctx.sibs[i]);
      } else {
        assert t in rest;
      }
    }
  }

  /** Distinct siblings do not contain one another. */
  predicate DisjointFamilies(sibs: seq<Node>) {
    forall j, k :: 0 <= j < |sibs| && 0 <= k < |sibs| && j != k ==> sibs[j] !in Family(sibs[k])
  }

  /** No double hiding: while collapsing, a sibling that is already hidden and
      belongs to a group is never among the targets. */
  lemma NoDoubleHiding(ctx: Ctx, start: nat, j: nat)
    requires DisjointFamilies(ctx.sibs)
    requires j < |ctx.sibs| && AlreadyHidden(ctx, ctx.sibs[j])
    ensures forall t :: t in Targets(ctx, start) ==> ctx.sibs[j] !in t
  {
    WalkWithin(ctx, start, false, 0);
  }

  /** While collapsing, a sibling that is already hidden and belongs to a
      group is passed over: the walk goes on after it as if it were absent,
      with the guard and everything collected so far unchanged. */
  lemma AlreadyHiddenSkipped(ctx: Ctx, i: nat, guard: bool, h: int, acc: seq<Target>)
    requires i < |ctx.sibs| && AlreadyHidden(ctx, ctx.sibs[i])
    ensures Walk(ctx, i, guard, h, acc) == Walk(ctx, i + 1, guard, h, acc)
  {
    assert acc + [] == acc;
  }

  // ---- runs, boundaries and opaque elements ----

  /** An element the walk takes as it is: in group 1, not already hidden, not
      a nested collapsed header when expanding, not an empty-list boundary. */
  predicate RunMember(ctx: Ctx, e: Node) {
    G1(ctx, e) && !AlreadyHidden(ctx, e) && !EmptyListStop(ctx, e) &&
    (!ctx.collapse ==> !HasMarker(ctx.styles, e, Collapsed))
  }

  /** An element outside every group that is neither an image nor opaque. */
  predicate Boundary(ctx: Ctx, e: Node) {
    !Grouped(ctx, e) && !e.image && !e.unhandled
  }

  function Singles(sibs: seq<Node>, i: nat, k: nat): seq<Target>
    requires k <= |sibs|
    decreases k - i
  {
    if i >= k then [] else [[sibs[i]]] + Singles(sibs, i + 1, k)
  }

  /** A run of group-1 elements followed by a boundary (or the end): the walk
      targets each element of the run by itself, in order, and nothing after. */
  lemma {:induction false} RunThenBoundary(ctx: Ctx, i: nat, k: nat, h: int)
    requires i <= k <= |ctx.sibs|
    requires forall j :: i <= j < k ==> RunMember(ctx, ctx.sibs[j])
    requires k < |ctx.sibs| ==> Boundary(ctx, ctx.sibs[k])
    ensures Walk(ctx, i, false, h, []) == Singles(ctx.sibs, i, k)
    decreases k - i
  {
    if i < k {
      assert Walk(ctx, i, false, h, []) == [[ctx.sibs[i]]] + Walk(ctx, i + 1, false, h, []) by {
        DecidePlain(ctx, i, h);
        WalkCons(ctx, i, h, [ctx.sibs[i]]);
      }
      RunThenBoundary(ctx, i + 1, k, h);
    } else if k < |ctx.sibs| {
      assert Walk(ctx, k, false, h, []) == [] by {
        DecideBoundary(ctx, k, h);
      }
    }
  }

  lemma WalkCons(ctx: Ctx, i: nat, h: int, t: Target)
    requires i < |ctx.sibs| && Decide(ctx, i, false, h) == Advance([t], false, h)
    ensures Walk(ctx, i, false, h, []) == [t] + Walk(ctx, i + 1, false, h, [])
  {
    WalkAccumulates(ctx, i + 1, false, h, [] + [t]);
    assert [] + [t] == [t];
  }

  lemma DecidePlain(ctx: Ctx, i: nat, h: int)
    requires i < |ctx.sibs| && RunMember(ctx, ctx.sibs[i])
    ensures Decide(ctx, i, false, h) == Advance([[ctx.sibs[i]]], false, h)
  {
  }

  lemma DecideBoundary(ctx: Ctx, i: nat, h: int)
    requires i < |ctx.sibs| && Boundary(ctx, ctx.sibs[i])
    ensures Decide(ctx, i, false, h) == Stop
  {
  }

  /** An image outside every group contributes itself and does not start a guard. */
  lemma DecideImage(ctx: Ctx, i: nat, h: int)
    requires i < |ctx.sibs| && ctx.sibs[i].image
    requires !Grouped(ctx, ctx.sibs[i]) && !EmptyListStop(ctx, ctx.sibs[i])
    requires !ctx.collapse ==> !HasMarker(ctx.styles, ctx.sibs[i], Collapsed)
    ensures Decide(ctx, i, false, h) == Advance([[ctx.sibs[i]]], false, h)
  {
  }

  /** While the subsection guard is active, an image is passed over and the
      guard stays on. */
  lemma GuardSkipsImage(ctx: Ctx, i: nat, h: int)
    requires i < |ctx.sibs| && ctx.sibs[i].image && !AlreadyHidden(ctx, ctx.sibs[i])
    ensures Decide(ctx, i, true, h) == Advance([], true, h)
  {
  }

  /** The guard ends at the first element it does not pass over, and that
      element is then treated exactly as if there had been no guard. */
  lemma GuardEnds(ctx: Ctx, i: nat, h: int)
    requires i < |ctx.sibs| && !AlreadyHidden(ctx, ctx.sibs[i])
    requires !Is(ctx.styles, ctx.sibs[i], SubsectionCss(ctx.tables, h)) && !ctx.sibs[i].image
    requires ctx.sibs[i].unhandled ==> UnhandledAt(ctx.sibs, i + 1)
    ensures Decide(ctx, i, true, h) == Decide(ctx, i, false, h)
  {
  }

  /** Two opaque elements in a row end the walk before the first of them. */
  lemma OpaquePairStops(ctx: Ctx, i: nat, guard: bool, h: int, acc: seq<Target>)
    requires i + 1 < |ctx.sibs| && ctx.sibs[i].unhandled && ctx.sibs[i + 1].unhandled
    requires !Grouped(ctx, ctx.sibs[i]) && !ctx.sibs[i].image
    requires guard ==> !Is(ctx.styles, ctx.sibs[i], SubsectionCss(ctx.tables, h))
    ensures Walk(ctx, i, guard, h, acc) == acc
  {
    assert Decide(ctx, i, guard, h) == Stop;
  }

  /** While collapsing with lists counted as indented, an unindented list
      whose first item holds only the filler ends the walk before it, even
      when it belongs to a group. (The subsection guard is only ever set while
      expanding, so it is off here.) */
  lemma EmptyListEndsWalk(ctx: Ctx, i: nat, h: int, acc: seq<Target>)
    requires i < |ctx.sibs| && EmptyListStop(ctx, ctx.sibs[i]) && !AlreadyHidden(ctx, ctx.sibs[i])
    ensures Walk(ctx, i, false, h, acc) == acc
  {
    assert Decide(ctx, i, false, h) == Stop;
  }

  /** A single opaque element is passed over: it adds nothing and the walk
      goes on with the next sibling as before. */
  lemma OpaqueSingleSkipped(ctx: Ctx, i: nat, guard: bool, h: int, acc: seq<Target>)
    requires i < |ctx.sibs| && ctx.sibs[i].unhandled && !UnhandledAt(ctx.sibs, i + 1)
    requires !Grouped(ctx, ctx.sibs[i]) && !ctx.sibs[i].image && !EmptyListStop(ctx, ctx.sibs[i])
    requires !ctx.collapse ==> !HasMarker(ctx.styles, ctx.sibs[i], Collapsed)
    ensures Walk(ctx, i, guard, h, acc) == Walk(ctx, i + 1, guard, h, acc)
  {
    var d := Decide(ctx, i, guard, h);
    if guard && Is(ctx.styles, ctx.sibs[i], SubsectionCss(ctx.tables, h)) {
      assert d == Advance([], guard, h);
    } else {
      assert d == Advance([], guard, h);
    }
    assert acc + [] == acc;
  }

  // ---- the subsection guard ----

  /** While the guard for indentation `h` is active, elements matching the
      subsection selectors, indented strictly deeper than `h`, are passed over. */
  lemma {:induction false} GuardSkipsRun(ctx: Ctx, i: nat, k: nat, h: int, acc: seq<Target>)
    requires i <= k <= |ctx.sibs|
    requires forall j :: i <= j < k ==> !AlreadyHidden(ctx, ctx.sibs[j]) &&
                                        Is(ctx.styles, ctx.sibs[j], SubsectionCss(ctx.tables, h))
    ensures Walk(ctx, i, true, h, acc) == Walk(ctx, k, true, h, acc)
    decreases k - i
  {
    if i < k {
      assert Walk(ctx, i, true, h, acc) == Walk(ctx, i + 1, true, h, acc) by {
        DecideGuardSkip(ctx, i, h);
        WalkSkip(ctx, i, true, h, acc);
      }
      GuardSkipsRun(ctx, i + 1, k, h, acc);
    }
  }

  lemma WalkSkip(ctx: Ctx, i: nat, guard: bool, h: int, acc: seq<Target>)
    requires i < |ctx.sibs| && Decide(ctx, i, guard, h) == Advance([], guard, h)
    ensures Walk(ctx, i, guard, h, acc) == Walk(ctx, i + 1, guard, h, acc)
  {
    assert acc + [] == acc;
  }

  lemma DecideGuardSkip(ctx: Ctx, i: nat, h: int)
    requires i < |ctx.sibs| && !AlreadyHidden(ctx, ctx.sibs[i])
    requires Is(ctx.styles, ctx.sibs[i], SubsectionCss(ctx.tables, h))
    ensures Decide(ctx, i, true, h) == Advance([], true, h)
  {
  }

  /** Expanding past a nested collapsed header: the header itself is revealed,
      and the run of deeper elements after it stays hidden. */
  lemma NestedCollapsedHeader(ctx: Ctx, i: nat, k: nat, h: int, acc: seq<Target>)
    requires !ctx.collapse && i < k <= |ctx.sibs|
    requires G1(ctx, ctx.sibs[i]) && HasMarker(ctx.styles, ctx.sibs[i], Collapsed)
    requires var hh := GetIndentValue(ctx.styles[ctx.sibs[i].id]);
             forall j :: i < j < k ==> Is(ctx.styles, ctx.sibs[j], SubsectionCss(ctx.tables, hh))
    ensures var hh := GetIndentValue(ctx.styles[ctx.sibs[i].id]);
            Walk(ctx, i, false, h, acc) == Walk(ctx, k, true, hh, acc + [[ctx.sibs[i]]])
  {
    var hh := GetIndentValue(ctx.styles[ctx.sibs[i].id]);
    assert Decide(ctx, i, false, h) == Advance([[ctx.sibs[i]]], true, hh);
    GuardSkipsRun(ctx, i + 1, k, hh, acc + [[ctx.sibs[i]]]);
  }

  // ---- block quotes and admonitions ----

  /** An element indented through its children (group 2 and not group 1)
      contributes all its children as one collection. */
  lemma ChildrenTakenTogether(ctx: Ctx, i: nat, h: int)
    requires i < |ctx.sibs|
    requires var e := ctx.sibs[i];
             G2(ctx, e) && !G1(ctx, e) && !AlreadyHidden(ctx, e) && !EmptyListStop(ctx, e)
    ensures Decide(ctx, i, false, h).Advance? && Decide(ctx, i, false, h).add == [ctx.sibs[i].children]
  {
  }

  // ---- lists ----

  /** Collapsing takes from a list only what lies under its first item. */
  lemma CollapseTakesFirstItem(e: Node)
    ensures forall x :: x in CollapseExtract(e) ==> |e.children| > 0 && x in Descendants(e.children[0])
  {
    if |e.children| > 0 && e.children[0].tag == Item && |e.children[0].children| > 0 {
      var li := e.children[0];
      var first := li.children[0];
      ChildIsDescendant(li, 0);
      forall k | 0 <= k < |first.children|
        ensures first.children[k] in Descendants(li)
      {
        ChildIsDescendant(first, k);
        DescendantOfChild(li, 0, first.children[k]);
      }
    }
  }

  /** Expanding takes from a list every descendant carrying `hidden`, and only those. */
  lemma ExpandTakesAllHidden(styles: Styles, e: Node, x: Node)
    ensures x in HiddenDescendants(styles, e) <==> x in Descendants(e) && HasMarker(styles, x, Hidden)
  {
  }

  /** A list that is in group 3 and in no earlier group contributes, when
      collapsing, its first-item extract and, when expanding, all its hidden
      descendants. */
  lemma ListContribution(ctx: Ctx, i: nat)
    requires i < |ctx.sibs|
    requires var e := ctx.sibs[i];
             G3(ctx, e) && !G1(ctx, e) && !G2(ctx, e) && !AlreadyHidden(ctx, e) && !EmptyListStop(ctx, e)
    ensures var e := ctx.sibs[i];
            Decide(ctx, i, false, 0).Advance? &&
            Decide(ctx, i, false, 0).add ==
              [if ctx.collapse then CollapseExtract(e) else HiddenDescendants(ctx.styles, e)]
  {
  }
}
