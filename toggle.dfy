/**
 * Putting the `hidden` marker on, or taking it off, the elements a section
 * walk collected (trilium-collapsible.js:614-646).
 *
 * `MarkAll` and `UnmarkAll` edit each collected element's own style. The
 * source edits a jQuery collection as one unit instead; `ApplyAsWritten`
 * models that, and `AsWrittenLosesStyle` shows an element whose style it
 * destroys.
 */
module Toggle {
  import opened JsStrings
  import opened Dom
  import opened Markers
  import opened Selectors
  import opened Walker

  /** `$(x).attr('style')`: the style if the element has one. */
  function StyleOpt(styles: Styles, x: Node): Option<string> {
    if x.id in styles then Some(styles[x.id]) else None
  }

  /** The element type `toggleSectionVisibility` passes to `addMarker`/`removeMarker`. */
  function TypeOf(x: Node): ElementType {
    if x.image then Img else if x.tag == SpanTag then SpanType else Text
  }

  function Ids(xs: seq<Node>): set<nat> {
    set x | x in xs :: x.id
  }

  /** Every element of every target, in order. */
  function Flatten(targets: seq<Target>): (r: seq<Node>)
    ensures forall x :: x in r <==> exists t :: t in targets && x in t
  {
    if targets == [] then []
    else
      var init := targets[..|targets| - 1];
      var r := Flatten(init) + targets[|targets| - 1];
      assert forall t :: t in targets <==> t in init || t == targets[|targets| - 1];
      r
  }

  lemma IdsLast(xs: seq<Node>)
    requires xs != []
    ensures Ids(xs) == Ids(xs[..|xs| - 1]) + {xs[|xs| - 1].id}
  {
    assert xs == xs[..|xs| - 1] + [xs[|xs| - 1]];
    assert forall x :: x in xs <==> x in xs[..|xs| - 1] || x == xs[|xs| - 1];
  }

  // ---- marking element by element ----

  /** `addMarker` applied to each element of `xs` in turn, each reading its own current style. */
  function MarkAll(styles: Styles, xs: seq<Node>, m: Marker): (r: Styles)
    ensures r.Keys == styles.Keys + Ids(xs)
  {
    if xs == [] then styles
    else
      var x := xs[|xs| - 1];
      var s := MarkAll(styles, xs[..|xs| - 1], m);
      IdsLast(xs);
      s[x.id := AddMarker(StyleOpt(s, x), m, TypeOf(x))]
  }

  /** `removeMarker` applied to each element of `xs` in turn. */
  function UnmarkAll(styles: Styles, xs: seq<Node>, m: Marker): (r: Styles)
    ensures r.Keys == styles.Keys + Ids(xs)
  {
    if xs == [] then styles
    else
      var x := xs[|xs| - 1];
      var s := UnmarkAll(styles, xs[..|xs| - 1], m);
      IdsLast(xs);
      s[x.id := RemoveMarker(StyleOpt(s, x), m, TypeOf(x))]
  }

  /** One more element marked: the fold over `xs[..n + 1]` is the fold over
      `xs[..n]` followed by `addMarker` on `xs[n]`. */
  lemma MarkAllStep(styles: Styles, xs: seq<Node>, m: Marker, n: nat)
    requires n < |xs|
    ensures var s := MarkAll(styles, xs[..n], m);
            MarkAll(styles, xs[..n + 1], m) == s[xs[n].id := AddMarker(StyleOpt(s, xs[n]), m, TypeOf(xs[n]))]
  {
    assert xs[..n + 1][..n] == xs[..n];
  }

  /** One more element unmarked. */
  lemma UnmarkAllStep(styles: Styles, xs: seq<Node>, m: Marker, n: nat)
    requires n < |xs|
    ensures var s := UnmarkAll(styles, xs[..n], m);
            UnmarkAll(styles, xs[..n + 1], m) == s[xs[n].id := RemoveMarker(StyleOpt(s, xs[n]), m, TypeOf(xs[n]))]
  {
    assert xs[..n + 1][..n] == xs[..n];
  }

  /** Marking touches no element outside `xs`. */
  lemma {:induction false} MarkAllKeeps(styles: Styles, xs: seq<Node>, m: Marker, id: nat)
    requires id !in Ids(xs)
    ensures id in MarkAll(styles, xs, m) <==> id in styles
    ensures id in styles ==> MarkAll(styles, xs, m)[id] == styles[id]
    decreases |xs|
  {
    if xs != [] {
      assert xs == xs[..|xs| - 1] + [xs[|xs| - 1]];
      MarkAllKeeps(styles, xs[..|xs| - 1], m, id);
    }
  }

  /** Unmarking touches no element outside `xs`. */
  lemma {:induction false} UnmarkAllKeeps(styles: Styles, xs: seq<Node>, m: Marker, id: nat)
    requires id !in Ids(xs)
    ensures id in UnmarkAll(styles, xs, m) <==> id in styles
    ensures id in styles ==> UnmarkAll(styles, xs, m)[id] == styles[id]
    decreases |xs|
  {
    if xs != [] {
      assert xs == xs[..|xs| - 1] + [xs[|xs| - 1]];
      UnmarkAllKeeps(styles, xs[..|xs| - 1], m, id);
    }
  }

  /** After marking, every element of `xs` carries the marker. */
  lemma {:induction false} MarkAllMarks(styles: Styles, xs: seq<Node>, m: Marker)
    ensures forall x :: x in xs ==> HasMarker(MarkAll(styles, xs, m), x, m)
    decreases |xs|
  {
    if xs != [] {
      var init := xs[..|xs| - 1];
      var x := xs[|xs| - 1];
      assert xs == init + [x];
      MarkAllMarks(styles, init, m);
    }
  }

  // ---- decorated styles ----

  /** `s` is a decorated style carrying exactly the markers `ms`. */
  ghost predicate DecoratedWith(s: string, ms: set<Marker>) {
    exists ts :: WellFormed(ts) && EndsPlain(ts) && MarkSet(ts) == ms && Render(ts) == s
  }

  lemma DecoratedHas(s: string, ms: set<Marker>, q: Marker)
    requires DecoratedWith(s, ms)
    ensures Includes(s, Sentinel(q)) <==> q in ms
  {
    var ts :| WellFormed(ts) && EndsPlain(ts) && MarkSet(ts) == ms && Render(ts) == s;
    IncludesRender(ts, q);
  }

  lemma RemoveMarkerDecorated(style: Option<string>, ms: set<Marker>, m: Marker, t: ElementType)
    requires style.Some? ==> DecoratedWith(style.value, ms)
    ensures DecoratedWith(RemoveMarker(style, m, t), if style.Some? then ms - {m} else {})
  {
    if style.Some? {
      var ts :| WellFormed(ts) && EndsPlain(ts) && MarkSet(ts) == ms && Render(ts) == style.value;
      RemoveMarkerRender(ts, m, t);
      StripFacts(ts, m);
    } else {
      DefaultStyleDecorated(t);
      var ts := PlainTokens(DefaultStyle(t));
      RemoveMarkerRender(ts, m, t);
      StripFacts(ts, m);
      StripShrinks(ts, m);
    }
  }

  /** Unmarking leaves each decorated style decorated, carrying the same
      markers less `m` if its element is in `xs`; an element of `xs` without
      a style ends with its type's default style, which carries none. */
  lemma {:induction false} UnmarkAllDecorated(styles: Styles, xs: seq<Node>, m: Marker, id: nat, ms: set<Marker>)
    requires id in styles ==> DecoratedWith(styles[id], ms)
    requires id in styles || id in Ids(xs)
    ensures id in UnmarkAll(styles, xs, m)
    ensures DecoratedWith(UnmarkAll(styles, xs, m)[id],
              if id !in Ids(xs) then ms else if id in styles then ms - {m} else {})
    decreases |xs|
  {
    if xs != [] {
      var init := xs[..|xs| - 1];
      var x := xs[|xs| - 1];
      IdsLast(xs);
      if id != x.id {
        UnmarkAllDecorated(styles, init, m, id, ms);
      } else if id in styles || id in Ids(init) {
        UnmarkAllDecorated(styles, init, m, id, ms);
        UnmarkLastDecorated(styles, xs, m, ms, if id !in Ids(init) then ms else if id in styles then ms - {m} else {});
      } else {
        UnmarkAllKeeps(styles, init, m, id);
        UnmarkLastDecorated(styles, xs, m, ms, ms);
      }
    }
  }

  lemma UnmarkLastDecorated(styles: Styles, xs: seq<Node>, m: Marker, ms: set<Marker>, before: set<Marker>)
    requires xs != []
    requires var s := UnmarkAll(styles, xs[..|xs| - 1], m);
             var x := xs[|xs| - 1];
             x.id in s ==> DecoratedWith(s[x.id], before)
    requires xs[|xs| - 1].id in styles ==> before - {m} == ms - {m}
    requires xs[|xs| - 1].id !in styles ==> xs[|xs| - 1].id in UnmarkAll(styles, xs[..|xs| - 1], m) ==> before - {m} == {}
    ensures var x := xs[|xs| - 1];
            DecoratedWith(UnmarkAll(styles, xs, m)[x.id], if x.id in styles then ms - {m} else {})
  {
    var s := UnmarkAll(styles, xs[..|xs| - 1], m);
    var x := xs[|xs| - 1];
    RemoveMarkerDecorated(StyleOpt(s, x), before, m, TypeOf(x));
  }

  /** Expanding clears the marker from every element it touches and keeps
      every other marker those elements carry. */
  lemma UnmarkAllClears(styles: Styles, xs: seq<Node>, m: Marker, x: Node, ms: set<Marker>, q: Marker)
    requires x in xs && q != m
    requires x.id in styles ==> DecoratedWith(styles[x.id], ms)
    ensures !HasMarker(UnmarkAll(styles, xs, m), x, m)
    ensures HasMarker(UnmarkAll(styles, xs, m), x, q) <==> x.id in styles && q in ms
  {
    UnmarkAllDecorated(styles, xs, m, x.id, ms);
    var after := UnmarkAll(styles, xs, m)[x.id];
    var ms' := if x.id in styles then ms - {m} else {};
    DecoratedHas(after, ms', m);
    DecoratedHas(after, ms', q);
  }

  // ---- collapse then expand ----

  /** `s` is a decorated style that gives back `ts` once the marker `m` is stripped. */
  ghost predicate StripsTo(s: string, m: Marker, ts: seq<Token>) {
    exists ts' :: WellFormed(ts') && EndsPlain(ts') && Render(ts') == s && Strip(ts', m) == ts
  }

  lemma StripInsertMarkAny(ts: seq<Token>, m: Marker)
    requires EndsPlain(ts)
    ensures Strip(InsertMark(ts, m), m) == Strip(ts, m)
  {
    var init := ts[..|ts| - 1];
    var last := ts[|ts| - 1];
    assert ts == init + [last];
    assert InsertMark(ts, m) == init + [Mark(m), last];
    StripAppend(init, [Mark(m), last], m);
    StripAppend(init, [last], m);
    StripCons(last, [], m);
    StripCons(Mark(m), [last], m);
    assert [Mark(m), last] == [Mark(m)] + [last];
  }

  lemma AddMarkerStripsTo(style: string, m: Marker, t: ElementType, ts: seq<Token>)
    requires StripsTo(style, m, ts)
    ensures StripsTo(AddMarker(Some(style), m, t), m, ts)
  {
    var ts' :| WellFormed(ts') && EndsPlain(ts') && Render(ts') == style && Strip(ts', m) == ts;
    AddMarkerRender(ts', m, t);
    InsertMarkFacts(ts', m);
    StripInsertMarkAny(ts', m);
    assert Render(InsertMark(ts', m)) == AddMarker(Some(style), m, t);
  }

  lemma {:induction false} MarkAllStripsTo(styles: Styles, xs: seq<Node>, m: Marker, id: nat, ts: seq<Token>)
    requires id in styles && StripsTo(styles[id], m, ts)
    ensures id in MarkAll(styles, xs, m) && StripsTo(MarkAll(styles, xs, m)[id], m, ts)
    decreases |xs|
  {
    if xs != [] {
      var init := xs[..|xs| - 1];
      var x := xs[|xs| - 1];
      MarkAllStripsTo(styles, init, m, id, ts);
      if x.id == id {
        AddMarkerStripsTo(MarkAll(styles, init, m)[id], m, TypeOf(x), ts);
      }
    }
  }

  lemma {:induction false} UnmarkAllRestores(styles: Styles, xs: seq<Node>, m: Marker, id: nat, ts: seq<Token>)
    requires WellFormed(ts) && m !in MarkSet(ts)
    requires id in styles && StripsTo(styles[id], m, ts)
    requires id in Ids(xs)
    ensures id in UnmarkAll(styles, xs, m) && UnmarkAll(styles, xs, m)[id] == Render(ts)
    decreases |xs|
  {
    var init := xs[..|xs| - 1];
    var x := xs[|xs| - 1];
    IdsLast(xs);
    var s := UnmarkAll(styles, init, m);
    if x.id != id {
      UnmarkAllRestores(styles, init, m, id, ts);
    } else {
      assert s[id] == Render(ts) || StripsTo(s[id], m, ts) by {
        if id in Ids(init) {
          UnmarkAllRestores(styles, init, m, id, ts);
        } else {
          UnmarkAllKeeps(styles, init, m, id);
        }
      }
      RemoveRestores(s[id], m, TypeOf(x), ts);
    }
  }

  /** Removing the marker from a style that is already restored, or that
      strips to `ts`, gives `ts`'s rendering. */
  lemma RemoveRestores(style: string, m: Marker, t: ElementType, ts: seq<Token>)
    requires WellFormed(ts) && m !in MarkSet(ts)
    requires style == Render(ts) || StripsTo(style, m, ts)
    ensures RemoveMarker(Some(style), m, t) == Render(ts)
  {
    if style == Render(ts) {
      RemoveMarkerRender(ts, m, t);
      StripShrinks(ts, m);
    } else {
      var ts' :| WellFormed(ts') && EndsPlain(ts') && Render(ts') == style && Strip(ts', m) == ts;
      RemoveMarkerRender(ts', m, t);
    }
  }

  /** Collapse then expand over the same elements gives every decorated style
      that lacked the marker back exactly, however often an element occurs. */
  lemma MarkUnmarkRoundTrip(styles: Styles, xs: seq<Node>, m: Marker, id: nat)
    requires id in styles
    requires exists ts :: WellFormed(ts) && EndsPlain(ts) && m !in MarkSet(ts) && Render(ts) == styles[id]
    ensures id in UnmarkAll(MarkAll(styles, xs, m), xs, m)
    ensures UnmarkAll(MarkAll(styles, xs, m), xs, m)[id] == styles[id]
  {
    var ts :| WellFormed(ts) && EndsPlain(ts) && m !in MarkSet(ts) && Render(ts) == styles[id];
    StripShrinks(ts, m);
    assert StripsTo(styles[id], m, ts);
    MarkAllStripsTo(styles, xs, m, id, ts);
    if id in Ids(xs) {
      UnmarkAllRestores(MarkAll(styles, xs, m), xs, m, id, ts);
    } else {
      MarkAllKeeps(styles, xs, m, id);
      UnmarkAllKeeps(MarkAll(styles, xs, m), xs, m, id);
    }
  }

  // ---- the collection-at-a-time edit of the source ----

  /** `$(t).is('.image')` and `$(t).is('span')` on a collection: true when
      any member matches. */
  function CollectionType(t: Target): (r: ElementType)
    ensures |t| == 1 ==> r == TypeOf(t[0])
  {
    if exists x :: x in t && x.image then Img
    else if exists x :: x in t && x.tag == SpanTag then SpanType
    else Text
  }

  /** `$(t).attr('style', s)`: every member of the collection gets `s`. */
  function WriteAll(styles: Styles, t: Target, s: string): (r: Styles)
    ensures r.Keys == styles.Keys + Ids(t)
    ensures forall x :: x in t ==> r[x.id] == s
    ensures forall id :: id in styles && id !in Ids(t) ==> r[id] == styles[id]
  {
    if t == [] then styles
    else
      IdsLast(t);
      assert forall x :: x in t ==> x in t[..|t| - 1] || x == t[|t| - 1];
      WriteAll(styles, t[..|t| - 1], s)[t[|t| - 1].id := s]
  }

  /** The source's marking loop: for each target, the first member's style
      is read, the marker added (or removed), and the result written to every
      member; an empty collection reads no style and writes nothing. */
  function ApplyAsWritten(styles: Styles, targets: seq<Target>, m: Marker, add: bool): (r: Styles)
    ensures r.Keys == styles.Keys + Ids(Flatten(targets))
    ensures forall id :: id in styles && id !in Ids(Flatten(targets)) ==> r[id] == styles[id]
  {
    if targets == [] then styles
    else
      var s := ApplyAsWritten(styles, targets[..|targets| - 1], m, add);
      var t := targets[|targets| - 1];
      FlattenIdsLast(targets);
      if t == [] then s
      else
        WriteAll(s, t, Edit(StyleOpt(s, t[0]), m, CollectionType(t), add))
  }

  lemma IdsAppend(a: seq<Node>, b: seq<Node>)
    ensures Ids(a + b) == Ids(a) + Ids(b)
  {
    assert forall x :: x in a + b <==> x in a || x in b;
  }

  lemma FlattenIdsLast(targets: seq<Target>)
    requires targets != []
    ensures Ids(Flatten(targets)) == Ids(Flatten(targets[..|targets| - 1])) + Ids(targets[|targets| - 1])
  {
    assert Flatten(targets) == Flatten(targets[..|targets| - 1]) + targets[|targets| - 1];
    IdsAppend(Flatten(targets[..|targets| - 1]), targets[|targets| - 1]);
  }

  /** `addMarker` or `removeMarker`. */
  function Edit(style: Option<string>, m: Marker, t: ElementType, add: bool): string {
    if add then AddMarker(style, m, t) else RemoveMarker(style, m, t)
  }

  /** One more single-element target: the source's edit of it is the
      element's own edit. */
  lemma AsWrittenSingleStep(styles: Styles, targets: seq<Target>, m: Marker, add: bool)
    requires targets != [] && |targets[|targets| - 1]| == 1
    ensures var s := ApplyAsWritten(styles, targets[..|targets| - 1], m, add);
            var x := targets[|targets| - 1][0];
            ApplyAsWritten(styles, targets, m, add) == s[x.id := Edit(StyleOpt(s, x), m, TypeOf(x), add)]
  {
    var s := ApplyAsWritten(styles, targets[..|targets| - 1], m, add);
    var t := targets[|targets| - 1];
    WriteOne(s, t, Edit(StyleOpt(s, t[0]), m, TypeOf(t[0]), add));
  }

  lemma WriteOne(styles: Styles, t: Target, s: string)
    requires |t| == 1
    ensures WriteAll(styles, t, s) == styles[t[0].id := s]
  {
    assert t[..0] == [];
  }

  /** Where every target is a single element, as for group 1 and images, the
      source's edit and the element-by-element edit agree. */
  lemma {:induction false} AsWrittenAgreesOnSingles(styles: Styles, targets: seq<Target>, m: Marker, add: bool)
    requires forall t :: t in targets ==> |t| == 1
    ensures add ==> ApplyAsWritten(styles, targets, m, add) == MarkAll(styles, Flatten(targets), m)
    ensures !add ==> ApplyAsWritten(styles, targets, m, add) == UnmarkAll(styles, Flatten(targets), m)
    decreases |targets|
  {
    if targets != [] {
      var init := targets[..|targets| - 1];
      var t := targets[|targets| - 1];
      assert forall u :: u in init ==> u in targets;
      AsWrittenAgreesOnSingles(styles, init, m, add);
      assert t in targets;
      AsWrittenSingleStep(styles, targets, m, add);
      var x := t[0];
      var s := ApplyAsWritten(styles, init, m, add);
      assert Edit(StyleOpt(s, x), m, TypeOf(x), add) ==
             if add then AddMarker(StyleOpt(s, x), m, TypeOf(x)) else RemoveMarker(StyleOpt(s, x), m, TypeOf(x));
      var xs := Flatten(targets);
      assert xs == Flatten(init) + t;
      assert xs[..|xs| - 1] == Flatten(init) && xs[|xs| - 1] == x;
    }
  }

  /** Two text elements collected as one collection: collapsing gives both
      the first one's style with the marker added, and expanding gives both
      the first one's original style. */
  lemma AsWrittenPair(styles: Styles, p1: Node, p2: Node, m: Marker)
    requires p1.id != p2.id && TypeOf(p1) == Text && TypeOf(p2) == Text
    requires p1.id in styles
    requires forall i :: 0 <= i < |styles[p1.id]| ==> Plain(styles[p1.id][i])
    ensures var collapsed := ApplyAsWritten(styles, [[p1, p2]], m, true);
            collapsed[p2.id] == collapsed[p1.id] &&
            ApplyAsWritten(collapsed, [[p1, p2]], m, false)[p2.id] == styles[p1.id]
  {
    var t := [p1, p2];
    assert CollectionType(t) == Text;
    var marked := AddMarker(Some(styles[p1.id]), m, Text);
    ApplyOneCollection(styles, t, m, true);
    var collapsed := ApplyAsWritten(styles, [t], m, true);
    assert collapsed[p1.id] == marked;
    ApplyOneCollection(collapsed, t, m, false);
    AddThenRemovePlain(styles[p1.id], m, Text);
  }

  lemma ApplyOneCollection(styles: Styles, t: Target, m: Marker, add: bool)
    requires t != []
    ensures ApplyAsWritten(styles, [t], m, add) == WriteAll(styles, t, Edit(StyleOpt(styles, t[0]), m, CollectionType(t), add))
  {
    assert [t][..0] == [];
  }

  /** Element by element, collapse then expand gives back every plain style. */
  lemma RoundTripPlain(styles: Styles, xs: seq<Node>, m: Marker, id: nat)
    requires id in styles && styles[id] != []
    requires forall i :: 0 <= i < |styles[id]| ==> Plain(styles[id][i])
    ensures UnmarkAll(MarkAll(styles, xs, m), xs, m)[id] == styles[id]
  {
    PlainRender(styles[id]);
    MarkUnmarkRoundTrip(styles, xs, m, id);
  }

  /** A block quote whose two paragraphs share an indentation but not the
      rest of their style: collapsing writes the first paragraph's style over
      the second's, so expanding does not give the second its style back.
      Editing element by element gives both back. */
  lemma AsWrittenLosesStyle()
    ensures var p1 := Node(1, P, false, false, true, false, []);
            var p2 := Node(2, P, false, false, true, false, []);
            var styles := map[1 := QuoteFirst, 2 := QuoteSecond];
            var collapsed := ApplyAsWritten(styles, [[p1, p2]], Hidden, true);
            var expanded := ApplyAsWritten(collapsed, [[p1, p2]], Hidden, false);
            var fixedExpanded := UnmarkAll(MarkAll(styles, Flatten([[p1, p2]]), Hidden), Flatten([[p1, p2]]), Hidden);
            collapsed[2] == collapsed[1] &&
            expanded[2] == QuoteFirst && expanded[2] != styles[2] &&
            fixedExpanded[1] == styles[1] && fixedExpanded[2] == styles[2]
  {
    var p1 := Node(1, P, false, false, true, false, []);
    var p2 := Node(2, P, false, false, true, false, []);
    var styles := map[1 := QuoteFirst, 2 := QuoteSecond];
    QuoteStylesPlain();
    AsWrittenPair(styles, p1, p2, Hidden);
    var xs := Flatten([[p1, p2]]);
    RoundTripPlain(styles, xs, Hidden, 1);
    RoundTripPlain(styles, xs, Hidden, 2);
  }

  const QuoteFirst: string := "margin-left:40px;"
  const QuoteSecond: string := "margin-left:40px;text-align:center;"

  lemma QuoteStylesPlain()
    ensures forall i :: 0 <= i < |QuoteFirst| ==> Plain(QuoteFirst[i])
    ensures forall i :: 0 <= i < |QuoteSecond| ==> Plain(QuoteSecond[i])
    ensures QuoteFirst != [] && QuoteSecond != [] && QuoteFirst != QuoteSecond
  {
    assert |QuoteFirst| != |QuoteSecond|;
  }
}
