/**
 * The marker codec: boolean markers stored as comment sentinels `/*<name>*/`
 * inside an element's inline style string (trilium-collapsible.js:59-63,
 * 765-812).
 *
 * Beside the string functions that the widget runs, the module gives a
 * reference model of a "decorated" style: a sequence of tokens, each either a
 * plain character (neither '/' nor '*') or a marker, rendered to the string
 * the element carries. The lemmas show that on decorated styles the string
 * functions act on the marker set exactly as intended.
 */
module Markers {
  import opened JsStrings

  datatype Marker = Collapsible | Collapsed | ListCollapsed | Hidden | Error

  /** The marker glyph, U+25BC, that brackets every marker name. */
  const Arrow: char := '\U{25BC}'

  function Name(m: Marker): (s: string)
    ensures |s| >= 2 && s[0] == Arrow
    ensures forall i :: 0 <= i < |s| ==> s[i] != '/' && s[i] != '*'
  {
    match m
    case Collapsible => [Arrow] + "collapsible" + [Arrow]
    case Collapsed => [Arrow] + "collapsed" + [Arrow]
    case ListCollapsed => [Arrow] + "list-collapsed" + [Arrow]
    case Hidden => [Arrow] + "hidden" + [Arrow]
    case Error => [Arrow] + "error" + [Arrow]
  }

  /** The sentinel `/*<name>*/` whose presence in a style means the marker is set. */
  function Sentinel(m: Marker): (s: string)
    ensures |s| >= 6 && s[0] == '/' && s[1] == '*' && s[|s| - 2] == '*' && s[|s| - 1] == '/'
    ensures forall i :: 1 <= i < |s| - 1 ==> s[i] != '/'
  {
    "/*" + Name(m) + "*/"
  }

  /** Two different sentinels disagree at some position both of them have. */
  lemma SentinelsDiffer(m: Marker, m': Marker)
    requires m != m'
    ensures exists d :: 0 <= d < |Sentinel(m)| && d < |Sentinel(m')| && Sentinel(m)[d] != Sentinel(m')[d]
  {
    var k := if (m == Collapsible && m' == Collapsed) || (m == Collapsed && m' == Collapsible) then 8 else 1;
    NamesDiffer(m, m', k);
    SentinelChar(m, k + 2);
    SentinelChar(m', k + 2);
  }

  /** Between the opening and the closing pair, a sentinel spells the name. */
  lemma SentinelChar(m: Marker, d: nat)
    requires 2 <= d < 2 + |Name(m)|
    ensures d < |Sentinel(m)| && Sentinel(m)[d] == Name(m)[d - 2]
  {
    assert Sentinel(m) == "/*" + (Name(m) + "*/");
  }

  /** The names of two markers differ at their first letter, or, for
      `collapsible` and `collapsed`, at their eighth. */
  lemma NamesDiffer(m: Marker, m': Marker, k: nat)
    requires m != m'
    requires k == if (m == Collapsible && m' == Collapsed) || (m == Collapsed && m' == Collapsible) then 8 else 1
    ensures k < |Name(m)| && k < |Name(m')| && Name(m)[k] != Name(m')[k]
  {
    match m
    case Collapsible =>
    case Collapsed =>
    case ListCollapsed =>
    case Hidden =>
    case Error =>
  }

  /** The element type `addMarker`/`removeMarker` are told about. */
  datatype ElementType = Text | Img | SpanType

  /** The style synthesised for an element that has none. */
  function DefaultStyle(t: ElementType): string {
    match t
    case Text => "margin-left:0px;"
    case Img => "height:auto;"
    case SpanType => "background-color:auto;"
  }

  /** The style `addMarker`/`removeMarker` start from: the element's own, or the default. */
  function BaseStyle(style: Option<string>, t: ElementType): (s: string)
    ensures style.Some? ==> s == style.value
    ensures style.None? ==> s == DefaultStyle(t)
  {
    if style.None? then DefaultStyle(t) else style.value
  }

  /** `toggleMarker`: remove every sentinel of `m` when one is present (and,
      for `collapsible`, every `collapsed` sentinel too); otherwise insert it
      just before the last character. A missing style becomes `defaultStyle`.
      A present sentinel is removed, so the style gets shorter; an absent one
      is added, so the style includes it and is one sentinel longer. */
  function ToggleMarker(style: Option<string>, m: Marker, defaultStyle: string): (r: string)
    ensures var s := if style.None? then defaultStyle else style.value;
            Includes(s, Sentinel(m)) ==> |r| < |s|
    ensures var s := if style.None? then defaultStyle else style.value;
            !Includes(s, Sentinel(m)) ==> |r| == |s| + |Sentinel(m)| && Includes(r, Sentinel(m))
  {
    var s := if style.None? then defaultStyle else style.value;
    if Includes(s, Sentinel(m)) then
      var t := RemoveAll(s, Sentinel(m));
      if m == Collapsible then RemoveAll(t, Sentinel(Collapsed)) else t
    else
      InsertBeforeLastOccurs(s, Sentinel(m));
      IncludesAt(InsertBeforeLast(s, Sentinel(m)), Sentinel(m), if |s| == 0 then 0 else |s| - 1);
      InsertBeforeLast(s, Sentinel(m))
  }

  /** `addMarker`: insert the sentinel before the last character, whether or
      not it is already there (so adding twice stores it twice). The result
      always includes the sentinel and is exactly one sentinel longer than
      the (defaulted) style. */
  function AddMarker(style: Option<string>, m: Marker, t: ElementType): (r: string)
    ensures Includes(r, Sentinel(m))
    ensures |r| == |BaseStyle(style, t)| + |Sentinel(m)|
  {
    var s := BaseStyle(style, t);
    InsertBeforeLastOccurs(s, Sentinel(m));
    IncludesAt(InsertBeforeLast(s, Sentinel(m)), Sentinel(m), if |s| == 0 then 0 else |s| - 1);
    InsertBeforeLast(s, Sentinel(m))
  }

  /** `addMarker` is not idempotent: adding a marker that is already there
      stores a second copy. */
  lemma AddMarkerTwice(style: Option<string>, m: Marker, t: ElementType)
    ensures var once := AddMarker(style, m, t);
            Includes(once, Sentinel(m)) &&
            |AddMarker(Some(once), m, t)| == |once| + |Sentinel(m)| &&
            AddMarker(Some(once), m, t) != once
  {
  }

  /** `removeMarker`: delete every sentinel of `m`. A style without the
      sentinel comes back unchanged; one with it becomes shorter. */
  function RemoveMarker(style: Option<string>, m: Marker, t: ElementType): (r: string)
    ensures !Includes(BaseStyle(style, t), Sentinel(m)) ==> r == BaseStyle(style, t)
    ensures Includes(BaseStyle(style, t), Sentinel(m)) ==> |r| < |BaseStyle(style, t)|
  {
    RemoveAllUnchangedIff(BaseStyle(style, t), Sentinel(m));
    RemoveAll(BaseStyle(style, t), Sentinel(m))
  }

  // ---- the token model of a decorated style ----

  datatype Token = Ch(c: char) | Mark(m: Marker)

  /** Characters that can never start or end a sentinel. */
  predicate Plain(c: char) {
    c != '/' && c != '*'
  }

  predicate WellFormed(ts: seq<Token>) {
    forall i :: 0 <= i < |ts| ==> (ts[i].Ch? ==> Plain(ts[i].c))
  }

  /** The style ends in an ordinary character (as `...;` does). */
  predicate EndsPlain(ts: seq<Token>) {
    |ts| > 0 && ts[|ts| - 1].Ch?
  }

  function RenderToken(t: Token): string {
    match t
    case Ch(c) => [c]
    case Mark(m) => Sentinel(m)
  }

  /** The style string a token sequence stands for. */
  function Render(ts: seq<Token>): string {
    if ts == [] then [] else RenderToken(ts[0]) + Render(ts[1..])
  }

  /** The set of markers a token sequence carries. */
  function MarkSet(ts: seq<Token>): set<Marker> {
    if ts == [] then {}
    else (if ts[0].Mark? then {ts[0].m} else {}) + MarkSet(ts[1..])
  }

  /** The plain text of a token sequence, markers left out. */
  function TextOf(ts: seq<Token>): string {
    if ts == [] then []
    else (if ts[0].Ch? then [ts[0].c] else []) + TextOf(ts[1..])
  }

  /** Drops every `m` token. */
  function Strip(ts: seq<Token>, m: Marker): seq<Token> {
    if ts == [] then []
    else (if ts[0] == Mark(m) then [] else [ts[0]]) + Strip(ts[1..], m)
  }

  /** Adds an `m` token before the last token. */
  function InsertMark(ts: seq<Token>, m: Marker): seq<Token> {
    if ts == [] then [Mark(m)] else ts[..|ts| - 1] + [Mark(m), ts[|ts| - 1]]
  }

  /** The intended effect of toggling `m` on the token model. */
  function ToggleTokens(ts: seq<Token>, m: Marker): seq<Token> {
    if m in MarkSet(ts) then
      (if m == Collapsible then Strip(Strip(ts, m), Collapsed) else Strip(ts, m))
    else InsertMark(ts, m)
  }

  /** The tokens of a string made of plain characters only. */
  function PlainTokens(s: string): (ts: seq<Token>)
    ensures |ts| == |s|
    ensures forall i :: 0 <= i < |s| ==> ts[i] == Ch(s[i])
  {
    if s == [] then [] else [Ch(s[0])] + PlainTokens(s[1..])
  }

  // ---- lemmas on the token model ----

  lemma {:induction false} RenderAppend(a: seq<Token>, b: seq<Token>)
    ensures Render(a + b) == Render(a) + Render(b)
    decreases |a|
  {
    if a == [] {
      AppendEmpty(a, b);
      AppendEmpty(Render(a), Render(b));
    } else {
      TailOfAppend(a, b);
      RenderAppend(a[1..], b);
      AppendAssoc(RenderToken(a[0]), Render(a[1..]), Render(b));
    }
  }

  lemma RenderFirst(ts: seq<Token>)
    requires |ts| > 0 && WellFormed(ts)
    ensures |Render(ts)| > 0
    ensures Render(ts)[0] == (if ts[0].Ch? then ts[0].c else '/')
    ensures Render(ts)[0] != '*'
  {
  }

  lemma {:induction false} PlainRender(s: string)
    requires forall i :: 0 <= i < |s| ==> Plain(s[i])
    ensures WellFormed(PlainTokens(s)) && Render(PlainTokens(s)) == s
    ensures MarkSet(PlainTokens(s)) == {}
    ensures s != [] ==> EndsPlain(PlainTokens(s))
  {
    if s != [] {
      PlainRender(s[1..]);
      assert PlainTokens(s)[1..] == PlainTokens(s[1..]);
    }
  }

  lemma WellFormedTail(ts: seq<Token>)
    requires |ts| > 0 && WellFormed(ts)
    ensures WellFormed(ts[1..])
  {
    forall i | 0 <= i < |ts| - 1
      ensures ts[1..][i].Ch? ==> Plain(ts[1..][i].c)
    {
      assert ts[1..][i] == ts[i + 1];
    }
  }

  /** No occurrence of a sentinel starts inside another marker's sentinel
      when what follows is a decorated style. */
  lemma NoMatchInsideOther(m': Marker, rest: seq<Token>, m: Marker)
    requires m != m' && WellFormed(rest)
    ensures forall j :: 0 <= j < |Sentinel(m')| ==> !OccursAt(Sentinel(m') + Render(rest), Sentinel(m), j)
  {
    forall j | 0 <= j < |Sentinel(m')|
      ensures !OccursAt(Sentinel(m') + Render(rest), Sentinel(m), j)
    {
      NoMatchAt(m', rest, m, j);
    }
  }

  lemma NoMatchAt(m': Marker, rest: seq<Token>, m: Marker, j: nat)
    requires m != m' && WellFormed(rest) && j < |Sentinel(m')|
    ensures !OccursAt(Sentinel(m') + Render(rest), Sentinel(m), j)
  {
    if j == 0 {
      NoMatchAtOpening(m', rest, m);
    } else if j < |Sentinel(m')| - 1 {
      NoMatchInName(m', rest, m, j);
    } else {
      NoMatchAtClosing(m', rest, m);
    }
  }

  /** At the start, the two sentinels themselves disagree. */
  lemma NoMatchAtOpening(m': Marker, rest: seq<Token>, m: Marker)
    requires m != m'
    ensures !OccursAt(Sentinel(m') + Render(rest), Sentinel(m), 0)
  {
    var u := Sentinel(m');
    var p := Sentinel(m);
    var s := u + Render(rest);
    SentinelsDiffer(m, m');
    var d :| 0 <= d < |p| && d < |u| && p[d] != u[d];
    assert s[d] == u[d];
    MismatchAt(s, p, 0, d);
  }

  /** Strictly inside a sentinel there is no '/' to start another. */
  lemma NoMatchInName(m': Marker, rest: seq<Token>, m: Marker, j: nat)
    requires 0 < j < |Sentinel(m')| - 1
    ensures !OccursAt(Sentinel(m') + Render(rest), Sentinel(m), j)
  {
    var s := Sentinel(m') + Render(rest);
    assert s[j] == Sentinel(m')[j];
    MismatchAt(s, Sentinel(m), j, 0);
  }

  /** At the closing '/', the next character is not a '*'. */
  lemma NoMatchAtClosing(m': Marker, rest: seq<Token>, m: Marker)
    requires WellFormed(rest)
    ensures !OccursAt(Sentinel(m') + Render(rest), Sentinel(m), |Sentinel(m')| - 1)
  {
    var u := Sentinel(m');
    var p := Sentinel(m);
    var s := u + Render(rest);
    var j := |u| - 1;
    if j + |p| <= |s| {
      assert |rest| > 0;
      RenderFirst(rest);
      assert s[j + 1] == Render(rest)[0];
    }
    MismatchAt(s, p, j, 1);
  }

  lemma RenderCons(t: Token, rest: seq<Token>)
    ensures Render([t] + rest) == RenderToken(t) + Render(rest)
  {
    TailOfAppend([t], rest);
  }

  lemma StripCons(t: Token, rest: seq<Token>, m: Marker)
    ensures Strip([t] + rest, m) == (if t == Mark(m) then [] else [t]) + Strip(rest, m)
  {
    TailOfAppend([t], rest);
  }

  /** `replaceAll` of a sentinel on a decorated style deletes exactly that marker's tokens. */
  lemma {:induction false} RemoveAllRender(ts: seq<Token>, m: Marker)
    requires WellFormed(ts)
    ensures RemoveAll(Render(ts), Sentinel(m)) == Render(Strip(ts, m))
    decreases |ts|
  {
    var p := Sentinel(m);
    if ts != [] {
      var t := ts[0];
      var rest := ts[1..];
      assert ts == [t] + rest;
      WellFormedTail(ts);
      RemoveAllRender(rest, m);
      RenderCons(t, rest);
      StripCons(t, rest, m);
      var r := Render(rest);
      if t.Ch? {
        RemoveAllChar(t.c, r, p);
        RenderCons(t, Strip(rest, m));
      } else if t.m == m {
        RemoveAllAtFront(r, p);
        assert Strip(ts, m) == Strip(rest, m);
      } else {
        NoMatchInsideOther(t.m, rest, m);
        RemoveAllSkipsPrefix(Sentinel(t.m), r, p);
        RenderCons(t, Strip(rest, m));
      }
    }
  }

  lemma RemoveAllChar(c: char, r: string, p: string)
    requires |p| > 0 && p[0] == '/' && Plain(c)
    ensures RemoveAll([c] + r, p) == [c] + RemoveAll(r, p)
  {
    forall j | 0 <= j < 1
      ensures !OccursAt([c] + r, p, j)
    {
      if j + |p| <= |[c] + r| {
        assert ([c] + r)[j..j + |p|][0] == c;
      }
    }
    RemoveAllSkipsPrefix([c], r, p);
  }

  lemma {:induction false} StripShrinks(ts: seq<Token>, m: Marker)
    ensures m !in MarkSet(ts) ==> Strip(ts, m) == ts
    ensures m in MarkSet(ts) ==> |Render(Strip(ts, m))| < |Render(ts)|
    ensures |Render(Strip(ts, m))| <= |Render(ts)|
    decreases |ts|
  {
    if ts != [] {
      var t := ts[0];
      var rest := ts[1..];
      assert ts == [t] + rest;
      StripShrinks(rest, m);
      StripCons(t, rest, m);
      RenderCons(t, rest);
      assert MarkSet(ts) == (if t.Mark? then {t.m} else {}) + MarkSet(rest);
      if t == Mark(m) {
        assert Strip(ts, m) == Strip(rest, m);
        assert |Render(ts)| == |Sentinel(m)| + |Render(rest)|;
      } else {
        assert Strip(ts, m) == [t] + Strip(rest, m);
        assert m in MarkSet(ts) <==> m in MarkSet(rest);
        RenderCons(t, Strip(rest, m));
      }
    }
  }

  /** On a decorated style, `includes` of a sentinel is exactly membership in the marker set. */
  lemma IncludesRender(ts: seq<Token>, m: Marker)
    requires WellFormed(ts)
    ensures Includes(Render(ts), Sentinel(m)) <==> m in MarkSet(ts)
  {
    RemoveAllRender(ts, m);
    RemoveAllUnchangedIff(Render(ts), Sentinel(m));
    StripShrinks(ts, m);
  }

  lemma StripFacts(ts: seq<Token>, m: Marker)
    requires WellFormed(ts)
    ensures WellFormed(Strip(ts, m))
    ensures MarkSet(Strip(ts, m)) == MarkSet(ts) - {m}
    ensures TextOf(Strip(ts, m)) == TextOf(ts)
    ensures EndsPlain(ts) ==> EndsPlain(Strip(ts, m))
  {
    StripWellFormed(ts, m);
    StripMarkSet(ts, m);
    StripText(ts, m);
    if EndsPlain(ts) {
      var init := ts[..|ts| - 1];
      var last := ts[|ts| - 1];
      assert ts == init + [last];
      StripAppend(init, [last], m);
      StripCons(last, [], m);
      assert Strip([last], m) == [last];
    }
  }

  lemma {:induction false} StripWellFormed(ts: seq<Token>, m: Marker)
    requires WellFormed(ts)
    ensures WellFormed(Strip(ts, m))
    decreases |ts|
  {
    if ts != [] {
      var t := ts[0];
      var rest := ts[1..];
      assert ts == [t] + rest;
      WellFormedTail(ts);
      StripWellFormed(rest, m);
      StripCons(t, rest, m);
      var head: seq<Token> := if t == Mark(m) then [] else [t];
      var sr: seq<Token> := Strip(rest, m);
      forall i | 0 <= i < |head + sr|
        ensures (head + sr)[i].Ch? ==> Plain((head + sr)[i].c)
      {
        if i >= |head| {
          assert (head + sr)[i] == sr[i - |head|];
        } else {
          assert (head + sr)[i] == t;
        }
      }
    }
  }

  lemma {:induction false} StripMarkSet(ts: seq<Token>, m: Marker)
    ensures MarkSet(Strip(ts, m)) == MarkSet(ts) - {m}
    decreases |ts|
  {
    if ts != [] {
      var t := ts[0];
      var rest := ts[1..];
      assert ts == [t] + rest;
      StripMarkSet(rest, m);
      StripCons(t, rest, m);
      var head: seq<Token> := if t == Mark(m) then [] else [t];
      MarkSetAppend(head, Strip(rest, m));
    }
  }

  lemma {:induction false} StripText(ts: seq<Token>, m: Marker)
    ensures TextOf(Strip(ts, m)) == TextOf(ts)
    decreases |ts|
  {
    if ts != [] {
      var t := ts[0];
      var rest := ts[1..];
      assert ts == [t] + rest;
      StripText(rest, m);
      StripCons(t, rest, m);
      var head: seq<Token> := if t == Mark(m) then [] else [t];
      TextOfAppend(head, Strip(rest, m));
    }
  }

  lemma {:induction false} MarkSetAppend(a: seq<Token>, b: seq<Token>)
    ensures MarkSet(a + b) == MarkSet(a) + MarkSet(b)
    decreases |a|
  {
    if a == [] {
      assert a + b == b;
    } else {
      TailOfAppend(a, b);
      MarkSetAppend(a[1..], b);
    }
  }

  lemma {:induction false} TextOfAppend(a: seq<Token>, b: seq<Token>)
    ensures TextOf(a + b) == TextOf(a) + TextOf(b)
    decreases |a|
  {
    if a == [] {
      AppendEmpty(a, b);
      AppendEmpty(TextOf(a), TextOf(b));
    } else {
      TailOfAppend(a, b);
      TextOfAppend(a[1..], b);
      AppendAssoc((if a[0].Ch? then [a[0].c] else []), TextOf(a[1..]), TextOf(b));
    }
  }

  lemma InsertMarkFacts(ts: seq<Token>, m: Marker)
    requires WellFormed(ts) && EndsPlain(ts)
    ensures WellFormed(InsertMark(ts, m)) && EndsPlain(InsertMark(ts, m))
    ensures MarkSet(InsertMark(ts, m)) == MarkSet(ts) + {m}
    ensures TextOf(InsertMark(ts, m)) == TextOf(ts)
    ensures Render(InsertMark(ts, m)) == InsertBeforeLast(Render(ts), Sentinel(m))
  {
    var init := ts[..|ts| - 1];
    var last := ts[|ts| - 1];
    SplitLast(ts);
    InsertMarkShape(ts, m);
    assert WellFormed(init) by {
      forall i | 0 <= i < |init|
        ensures init[i].Ch? ==> Plain(init[i].c)
      {
        assert init[i] == ts[i];
      }
    }
    WellFormedSnoc(init, Mark(m));
    WellFormedSnoc(init + [Mark(m)], last);
    InsertMarkSets(init, last, m);
    InsertMarkRender(init, last, m);
  }

  lemma InsertMarkSets(init: seq<Token>, last: Token, m: Marker)
    ensures MarkSet((init + [Mark(m)]) + [last]) == MarkSet(init + [last]) + {m}
    ensures TextOf((init + [Mark(m)]) + [last]) == TextOf(init + [last])
  {
    var front := init + [Mark(m)];
    MarkSetAppend(init, [last]);
    MarkSetAppend(front, [last]);
    MarkSetAppend(init, [Mark(m)]);
    TextOfAppend(init, [last]);
    TextOfAppend(front, [last]);
    TextOfAppend(init, [Mark(m)]);
  }

  lemma InsertMarkRender(init: seq<Token>, last: Token, m: Marker)
    requires last.Ch?
    ensures Render((init + [Mark(m)]) + [last]) == InsertBeforeLast(Render(init + [last]), Sentinel(m))
  {
    var front := init + [Mark(m)];
    RenderAppend(init, [last]);
    RenderAppend(front, [last]);
    RenderAppend(init, [Mark(m)]);
    RenderSingle(last);
    RenderSingle(Mark(m));
    var s := Render(init + [last]);
    assert s == Render(init) + [last.c];
    FrontOfSnoc(Render(init), last.c);
  }

  lemma RenderSingle(t: Token)
    ensures Render([t]) == RenderToken(t)
  {
    TailOfAppend([t], []);
    assert [t] + [] == [t];
    assert RenderToken(t) + [] == RenderToken(t);
  }

  lemma InsertMarkShape(ts: seq<Token>, m: Marker)
    requires |ts| > 0
    ensures InsertMark(ts, m) == (ts[..|ts| - 1] + [Mark(m)]) + [ts[|ts| - 1]]
  {
  }

  lemma WellFormedSnoc(ts: seq<Token>, t: Token)
    requires WellFormed(ts) && (t.Ch? ==> Plain(t.c))
    ensures WellFormed(ts + [t])
  {
    forall i | 0 <= i < |ts| + 1
      ensures (ts + [t])[i].Ch? ==> Plain((ts + [t])[i].c)
    {
      if i < |ts| {
        assert (ts + [t])[i] == ts[i];
      }
    }
  }

  // ---- the codec functions on decorated styles ----

  /** `removeMarker` on a decorated style deletes that marker and nothing else. */
  lemma RemoveMarkerRender(ts: seq<Token>, m: Marker, t: ElementType)
    requires WellFormed(ts)
    ensures RemoveMarker(Some(Render(ts)), m, t) == Render(Strip(ts, m))
  {
    RemoveAllRender(ts, m);
  }

  /** `addMarker` on a decorated style that ends in an ordinary character adds one `m` token. */
  lemma AddMarkerRender(ts: seq<Token>, m: Marker, t: ElementType)
    requires WellFormed(ts) && EndsPlain(ts)
    ensures AddMarker(Some(Render(ts)), m, t) == Render(InsertMark(ts, m))
  {
    InsertMarkFacts(ts, m);
  }

  /** `toggleMarker` on a decorated style is `ToggleTokens` on its tokens. */
  lemma ToggleMarkerRender(ts: seq<Token>, m: Marker, defaultStyle: string)
    requires WellFormed(ts) && EndsPlain(ts)
    ensures ToggleMarker(Some(Render(ts)), m, defaultStyle) == Render(ToggleTokens(ts, m))
  {
    IncludesRender(ts, m);
    if m in MarkSet(ts) {
      RemoveAllRender(ts, m);
      if m == Collapsible {
        StripFacts(ts, m);
        RemoveAllRender(Strip(ts, m), Collapsed);
      }
    } else {
      InsertMarkFacts(ts, m);
    }
  }

  /** Toggling flips `m`, keeps the text and every other marker, except that
      clearing `collapsible` clears `collapsed` as well; the result is again a
      decorated style ending in an ordinary character. */
  lemma {:induction false} ToggleTokensFacts(ts: seq<Token>, m: Marker)
    requires WellFormed(ts) && EndsPlain(ts)
    ensures WellFormed(ToggleTokens(ts, m)) && EndsPlain(ToggleTokens(ts, m))
    ensures TextOf(ToggleTokens(ts, m)) == TextOf(ts)
    ensures m in MarkSet(ts) && m == Collapsible ==>
              MarkSet(ToggleTokens(ts, m)) == MarkSet(ts) - {Collapsible, Collapsed}
    ensures m in MarkSet(ts) && m != Collapsible ==> MarkSet(ToggleTokens(ts, m)) == MarkSet(ts) - {m}
    ensures m !in MarkSet(ts) ==> MarkSet(ToggleTokens(ts, m)) == MarkSet(ts) + {m}
  {
    if m in MarkSet(ts) {
      StripFacts(ts, m);
      if m == Collapsible {
        StripFacts(Strip(ts, m), Collapsed);
      }
    } else {
      InsertMarkFacts(ts, m);
    }
  }

  /** Toggling twice restores a decorated style that does not carry the marker. */
  lemma ToggleTwice(ts: seq<Token>, m: Marker, d: string)
    requires WellFormed(ts) && EndsPlain(ts) && m !in MarkSet(ts)
    requires m == Collapsible ==> Collapsed !in MarkSet(ts)
    ensures ToggleMarker(Some(ToggleMarker(Some(Render(ts)), m, d)), m, d) == Render(ts)
  {
    ToggleMarkerRender(ts, m, d);
    InsertMarkFacts(ts, m);
    var ts' := InsertMark(ts, m);
    ToggleMarkerRender(ts', m, d);
    StripInsertMark(ts, m);
    if m == Collapsible {
      StripShrinks(ts, Collapsed);
    }
  }

  lemma {:induction false} StripInsertMark(ts: seq<Token>, m: Marker)
    requires EndsPlain(ts) && m !in MarkSet(ts)
    ensures Strip(InsertMark(ts, m), m) == ts
  {
    var init := ts[..|ts| - 1];
    var last := ts[|ts| - 1];
    assert ts == init + [last];
    MarkSetAppend(init, [last]);
    StripShrinks(init, m);
    StripAppend(init, [Mark(m), last], m);
    StripCons(last, [], m);
    StripCons(Mark(m), [last], m);
    assert [Mark(m), last] == [Mark(m)] + [last];
    assert Strip([Mark(m), last], m) == [last];
  }

  lemma {:induction false} StripAppend(a: seq<Token>, b: seq<Token>, m: Marker)
    ensures Strip(a + b, m) == Strip(a, m) + Strip(b, m)
    decreases |a|
  {
    if a == [] {
      AppendEmpty(a, b);
      AppendEmpty(Strip(a, m), Strip(b, m));
    } else {
      TailOfAppend(a, b);
      StripAppend(a[1..], b, m);
      AppendAssoc((if a[0] == Mark(m) then [] else [a[0]]), Strip(a[1..], m), Strip(b, m));
    }
  }

  /** On a decorated style: removing a marker just added gives the style back,
      whatever the element type. */
  lemma AddThenRemoveDecorated(ts: seq<Token>, m: Marker, t: ElementType)
    requires WellFormed(ts) && EndsPlain(ts) && m !in MarkSet(ts)
    ensures RemoveMarker(Some(AddMarker(Some(Render(ts)), m, t)), m, t) == Render(ts)
  {
    AddMarkerRender(ts, m, t);
    InsertMarkFacts(ts, m);
    RemoveMarkerRender(InsertMark(ts, m), m, t);
    StripInsertMark(ts, m);
  }

  /** `removeMarker(addMarker(s, m), m) == s` for a style with no '/' or '*'. */
  lemma AddThenRemovePlain(s: string, m: Marker, t: ElementType)
    requires forall i :: 0 <= i < |s| ==> Plain(s[i])
    ensures RemoveMarker(Some(AddMarker(Some(s), m, t)), m, t) == s
  {
    PlainRender(s);
    var ts := PlainTokens(s);
    if s == [] {
      assert InsertBeforeLast(s, Sentinel(m)) == Sentinel(m);
      assert AddMarker(Some(s), m, t) == Sentinel(m);
      RemoveAllAtFront([], Sentinel(m));
      assert Sentinel(m) + [] == Sentinel(m);
    } else {
      AddThenRemoveDecorated(ts, m, t);
    }
  }

  /** A missing style gets the type's default, which is itself decorated and
      carries no marker. */
  lemma DefaultStyleDecorated(t: ElementType)
    ensures WellFormed(PlainTokens(DefaultStyle(t)))
    ensures EndsPlain(PlainTokens(DefaultStyle(t)))
    ensures Render(PlainTokens(DefaultStyle(t))) == DefaultStyle(t)
    ensures MarkSet(PlainTokens(DefaultStyle(t))) == {}
  {
    match t
    case Text => PlainRender("margin-left:0px;");
    case Img => PlainRender("height:auto;");
    case SpanType => PlainRender("background-color:auto;");
  }

  /** The text of plain tokens is the string they were made from. */
  lemma {:induction false} PlainText(s: string)
    ensures TextOf(PlainTokens(s)) == s
  {
    if s != [] {
      PlainText(s[1..]);
      assert PlainTokens(s)[1..] == PlainTokens(s[1..]);
    }
  }

  /** An element without an inline style: `addMarker` gives the type's
      default carrying `m` and no other marker. */
  lemma MissingStyleAdd(m: Marker, t: ElementType)
    ensures var ts := InsertMark(PlainTokens(DefaultStyle(t)), m);
            AddMarker(None, m, t) == Render(ts) && WellFormed(ts) &&
            MarkSet(ts) == {m} && TextOf(ts) == DefaultStyle(t)
  {
    DefaultStyleDecorated(t);
    PlainInsert(DefaultStyle(t), m);
  }

  /** Inserting a marker into a marker-free decorated string. */
  lemma PlainInsert(s: string, m: Marker)
    requires WellFormed(PlainTokens(s)) && EndsPlain(PlainTokens(s))
    requires Render(PlainTokens(s)) == s && MarkSet(PlainTokens(s)) == {}
    ensures var ts := InsertMark(PlainTokens(s), m);
            Render(ts) == InsertBeforeLast(s, Sentinel(m)) && WellFormed(ts) &&
            MarkSet(ts) == {m} && TextOf(ts) == s
  {
    PlainText(s);
    InsertMarkFacts(PlainTokens(s), m);
  }

  /** An element without an inline style: `removeMarker` gives the type's default. */
  lemma MissingStyleRemove(m: Marker, t: ElementType)
    ensures RemoveMarker(None, m, t) == DefaultStyle(t)
  {
    DefaultStyleDecorated(t);
    IncludesRender(PlainTokens(DefaultStyle(t)), m);
  }
}
