/**
 * Reading an element's indentation out of its inline style
 * (`getIndentValue`, trilium-collapsible.js:368-386), and the
 * `margin-left:<n>px` text that the indentation selectors look for.
 */
module Indent {
  import opened JsStrings

  const MarginKey: string := "margin-left:"

  /** The text `margin-left:<px>px` that a style carries at indentation `px`. */
  function MarginText(px: int): string {
    MarginKey + IntToString(px) + "px"
  }

  /** `getIndentValue`: the number written between the first `margin-left:` and
      the first `px` after it; 0 when either is missing or the text between is
      not a number. */
  function GetIndentValue(style: string): (r: int)
    ensures r != 0 ==> Includes(style, MarginKey)
  {
    match IndexOf(style, MarginKey)
    case None => 0
    case Some(i) =>
      var trimmed := style[i + |MarginKey|..];
      match IndexOf(trimmed, "px")
      case None => 0
      case Some(j) =>
        match ParseNumber(trimmed[..j])
        case None => 0
        case Some(n) => n
  }

  /** The fallback of `getIndentValue` when the style holds no `margin-left:`. */
  lemma GetIndentValueFallbacks(style: string)
    ensures (forall j :: 0 <= j <= |style| ==> !OccursAt(style, MarginKey, j)) ==> GetIndentValue(style) == 0
  {
    IndexOfSpec(style, MarginKey);
  }

  /** With the first `margin-left:` at `i` and no `px` after it, the indentation is 0. */
  lemma GetIndentValueNoPx(style: string, i: nat)
    requires FirstAt(style, MarginKey, i)
    requires forall k :: i + |MarginKey| <= k <= |style| ==> !OccursAt(style, "px", k)
    ensures GetIndentValue(style) == 0
  {
    IndexOfFirst(style, MarginKey, i);
    IndexOfSuffixNone(style, "px", i + |MarginKey|);
  }

  /** With the first `margin-left:` at `i` and the first `px` after it at `k`,
      the indentation is the number written between them, or 0 when that text
      is not a number. */
  lemma GetIndentValueReads(style: string, i: nat, k: nat)
    requires FirstAt(style, MarginKey, i)
    requires i + |MarginKey| <= k && OccursAt(style, "px", k)
    requires forall j :: i + |MarginKey| <= j < k ==> !OccursAt(style, "px", j)
    ensures ParseNumber(style[i + |MarginKey|..k]).None? ==> GetIndentValue(style) == 0
    ensures ParseNumber(style[i + |MarginKey|..k]).Some? ==>
              GetIndentValue(style) == ParseNumber(style[i + |MarginKey|..k]).value
  {
    var a := i + |MarginKey|;
    IndexOfFirst(style, MarginKey, i);
    IndexOfSuffix(style, "px", a, k);
    assert style[a..][..k - a] == style[a..k];
  }

  /** A style whose first `margin-left:` is followed by `<px>px` reads back as
      `px`, whatever comes before it (`lead`, holding no `margin-left:` of its
      own) and whatever follows. */
  lemma GetIndentValueOfMarginText(lead: string, px: int, rest: string)
    requires IndexOf(lead + MarginKey, MarginKey) == Some(|lead|)
    ensures GetIndentValue(lead + MarginText(px) + rest) == px
  {
    var d := IntToString(px);
    var front := lead + MarginKey;
    var tail := d + "px" + rest;
    MarginSplit(lead, px, rest);
    FirstMarginKey(lead, tail);
    IndexOfFirst(front + tail, MarginKey, |lead|);
    DropFront(front, tail);
    PxAfterNumber(d, rest);
    ParseIntToString(px);
  }

  lemma MarginSplit(lead: string, px: int, rest: string)
    ensures lead + MarginText(px) + rest == (lead + MarginKey) + (IntToString(px) + "px" + rest)
  {
  }

  lemma DropFront(a: string, b: string)
    ensures (a + b)[|a|..] == b
  {
  }

  /** The `margin-left:` that ends `front` is the first one in `front + tail`. */
  lemma FirstMarginKey(lead: string, tail: string)
    requires IndexOf(lead + MarginKey, MarginKey) == Some(|lead|)
    ensures FirstAt((lead + MarginKey) + tail, MarginKey, |lead|)
  {
    var front := lead + MarginKey;
    IndexOfSpec(front, MarginKey);
    forall j | 0 <= j <= |lead|
      ensures OccursAt(front + tail, MarginKey, j) <==> OccursAt(front, MarginKey, j)
    {
      OccursInPrefix(front, tail, MarginKey, j);
    }
  }

  /** The first `px` after a number is the one right behind it. */
  lemma PxAfterNumber(d: string, rest: string)
    requires forall i :: 0 <= i < |d| ==> IsDigit(d[i]) || d[i] == '-'
    ensures IndexOf(d + "px" + rest, "px") == Some(|d|)
    ensures (d + "px" + rest)[..|d|] == d
  {
    var t := d + "px" + rest;
    assert OccursAt(t, "px", |d|) by {
      assert t[|d|..|d| + 2] == "px";
    }
    IncludesAt(t, "px", |d|);
    forall k | 0 <= k < |d|
      ensures !OccursAt(t, "px", k)
    {
      assert t[k] == d[k];
      MismatchAt(t, "px", k, 0);
    }
    IndexOfSpec(t, "px");
  }
}
