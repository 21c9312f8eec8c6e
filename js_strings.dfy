/**
 * The few JavaScript string operations the widget relies on, written out on
 * `seq<char>`: `indexOf`, `includes`, `replaceAll(pattern, '')`,
 * `s.slice(0, -1) + x + s.slice(-1)`, the decimal rendering of an integer in a
 * template literal and `Number(text)` restricted to decimal integers.
 */
module JsStrings {

  datatype Option<+T> = None | Some(value: T)

  /** The head and tail of a concatenation whose left part is not empty. */
  lemma TailOfAppend<T>(a: seq<T>, b: seq<T>)
    requires |a| > 0
    ensures (a + b)[0] == a[0] && (a + b)[1..] == a[1..] + b
  {
  }

  /** Concatenation is associative and has the empty sequence as unit. */
  lemma AppendAssoc<T>(x: seq<T>, y: seq<T>, z: seq<T>)
    ensures (x + y) + z == x + (y + z)
  {
  }

  lemma AppendEmpty<T>(x: seq<T>, y: seq<T>)
    ensures [] + y == y && x + [] == x
  {
  }

  /** A non-empty sequence is its front followed by its last element. */
  lemma SplitLast<T>(s: seq<T>)
    requires |s| > 0
    ensures s == s[..|s| - 1] + [s[|s| - 1]]
  {
  }

  /** The front and the last element of `a + [c]`. */
  lemma FrontOfSnoc<T>(a: seq<T>, c: T)
    ensures (a + [c])[..|a|] == a && (a + [c])[|a|] == c
  {
  }

  /** `p` occurs in `s` at position `i`. */
  predicate OccursAt(s: string, p: string, i: nat) {
    i + |p| <= |s| && s[i..i + |p|] == p
  }

  /** One differing character rules out an occurrence. */
  lemma MismatchAt(s: string, p: string, i: nat, e: nat)
    requires e < |p| && (i + |p| <= |s| ==> s[i + e] != p[e])
    ensures !OccursAt(s, p, i)
  {
    if i + |p| <= |s| {
      assert s[i..i + |p|][e] == s[i + e];
    }
  }

  /** `s` starts with `p`. */
  predicate StartsWith(s: string, p: string) {
    |p| <= |s| && s[..|p|] == p
  }

  lemma StartsWithAtZero(s: string, p: string)
    ensures StartsWith(s, p) <==> OccursAt(s, p, 0)
  {
    if |p| <= |s| {
      assert s[0..|p|] == s[..|p|];
    }
  }

  /** `s.indexOf(p)`: the first position at which `p` occurs, if any. */
  function IndexOf(s: string, p: string): (r: Option<nat>)
    ensures r.Some? ==> r.value + |p| <= |s|
  {
    if StartsWith(s, p) then Some(0)
    else if |s| == 0 then None
    else
      match IndexOf(s[1..], p)
      case None => None
      case Some(k) => Some(k + 1)
  }

  /** `IndexOf` finds an occurrence and no earlier one; `None` means there is none. */
  lemma {:induction false} IndexOfSpec(s: string, p: string)
    ensures var r := IndexOf(s, p);
            (r.Some? ==> OccursAt(s, p, r.value)) &&
            (r.Some? ==> forall j :: 0 <= j < r.value ==> !OccursAt(s, p, j)) &&
            (r.None? ==> forall j :: 0 <= j <= |s| ==> !OccursAt(s, p, j))
    decreases |s|
  {
    StartsWithAtZero(s, p);
    if !StartsWith(s, p) && |s| > 0 {
      IndexOfSpec(s[1..], p);
      OccursShiftAll(s, p);
    }
  }

  lemma OccursShiftAll(s: string, p: string)
    requires |s| > 0
    ensures forall j :: 1 <= j <= |s| ==> (OccursAt(s, p, j) <==> OccursAt(s[1..], p, j - 1))
  {
    forall j | 1 <= j <= |s|
      ensures OccursAt(s, p, j) <==> OccursAt(s[1..], p, j - 1)
    {
      OccursShift(s, p, j - 1);
    }
  }

  /** `p` occurs in `s` at `i` and nowhere before it. */
  predicate FirstAt(s: string, p: string, i: nat) {
    OccursAt(s, p, i) && forall j :: 0 <= j < i ==> !OccursAt(s, p, j)
  }

  /** `indexOf` returns the first occurrence. */
  lemma IndexOfFirst(s: string, p: string, i: nat)
    requires FirstAt(s, p, i)
    ensures IndexOf(s, p) == Some(i)
  {
    IndexOfSpec(s, p);
  }

  /** An occurrence in a suffix is an occurrence in the whole string, shifted. */
  lemma OccursInSuffix(s: string, p: string, a: nat, k: nat)
    requires a <= |s|
    ensures OccursAt(s[a..], p, k) <==> OccursAt(s, p, a + k)
  {
    if a + k + |p| <= |s| {
      assert s[a..][k..k + |p|] == s[a + k..a + k + |p|];
    }
  }

  /** The first occurrence at or after `a` is what `indexOf` finds in `s[a..]`. */
  lemma IndexOfSuffix(s: string, p: string, a: nat, k: nat)
    requires a <= k && OccursAt(s, p, k)
    requires forall j :: a <= j < k ==> !OccursAt(s, p, j)
    ensures IndexOf(s[a..], p) == Some(k - a)
  {
    OccursInSuffix(s, p, a, k - a);
    forall j | 0 <= j < k - a
      ensures !OccursAt(s[a..], p, j)
    {
      OccursInSuffix(s, p, a, j);
    }
    IndexOfFirst(s[a..], p, k - a);
  }

  /** No occurrence at or after `a` means `indexOf` finds none in `s[a..]`. */
  lemma IndexOfSuffixNone(s: string, p: string, a: nat)
    requires a <= |s|
    requires forall k :: a <= k <= |s| ==> !OccursAt(s, p, k)
    ensures IndexOf(s[a..], p).None?
  {
    IndexOfSpec(s[a..], p);
    if IndexOf(s[a..], p).Some? {
      OccursInSuffix(s, p, a, IndexOf(s[a..], p).value);
    }
  }

  /** An occurrence that lies within `a` is unaffected by what follows `a`. */
  lemma OccursInPrefix(a: string, b: string, p: string, j: nat)
    requires j + |p| <= |a|
    ensures OccursAt(a + b, p, j) <==> OccursAt(a, p, j)
  {
    assert (a + b)[j..j + |p|] == a[j..j + |p|];
  }

  /** `s.includes(p)`. */
  predicate Includes(s: string, p: string) {
    IndexOf(s, p).Some?
  }

  lemma IncludesAt(s: string, p: string, i: nat)
    requires OccursAt(s, p, i)
    ensures Includes(s, p)
  {
    IndexOfSpec(s, p);
  }

  /** `s.replaceAll(p, '')`: a left-to-right scan that deletes every
      non-overlapping occurrence of `p` found in `s`. */
  function RemoveAll(s: string, p: string): (r: string)
    requires |p| > 0
    ensures |r| <= |s|
    ensures Includes(s, p) ==> |r| < |s|
    decreases |s|
  {
    if StartsWith(s, p) then RemoveAll(s[|p|..], p)
    else if |s| == 0 then s
    else
      var rest := RemoveAll(s[1..], p);
      assert Includes(s, p) ==> Includes(s[1..], p) by {
        if Includes(s, p) {
          StartsWithAtZero(s, p);
          IndexOfSpec(s, p);
          var k := IndexOf(s, p).value;
          assert k > 0;
          assert OccursAt(s[1..], p, k - 1);
          IncludesAt(s[1..], p, k - 1);
        }
      }
      [s[0]] + rest
  }

  /** Occurrences in the tail of `s` are occurrences in `s`, one position on. */
  lemma OccursShift(s: string, p: string, j: nat)
    requires |s| > 0
    ensures OccursAt(s[1..], p, j) <==> OccursAt(s, p, j + 1)
  {
    if j + 1 + |p| <= |s| {
      assert s[1..][j..j + |p|] == s[j + 1..j + 1 + |p|];
    }
  }

  /** Deleting a pattern that does not occur changes nothing. */
  lemma {:induction false} RemoveAllAbsent(s: string, p: string)
    requires |p| > 0
    requires !Includes(s, p)
    ensures RemoveAll(s, p) == s
    decreases |s|
  {
    if |s| > 0 {
      IndexOfSpec(s, p);
      StartsWithAtZero(s, p);
      forall j | 0 <= j <= |s| - 1
        ensures !OccursAt(s[1..], p, j)
      {
        OccursShift(s, p, j);
      }
      IndexOfSpec(s[1..], p);
      RemoveAllAbsent(s[1..], p);
    }
  }

  /** `RemoveAll` leaves its argument unchanged exactly when the pattern is absent. */
  lemma RemoveAllUnchangedIff(s: string, p: string)
    requires |p| > 0
    ensures RemoveAll(s, p) == s <==> !Includes(s, p)
  {
    if !Includes(s, p) {
      RemoveAllAbsent(s, p);
    }
  }

  /** A prefix in which no occurrence of `p` starts is copied through. */
  lemma {:induction false} RemoveAllSkipsPrefix(u: string, w: string, p: string)
    requires |p| > 0
    requires forall j :: 0 <= j < |u| ==> !OccursAt(u + w, p, j)
    ensures RemoveAll(u + w, p) == u + RemoveAll(w, p)
    decreases |u|
  {
    if |u| > 0 {
      var s := u + w;
      assert !OccursAt(s, p, 0);
      assert s[1..] == u[1..] + w;
      forall j | 0 <= j < |u| - 1
        ensures !OccursAt(u[1..] + w, p, j)
      {
        OccursShift(s, p, j);
      }
      RemoveAllSkipsPrefix(u[1..], w, p);
      calc {
        RemoveAll(s, p);
        [s[0]] + RemoveAll(s[1..], p);
        [u[0]] + RemoveAll(u[1..] + w, p);
        [u[0]] + (u[1..] + RemoveAll(w, p));
        { assert u == [u[0]] + u[1..]; }
        u + RemoveAll(w, p);
      }
    } else {
      assert u + w == w;
    }
  }

  /** An occurrence at the front is deleted. */
  lemma RemoveAllAtFront(w: string, p: string)
    requires |p| > 0
    ensures RemoveAll(p + w, p) == RemoveAll(w, p)
  {
    assert OccursAt(p + w, p, 0);
    assert (p + w)[|p|..] == w;
  }

  /** `s.slice(0, -1) + x + s.slice(-1)`: `x` goes just before the last
      character, and an empty `s` yields `x` alone. */
  function InsertBeforeLast(s: string, x: string): (r: string)
    ensures |r| == |s| + |x|
    ensures |s| > 0 ==> r[..|s| - 1] == s[..|s| - 1] && r[|r| - 1] == s[|s| - 1]
  {
    if |s| == 0 then x else s[..|s| - 1] + x + [s[|s| - 1]]
  }

  /** The inserted text sits just before the last character (at 0 in an empty string). */
  lemma InsertBeforeLastOccurs(s: string, x: string)
    ensures OccursAt(InsertBeforeLast(s, x), x, if |s| == 0 then 0 else |s| - 1)
  {
    if |s| > 0 {
      var r := InsertBeforeLast(s, x);
      assert r[|s| - 1..|s| - 1 + |x|] == x;
    }
  }

  // ---- decimal numbers ----

  predicate IsDigit(c: char) {
    '0' <= c <= '9'
  }

  predicate AllDigits(s: string) {
    forall i :: 0 <= i < |s| ==> IsDigit(s[i])
  }

  function DigitChar(d: nat): (c: char)
    requires d < 10
    ensures IsDigit(c)
  {
    ['0', '1', '2', '3', '4', '5', '6', '7', '8', '9'][d]
  }

  function DigitValue(c: char): (d: nat)
    requires IsDigit(c)
    ensures d < 10
  {
    (c as int - '0' as int) as nat
  }

  lemma DigitRoundTrip(d: nat)
    requires d < 10
    ensures DigitValue(DigitChar(d)) == d
  {
  }

  /** The decimal text a template literal produces for a natural number. */
  function NatToString(n: nat): (s: string)
    ensures |s| > 0 && AllDigits(s)
  {
    if n < 10 then [DigitChar(n)] else NatToString(n / 10) + [DigitChar(n % 10)]
  }

  /** The decimal text a template literal produces for an integer. */
  function IntToString(n: int): (s: string)
    ensures |s| > 0
    ensures forall i :: 0 <= i < |s| ==> IsDigit(s[i]) || s[i] == '-'
  {
    if n < 0 then "-" + NatToString(-n) else NatToString(n)
  }

  /** The value of a non-empty run of decimal digits (leading zeros allowed). */
  function DigitsValue(s: string): nat
    requires AllDigits(s)
  {
    if |s| == 0 then 0 else 10 * DigitsValue(s[..|s| - 1]) + DigitValue(s[|s| - 1])
  }

  lemma {:induction false} DigitsRoundTrip(n: nat)
    ensures DigitsValue(NatToString(n)) == n
  {
    if n < 10 {
      DigitRoundTrip(n);
    } else {
      var s := NatToString(n);
      assert s[..|s| - 1] == NatToString(n / 10);
      DigitsRoundTrip(n / 10);
      DigitRoundTrip(n % 10);
    }
  }

  /** `Number(text)` where `isNaN(text)` is false, for the decimal forms:
      the empty text is 0, an optional '-' is followed by at least one digit.
      `None` stands for NaN. */
  function ParseNumber(text: string): (r: Option<int>)
    ensures r.Some? && text != [] && text[0] != '-' ==> r.value >= 0
  {
    if text == [] then Some(0)
    else if text[0] == '-' && |text| > 1 && AllDigits(text[1..]) then Some(0 - DigitsValue(text[1..]) as int)
    else if AllDigits(text) then Some(DigitsValue(text))
    else None
  }

  /** Parsing reads back what `IntToString` writes. */
  lemma ParseIntToString(n: int)
    ensures ParseNumber(IntToString(n)) == Some(n)
  {
    var s := IntToString(n);
    if n < 0 {
      var t := NatToString(-n);
      assert s == "-" + t;
      assert s[1..] == t;
      DigitsRoundTrip(-n);
      assert ParseNumber(s) == Some(0 - DigitsValue(t) as int);
    } else {
      assert s == NatToString(n);
      assert IsDigit(s[0]);
      DigitsRoundTrip(n);
      assert ParseNumber(s) == Some(DigitsValue(s) as int);
    }
  }
}
