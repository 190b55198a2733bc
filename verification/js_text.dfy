/** The few JavaScript string and array built-ins the scraper relies on,
    stated over `seq<char>` and `seq<string>`:
    `String.prototype.indexOf`, `includes`, `replace` with a string pattern
    (first occurrence only), `split` on a one-character separator,
    `Array.prototype.indexOf` and `findIndex`, and the decimal reading of a
    digit string used for the numeric comparison `leto_gradnje > 2016`. */
module JsText {

  // ---------------------------------------------------------------------
  // Substring search
  // ---------------------------------------------------------------------

  /** `pat` occurs in `s` starting at position `i`. */
  predicate OccursAt(s: string, pat: string, i: int) {
    0 <= i && i + |pat| <= |s| && s[i..i + |pat|] == pat
  }

  /** `i` is the leftmost occurrence of `pat` in `s`. */
  predicate FirstOccurrence(s: string, pat: string, i: int) {
    OccursAt(s, pat, i) && forall j :: 0 <= j < i ==> !OccursAt(s, pat, j)
  }

  /** The scan behind `s.indexOf(pat)`, started at position `from`. */
  function IndexOfFrom(s: string, pat: string, from: nat): (r: int)
    requires from <= |s|
    ensures r == -1 || (from <= r && OccursAt(s, pat, r))
    ensures forall j :: from <= j && (r == -1 || j < r) ==> !OccursAt(s, pat, j)
    decreases |s| - from
  {
    if from + |pat| > |s| then -1
    else if s[from..from + |pat|] == pat then from
    else IndexOfFrom(s, pat, from + 1)
  }

  /** `s.indexOf(pat)`: the leftmost occurrence of `pat`, or -1 when there is none. */
  function IndexOf(s: string, pat: string): (r: int)
    ensures r == -1 <==> forall j :: !OccursAt(s, pat, j)
    ensures r != -1 ==> FirstOccurrence(s, pat, r)
  {
    IndexOfFrom(s, pat, 0)
  }

  /** `s.includes(pat)`. */
  function Includes(s: string, pat: string): (r: bool)
    ensures r <==> exists j :: OccursAt(s, pat, j)
  {
    IndexOf(s, pat) != -1
  }

  /** `r` is `s` with the leftmost occurrence of `pat` rewritten to `rep`,
      or `s` itself when `pat` does not occur. */
  ghost predicate ReplacedFirst(s: string, pat: string, rep: string, r: string) {
    if Includes(s, pat) then
      exists i :: FirstOccurrence(s, pat, i) && r == s[..i] + rep + s[i + |pat|..]
    else r == s
  }

  /** `s.replace(pat, rep)` with a string pattern: only the leftmost
      occurrence is replaced; without an occurrence `s` is returned as is.
      JavaScript also expands `$&`, `$$` and the like inside `rep`; that is
      not modelled, and every replacement the scraper uses is free of `$`. */
  function ReplaceFirst(s: string, pat: string, rep: string): (r: string)
    ensures ReplacedFirst(s, pat, rep, r)
  {
    var i := IndexOf(s, pat);
    if i == -1 then s else s[..i] + rep + s[i + |pat|..]
  }

  /** An occurrence starts with the pattern's first character. */
  lemma OccurrenceStartsWithHead(s: string, pat: string, j: int)
    requires |pat| > 0 && OccursAt(s, pat, j)
    ensures s[j] == pat[0]
  {
  }

  /** When the pattern's first character does not appear in `s`, the
      pattern is absent and `replace` leaves `s` unchanged. */
  lemma ReplaceFirstAbsent(s: string, pat: string, rep: string)
    requires |pat| > 0 && pat[0] !in s
    ensures !Includes(s, pat)
    ensures ReplaceFirst(s, pat, rep) == s
  {
  }

  /** When the pattern's first character does not appear in `x`, the
      leftmost occurrence of `pat` in `x + pat + y` is the one right after
      `x`, so `replace` rewrites exactly that one and keeps `y` intact
      (even if `y` holds further copies of `pat`). */
  lemma ReplaceFirstAfterCleanPrefix(x: string, pat: string, y: string, rep: string)
    requires |pat| > 0 && pat[0] !in x
    ensures FirstOccurrence(x + pat + y, pat, |x|)
    ensures ReplaceFirst(x + pat + y, pat, rep) == x + rep + y
  {
    var s := x + pat + y;
    assert s[|x|..|x| + |pat|] == pat;
    assert OccursAt(s, pat, |x|);
    forall j | 0 <= j < |x| && OccursAt(s, pat, j) ensures false {
      OccurrenceStartsWithHead(s, pat, j);
    }
    var i := IndexOf(s, pat);
    assert i == |x| by {
      assert i != -1;
      assert !(i < |x|);
    }
    assert s[..|x|] == x;
    assert s[|x| + |pat|..] == y;
  }

  // ---------------------------------------------------------------------
  // Splitting and joining on a one-character separator
  // ---------------------------------------------------------------------

  /** Index of the first `c` in `s`. */
  function CharIndex(s: string, c: char): (r: nat)
    requires c in s
    ensures r < |s| && s[r] == c && c !in s[..r]
  {
    if s[0] == c then 0
    else
      var k := CharIndex(s[1..], c);
      assert s[..k + 1] == [s[0]] + s[1..][..k];
      k + 1
  }

  /** `parts.join(sep)` for a non-empty array. */
  function Join(parts: seq<string>, sep: char): string
    requires |parts| >= 1
  {
    if |parts| == 1 then parts[0]
    else parts[0] + [sep] + Join(parts[1..], sep)
  }

  /** `s.split(sep)` for a one-character separator: the pieces between the
      separators, in order, always at least one (`"".split(" ")` is `[""]`).
      Joining the pieces back with `sep` gives `s`, and no piece contains
      `sep`. */
  function Split(s: string, sep: char): (parts: seq<string>)
    ensures |parts| >= 1
    ensures forall k :: 0 <= k < |parts| ==> sep !in parts[k]
    ensures Join(parts, sep) == s
    decreases |s|
  {
    if sep !in s then [s]
    else
      var i := CharIndex(s, sep);
      var rest := Split(s[i + 1..], sep);
      var parts := [s[..i]] + rest;
      assert parts[1..] == rest;
      assert s == s[..i] + [sep] + s[i + 1..];
      parts
  }

  /** The first `c` in `x + [c] + y` is the one after `x` when `x` holds none. */
  lemma {:induction false} CharIndexAfterCleanPrefix(x: string, c: char, y: string)
    requires c !in x
    ensures CharIndex(x + [c] + y, c) == |x|
    decreases |x|
  {
    var s := x + [c] + y;
    if |x| > 0 {
      assert s[0] == x[0];
      assert s[1..] == x[1..] + [c] + y;
      CharIndexAfterCleanPrefix(x[1..], c, y);
    }
  }

  /** Splitting a string that has a separator: the piece before the first
      one, then the pieces of the rest. */
  lemma SplitAtFirst(x: string, sep: char, y: string)
    requires sep !in x
    ensures Split(x + [sep] + y, sep) == [x] + Split(y, sep)
  {
    var s := x + [sep] + y;
    assert s[|x|] == sep;
    CharIndexAfterCleanPrefix(x, sep, y);
    assert s[..|x|] == x;
    assert s[|x| + 1..] == y;
  }

  /** Splitting is the inverse of joining separator-free pieces, so the
      decomposition `Split` returns is the only one with its two properties. */
  lemma {:induction false} SplitJoin(parts: seq<string>, sep: char)
    requires |parts| >= 1
    requires forall k :: 0 <= k < |parts| ==> sep !in parts[k]
    ensures Split(Join(parts, sep), sep) == parts
    decreases |parts|
  {
    if |parts| > 1 {
      var rest := parts[1..];
      SplitJoin(rest, sep);
      SplitAtFirst(parts[0], sep, Join(rest, sep));
      assert parts == [parts[0]] + rest;
    }
  }

  // ---------------------------------------------------------------------
  // Arrays of strings
  // ---------------------------------------------------------------------

  /** `k` is the first index of `xs` holding exactly `x`. */
  predicate FirstIndex(xs: seq<string>, x: string, k: int) {
    0 <= k < |xs| && xs[k] == x && x !in xs[..k]
  }

  /** `xs.indexOf(x)`: the first index holding exactly `x`, or -1. */
  function ArrayIndexOf(xs: seq<string>, x: string): (r: int)
    ensures r == -1 <==> x !in xs
    ensures r != -1 ==> FirstIndex(xs, x, r)
  {
    if |xs| == 0 then -1
    else if xs[0] == x then 0
    else
      var k := ArrayIndexOf(xs[1..], x);
      if k == -1 then -1
      else
        assert xs[..k + 1] == [xs[0]] + xs[1..][..k];
        k + 1
  }

  /** An index holding `x` with no earlier `x` is what `indexOf` returns. */
  lemma ArrayIndexOfFirst(xs: seq<string>, x: string, k: int)
    requires FirstIndex(xs, x, k)
    ensures ArrayIndexOf(xs, x) == k
  {
  }

  /** `k` is the first index of `xs` whose element contains `pat`. */
  predicate FirstIncluding(xs: seq<string>, pat: string, k: int) {
    0 <= k < |xs| && Includes(xs[k], pat) && forall j :: 0 <= j < k ==> !Includes(xs[j], pat)
  }

  /** `xs.findIndex(w => w.includes(pat))`: the first index whose element
      contains `pat`, or -1. */
  function FindIndexIncluding(xs: seq<string>, pat: string): (r: int)
    ensures r == -1 <==> forall k :: 0 <= k < |xs| ==> !Includes(xs[k], pat)
    ensures r != -1 ==> FirstIncluding(xs, pat, r)
  {
    if |xs| == 0 then -1
    else if Includes(xs[0], pat) then 0
    else
      var k := FindIndexIncluding(xs[1..], pat);
      if k == -1 then -1 else k + 1
  }

  // ---------------------------------------------------------------------
  // Decimal digit strings
  // ---------------------------------------------------------------------

  predicate IsDigit(c: char) {
    '0' <= c <= '9'
  }

  predicate IsDigits(s: string) {
    forall i :: 0 <= i < |s| ==> IsDigit(s[i])
  }

  function DigitValue(c: char): nat
    requires IsDigit(c)
  {
    (c as int) - ('0' as int)
  }

  function DigitChar(d: nat): (c: char)
    requires d < 10
    ensures IsDigit(c) && DigitValue(c) == d
  {
    (('0' as int) + d) as char
  }

  /** The number a digit string denotes (the empty string denotes 0, as
      `Number("")` does). */
  function DecimalValue(s: string): nat
    requires IsDigits(s)
  {
    if |s| == 0 then 0
    else DecimalValue(s[..|s| - 1]) * 10 + DigitValue(s[|s| - 1])
  }

  function Pow10(n: nat): (p: nat)
    ensures p >= 1
  {
    if n == 0 then 1 else 10 * Pow10(n - 1)
  }

  /** A numeral of `n` digits denotes less than `10^n`. */
  lemma {:induction false} DecimalValueBound(s: string)
    requires IsDigits(s)
    ensures DecimalValue(s) < Pow10(|s|)
    decreases |s|
  {
    if |s| > 0 {
      DecimalValueBound(s[..|s| - 1]);
    }
  }

  /** `String(n)` for a natural number: its shortest decimal numeral. */
  function Show(n: nat): (s: string)
    ensures |s| >= 1 && IsDigits(s)
  {
    if n < 10 then [DigitChar(n)]
    else Show(n / 10) + [DigitChar(n % 10)]
  }

  /** Reading back a rendered number gives the number: `Number(String(n)) == n`. */
  lemma {:induction false} DecimalValueShow(n: nat)
    ensures DecimalValue(Show(n)) == n
  {
    var s := Show(n);
    if n < 10 {
    } else {
      assert s[..|s| - 1] == Show(n / 10);
      DecimalValueShow(n / 10);
    }
  }
}
