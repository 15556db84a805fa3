/**
 * The JavaScript string primitives the account utilities rely on, stated on
 * `seq<char>`: first-occurrence search (`indexOf`), `replace` with a string
 * pattern (first occurrence only), `split` / `join` with a string separator,
 * `startsWith` / `endsWith`, and the decimal rendering and parsing of integers
 * (`Number.prototype.toString`, `Number(...)` restricted to decimal forms).
 */
module Strings {
  import opened Wrappers

  /** `pat` occurs in `s` starting at position `i`. */
  predicate OccursAt(s: string, pat: string, i: nat) {
    i + |pat| <= |s| && s[i..i + |pat|] == pat
  }

  predicate Contains(s: string, pat: string) {
    exists i: nat | i <= |s| :: OccursAt(s, pat, i)
  }

  predicate StartsWith(s: string, prefix: string) {
    |prefix| <= |s| && s[..|prefix|] == prefix
  }

  predicate EndsWith(s: string, suffix: string) {
    |suffix| <= |s| && s[|s| - |suffix|..] == suffix
  }

  /** The first position at or after `k` where `pat` occurs in `s`. */
  function IndexOfFrom(s: string, pat: string, k: nat): (r: Option<nat>)
    decreases |s| - k
    ensures r.Some? ==> k <= r.value && OccursAt(s, pat, r.value)
    ensures forall j: nat :: k <= j && (r.None? || j < r.value) ==> !OccursAt(s, pat, j)
  {
    if k + |pat| > |s| then None
    else if s[k..k + |pat|] == pat then Some(k)
    else IndexOfFrom(s, pat, k + 1)
  }

  /** `s.indexOf(pat)`: the first occurrence of `pat` in `s`, if any. */
  function IndexOf(s: string, pat: string): (r: Option<nat>)
    ensures r.Some? ==> OccursAt(s, pat, r.value)
    ensures r.Some? ==> forall j: nat :: j < r.value ==> !OccursAt(s, pat, j)
    ensures r.None? <==> !Contains(s, pat)
  {
    IndexOfFrom(s, pat, 0)
  }

  /** The last position before `k` where `pat` occurs in `s`. */
  function LastIndexOfBefore(s: string, pat: string, k: nat): (r: Option<nat>)
    decreases k
    ensures r.Some? ==> r.value < k && OccursAt(s, pat, r.value)
    ensures forall j: nat :: j < k && (r.None? || r.value < j) ==> !OccursAt(s, pat, j)
  {
    if k == 0 then None
    else if OccursAt(s, pat, k - 1) then Some(k - 1)
    else LastIndexOfBefore(s, pat, k - 1)
  }

  /** `s.lastIndexOf(pat)`: the last occurrence of `pat` in `s`, if any. */
  function LastIndexOf(s: string, pat: string): (r: Option<nat>)
    ensures r.Some? ==> OccursAt(s, pat, r.value)
    ensures r.Some? ==> forall j: nat :: r.value < j ==> !OccursAt(s, pat, j)
    ensures r.None? <==> !Contains(s, pat)
  {
    LastIndexOfBefore(s, pat, |s| + 1)
  }

  /**
   * `s.replace(pat, rep)` with a string pattern: only the first occurrence is
   * replaced, and `rep` is inserted literally. JavaScript would expand `$$`,
   * `$&`, `` $` `` and `$'` in `rep`; the replacements the account utilities
   * pass (`*`, `''`, a rendered integer) hold no `$`, so nothing is expanded.
   */
  function ReplaceFirst(s: string, pat: string, rep: string): (r: string)
  {
    match IndexOf(s, pat)
    case None => s
    case Some(i) => s[..i] + rep + s[i + |pat|..]
  }

  /** `parts.join(sep)`. */
  function Join(parts: seq<string>, sep: string): string
  {
    if |parts| == 0 then ""
    else if |parts| == 1 then parts[0]
    else parts[0] + sep + Join(parts[1..], sep)
  }

  lemma JoinPair(a: string, b: string, sep: string)
    ensures Join([a, b], sep) == a + sep + b
  {
    assert [a, b][1..] == [b];
  }

  /**
   * `s.split(sep)` for a non-empty string separator: scanning left to right,
   * cut at each non-overlapping occurrence. The pieces never contain the
   * separator, joining them back gives `s`, and every cut is at the first
   * occurrence still ahead: no piece followed by all but the last character
   * of the separator contains the separator.
   */
  function Split(s: string, sep: string): (parts: seq<string>)
    requires sep != []
    decreases |s|
    ensures |parts| >= 1
    ensures Join(parts, sep) == s
    ensures forall k :: 0 <= k < |parts| ==> !Contains(parts[k], sep)
    ensures forall k :: 0 <= k < |parts| - 1 ==> !Contains(parts[k] + sep[..|sep| - 1], sep)
  {
    match IndexOf(s, sep)
    case None => [s]
    case Some(i) =>
      FirstPieceIsLeftmost(s, sep, i);
      var rest := Split(s[i + |sep|..], sep);
      assert s == s[..i] + sep + s[i + |sep|..];
      PiecesBeforeRest(s[..i], rest, sep);
      [s[..i]] + rest
  }

  /** Putting a leftmost, separator-free piece before well-cut pieces keeps them well cut. */
  lemma PiecesBeforeRest(first: string, rest: seq<string>, sep: string)
    requires sep != []
    requires !Contains(first, sep) && !Contains(first + sep[..|sep| - 1], sep)
    requires forall k :: 0 <= k < |rest| ==> !Contains(rest[k], sep)
    requires forall k :: 0 <= k < |rest| - 1 ==> !Contains(rest[k] + sep[..|sep| - 1], sep)
    ensures forall k :: 0 <= k < |[first] + rest| ==> !Contains(([first] + rest)[k], sep)
    ensures forall k :: 0 <= k < |[first] + rest| - 1 ==> !Contains(([first] + rest)[k] + sep[..|sep| - 1], sep)
  {
    var parts := [first] + rest;
    assert forall k :: 1 <= k < |parts| ==> parts[k] == rest[k - 1];
  }

  /** The text before the first occurrence of `sep` cannot hold `sep`, even extended by all of `sep` but its last character. */
  lemma FirstPieceIsLeftmost(s: string, sep: string, i: nat)
    requires sep != [] && OccursAt(s, sep, i)
    requires forall j: nat :: j < i ==> !OccursAt(s, sep, j)
    ensures !Contains(s[..i], sep)
    ensures !Contains(s[..i] + sep[..|sep| - 1], sep)
  {
    NoOccurrenceInPrefix(s, sep, i, i);
    var m := i + |sep| - 1;
    assert s[..i] + sep[..|sep| - 1] == s[..m] by {
      assert s[i..i + |sep|] == sep;
    }
    NoOccurrenceInPrefix(s, sep, i, m);
  }

  /**
   * When `pat` does not occur before `i`, no prefix of `s` shorter than
   * `i + |pat|` contains it.
   */
  lemma NoOccurrenceInPrefix(s: string, pat: string, i: nat, m: nat)
    requires m <= |s| && m < i + |pat|
    requires forall j: nat :: j < i ==> !OccursAt(s, pat, j)
    ensures !Contains(s[..m], pat)
  {
    forall j: nat | j <= m
      ensures !OccursAt(s[..m], pat, j)
    {
      if OccursAt(s[..m], pat, j) {
        assert s[j..j + |pat|] == s[..m][j..j + |pat|];
        assert OccursAt(s, pat, j);
      }
    }
  }

  /** When `pat` does not occur after `i`, the text from `i + 1` on does not contain it. */
  lemma NoOccurrenceAfter(s: string, pat: string, i: nat)
    requires i < |s|
    requires forall j: nat :: i < j ==> !OccursAt(s, pat, j)
    ensures !Contains(s[i + 1..], pat)
  {
    var t := s[i + 1..];
    forall j: nat | j <= |t|
      ensures !OccursAt(t, pat, j)
    {
      assert !OccursAt(s, pat, i + 1 + j);
      if j + |pat| <= |t| {
        assert s[i + 1 + j..i + 1 + j + |pat|] == t[j..j + |pat|];
      }
    }
  }

  /** A string without the first character of `pat` does not contain `pat`. */
  lemma NoOccurrenceWithoutChar(s: string, pat: string, c: char)
    requires |pat| > 0 && pat[0] == c
    requires forall k :: 0 <= k < |s| ==> s[k] != c
    ensures !Contains(s, pat)
  {
    forall j: nat | j <= |s|
      ensures !OccursAt(s, pat, j)
    {
      if j + |pat| <= |s| {
        assert s[j..j + |pat|][0] == s[j];
      }
    }
  }

  /**
   * The first-occurrence split at the boundary of `w + sep + rest`: when no
   * occurrence of `sep` starts inside `w`, the first piece is `w`.
   */
  lemma {:induction false} SplitAfter(w: string, sep: string, rest: string)
    requires sep != []
    requires forall j: nat :: j < |w| ==> !OccursAt(w + sep + rest, sep, j)
    ensures Split(w + sep + rest, sep) == [w] + Split(rest, sep)
  {
    var s := w + sep + rest;
    assert s[|w|..|w| + |sep|] == sep;
    assert OccursAt(s, sep, |w|);
    assert IndexOf(s, sep) == Some(|w|);
    assert s[..|w|] == w;
    assert s[|w| + |sep|..] == rest;
  }

  /**
   * `w` can stand before the doubled separator `[c, c]` without the boundary
   * moving: it holds no `[c, c]` and does not end with `c`.
   */
  predicate PlainBefore(w: string, c: char) {
    !Contains(w, [c, c]) && (w == [] || w[|w| - 1] != c)
  }

  /** After a plain `w`, the first doubled separator of `w + [c, c] + rest` is the one at `|w|`. */
  lemma SplitAfterPlain(w: string, c: char, rest: string)
    requires PlainBefore(w, c)
    ensures Split(w + [c, c] + rest, [c, c]) == [w] + Split(rest, [c, c])
  {
    var s := w + [c, c] + rest;
    forall j: nat | j < |w|
      ensures !OccursAt(s, [c, c], j)
    {
      if j + 1 < |w| {
        assert s[j..j + 2] == w[j..j + 2];
        assert !OccursAt(w, [c, c], j);
      } else {
        assert s[j] == w[|w| - 1];
        assert s[j..j + 2][0] == s[j];
      }
    }
    SplitAfter(w, [c, c], rest);
  }

  /** The first piece of a split is followed by the separator, when the separator occurs at all. */
  lemma SplitFirstPiece(s: string, sep: string)
    requires sep != []
    ensures Contains(s, sep) ==> StartsWith(s, Split(s, sep)[0] + sep)
    ensures Contains(s, sep) ==> Split(s, sep)[0] == s[..IndexOf(s, sep).value]
    ensures !Contains(s, sep) ==> Split(s, sep) == [s]
  {
    if Contains(s, sep) {
      var i := IndexOf(s, sep).value;
      assert Split(s, sep)[0] == s[..i];
      assert s[..i + |sep|] == s[..i] + sep;
    }
  }

  /** `w + [c, c] + rest` splits into exactly `w` and `rest` when neither can blur the boundary. */
  lemma SplitInTwo(s: string, w: string, c: char, rest: string)
    requires PlainBefore(w, c) && !Contains(rest, [c, c])
    requires s == w + [c, c] + rest
    ensures Split(s, [c, c]) == [w, rest]
  {
    SplitAfterPlain(w, c, rest);
    SplitNone(rest, [c, c]);
  }

  /** A string with no occurrence of `sep` splits into itself. */
  lemma SplitNone(s: string, sep: string)
    requires sep != [] && !Contains(s, sep)
    ensures Split(s, sep) == [s]
  {
  }

  /** The leftmost cut decides overlapping separators: `"---".split("--")` is `["", "-"]`. */
  lemma SplitThreeDashes()
    ensures Split("---", "--") == ["", "-"]
  {
    assert "---" == "" + ['-', '-'] + "-";
    SplitInTwo("---", "", '-', "-");
  }

  // ----- decimal rendering and parsing -------------------------------------

  predicate IsDigit(c: char) {
    '0' as int <= c as int <= '9' as int
  }

  /** A non-empty string of decimal digits. */
  predicate IsDecimal(s: string) {
    |s| >= 1 && forall k :: 0 <= k < |s| ==> IsDigit(s[k])
  }

  function DigitChar(d: nat): (c: char)
    requires d < 10
    ensures IsDigit(c)
  {
    ('0' as int + d) as char
  }

  /** The decimal digits of `n`, most significant first, without leading zeros. */
  function NatToDecimal(n: nat): (s: string)
    decreases n
    ensures IsDecimal(s)
    ensures |s| > 1 ==> s[0] != '0'
  {
    if n < 10 then [DigitChar(n)]
    else NatToDecimal(n / 10) + [DigitChar(n % 10)]
  }

  /** The value of a string of decimal digits. */
  function DecimalValue(s: string): nat
    requires forall k :: 0 <= k < |s| ==> IsDigit(s[k])
  {
    if s == [] then 0
    else
      assert IsDigit(s[|s| - 1]);
      DecimalValue(s[..|s| - 1]) * 10 + (s[|s| - 1] as int - '0' as int)
  }

  /** Rendering a natural number in decimal and reading it back gives the number. */
  lemma {:induction false} DecimalRoundTrip(n: nat)
    ensures DecimalValue(NatToDecimal(n)) == n
  {
    var s := NatToDecimal(n);
    if n >= 10 {
      var prefix := NatToDecimal(n / 10);
      assert s[..|s| - 1] == prefix;
      DecimalRoundTrip(n / 10);
    }
  }

  /** `i.toString()` for an integer `i`: an optional minus sign, then the decimal digits. */
  function IntToString(i: int): string
  {
    if i < 0 then "-" + NatToDecimal(-i) else NatToDecimal(i)
  }

  /**
   * `Number(s)` restricted to decimal integer forms: an optional minus sign
   * followed by at least one digit. Everything else (`NaN` and JavaScript's
   * other coercions) is `None`.
   */
  function ParseNumber(s: string): (r: Option<int>)
    ensures r.Some? ==> |s| >= 1
    ensures IsDecimal(s) ==> r == Some(DecimalValue(s) as int)
  {
    if IsDecimal(s) then Some(DecimalValue(s) as int)
    else if |s| >= 2 && s[0] == '-' && IsDecimal(s[1..]) then Some(-(DecimalValue(s[1..]) as int))
    else None
  }

  /** `Number(String(i)) == i` for every integer. */
  lemma NumberRoundTrip(i: int)
    ensures ParseNumber(IntToString(i)) == Some(i)
  {
    if i < 0 {
      NumberOfNegatedDecimal(-i);
    } else {
      DecimalRoundTrip(i);
    }
  }

  /** A minus sign before the digits of `n` reads as `-n` (for `n == 0`, as 0). */
  lemma NumberOfNegatedDecimal(n: nat)
    ensures ParseNumber("-" + NatToDecimal(n)) == Some(-(n as int))
  {
    var d := NatToDecimal(n);
    var s := "-" + d;
    assert s[1..] == d;
    assert !IsDigit(s[0]);
    assert !IsDecimal(s);
    DecimalRoundTrip(n);
  }

  /** Integer rendering is injective. */
  lemma IntToStringInjective(a: int, b: int)
    requires IntToString(a) == IntToString(b)
    ensures a == b
  {
    NumberRoundTrip(a);
    NumberRoundTrip(b);
  }

  /** A rendered integer holds a minus sign only at its start, followed by a digit. */
  lemma IntToStringDashes(i: int)
    ensures forall k :: 0 < k < |IntToString(i)| ==> IsDigit(IntToString(i)[k])
    ensures |IntToString(i)| >= 1
    ensures IntToString(i)[0] == '-' || IsDigit(IntToString(i)[0])
  {
    if i < 0 {
      var d := NatToDecimal(-i);
      assert forall k :: 0 < k < |"-" + d| ==> ("-" + d)[k] == d[k - 1];
    }
  }
}
