/**
 * The Python `str` operations the scrapers rely on, on strings modelled as
 * `seq<char>`: the `\s` / `str.isspace` class, `\d` (ASCII), `strip()`,
 * `split(c)`, `split(c, 1)`, substring search and decimal conversion.
 */
module Text {
  import opened Optional

  /** `str.isspace()`, which is also what `\s` matches in a `str` pattern. */
  predicate IsSpace(c: char)
  {
    c == ' ' || '\t' <= c <= '\r' || '\U{1C}' <= c <= '\U{1F}' ||
    c == '\U{85}' || c == '\U{A0}' || c == '\U{1680}' ||
    '\U{2000}' <= c <= '\U{200A}' || c == '\U{2028}' || c == '\U{2029}' ||
    c == '\U{202F}' || c == '\U{205F}' || c == '\U{3000}'
  }

  /** `\d`, restricted to ASCII digits. */
  predicate IsDigit(c: char)
  {
    '0' <= c <= '9'
  }

  predicate AllDigits(s: string)
  {
    forall k :: 0 <= k < |s| ==> IsDigit(s[k])
  }

  /** Every character of `s[lo..hi]` is in the class `p`. */
  predicate AllIn(s: string, lo: nat, hi: nat, p: char -> bool)
  {
    lo <= hi <= |s| && forall k :: lo <= k < hi ==> p(s[k])
  }

  /** The end of the longest run of class `p` starting at `i`: what a greedy `p+` or `p*` consumes. */
  function RunEnd(s: string, i: nat, p: char -> bool): (j: nat)
    requires i <= |s|
    ensures AllIn(s, i, j, p)
    ensures j < |s| ==> !p(s[j])
    decreases |s| - i
  {
    if i < |s| && p(s[i]) then RunEnd(s, i + 1, p) else i
  }

  /** A run of class `p` that stops at a character outside `p` is the greedy run. */
  lemma RunEndIs(s: string, i: nat, j: nat, p: char -> bool)
    requires AllIn(s, i, j, p) && j < |s| && !p(s[j])
    ensures RunEnd(s, i, p) == j
  {
  }

  function Pow10(n: nat): (r: nat)
    ensures r >= 1
  {
    if n == 0 then 1 else 10 * Pow10(n - 1)
  }

  /** `int(s)` for a string of decimal digits. */
  function Value(s: string): (n: nat)
    requires AllDigits(s)
    ensures n < Pow10(|s|)
  {
    if s == [] then 0 else Value(s[..|s| - 1]) * 10 + (s[|s| - 1] as int - '0' as int)
  }

  /** The start of the run of class `p` that ends at `j` and begins no earlier than `lo`: what a greedy `p*$` consumes. */
  function RunStart(s: string, lo: nat, j: nat, p: char -> bool): (i: nat)
    requires lo <= j <= |s|
    ensures lo <= i <= j && AllIn(s, i, j, p)
    ensures lo < i ==> !p(s[i - 1])
    decreases j
  {
    if lo < j && p(s[j - 1]) then RunStart(s, lo, j - 1, p) else j
  }

  /** Where `s.strip()` begins: after the leading white space. */
  function StripStart(s: string): nat
  {
    RunEnd(s, 0, IsSpace)
  }

  /** Where `s.strip()` ends: before the trailing white space. */
  function StripEnd(s: string): nat
  {
    RunStart(s, StripStart(s), |s|, IsSpace)
  }

  /** `s.strip()`: no white space at either end; empty exactly for all-white-space text. */
  function Strip(s: string): (r: string)
    ensures r != [] ==> !IsSpace(r[0]) && !IsSpace(r[|r| - 1])
    ensures r == [] <==> forall k :: 0 <= k < |s| ==> IsSpace(s[k])
  {
    var a := StripStart(s);
    var b := StripEnd(s);
    assert a < b ==> !IsSpace(s[a]) && !IsSpace(s[b - 1]);
    assert a == b ==> forall k :: 0 <= k < |s| ==> IsSpace(s[k]) by {
      if a == b {
        assert AllIn(s, 0, a, IsSpace) && AllIn(s, b, |s|, IsSpace);
      }
    }
    s[a..b]
  }

  /**
   * Only white space is removed: `s.strip()` is the slice of `s` left between
   * a white-space prefix and a white-space suffix.
   */
  lemma StripIsSlice(s: string)
    ensures var a := StripStart(s); var b := StripEnd(s);
      a <= b <= |s| && Strip(s) == s[a..b] &&
      (forall k :: 0 <= k < a ==> IsSpace(s[k])) && (forall k :: b <= k < |s| ==> IsSpace(s[k]))
  {
    assert AllIn(s, 0, StripStart(s), IsSpace);
    assert AllIn(s, StripEnd(s), |s|, IsSpace);
  }

  /** Text with no white space at either end is its own `strip()`. */
  lemma StripUnchanged(s: string)
    requires s != [] && !IsSpace(s[0]) && !IsSpace(s[|s| - 1])
    ensures Strip(s) == s
  {
    assert StripStart(s) == 0;
    assert StripEnd(s) == |s|;
    assert s[0..|s|] == s;
  }

  /** Stripping keeps a substring, so it adds no character that the text lacks. */
  lemma StripKeeps(s: string, c: char)
    requires c !in s
    ensures c !in Strip(s)
  {
    var a := StripStart(s);
    assert forall k :: 0 <= k < |Strip(s)| ==> Strip(s)[k] == s[a + k];
  }

  /** The index of the first `c` in `s` (`s.find(c)` when it is not -1). */
  function IndexOf(s: string, c: char): (r: Option<nat>)
    ensures r.None? <==> c !in s
    ensures r.Some? ==> r.value < |s| && s[r.value] == c && c !in s[..r.value]
  {
    if s == [] then None
    else if s[0] == c then Some(0)
    else match IndexOf(s[1..], c)
      case None => None
      case Some(i) => assert s[..i + 1] == [s[0]] + s[1..][..i]; Some(i + 1)
  }

  /** `s.split(c)[0]` (which is also `s.split(c, 1)[0]`): the text before the first `c`. */
  function Before(s: string, c: char): (r: string)
    ensures c !in r && |r| <= |s| && r == s[..|r|]
    ensures |r| < |s| <==> c in s
    ensures |r| < |s| ==> s[|r|] == c
  {
    match IndexOf(s, c)
    case None => s
    case Some(i) => s[..i]
  }

  /** A prefix free of `c` that stops at a `c` or at the end is the text before the first `c`. */
  lemma BeforeIs(s: string, c: char, k: nat)
    requires k <= |s| && c !in s[..k] && (k < |s| ==> s[k] == c)
    ensures Before(s, c) == s[..k]
  {
    var r := Before(s, c);
    assert forall i :: 0 <= i < k ==> s[i] != c by {
      assert forall i :: 0 <= i < k ==> s[i] == s[..k][i];
    }
    assert |r| == k;
  }

  /** `s.split(c, 1)[1]`: the text after the first `c`, defined when `c in s`. */
  function After(s: string, c: char): (r: string)
    requires c in s
    ensures s == Before(s, c) + [c] + r
  {
    s[|Before(s, c)| + 1..]
  }

  /** Splitting at a first `c` that `a` does not contain gives back `a` and `b`. */
  lemma {:induction false} BeforeAfterUnique(a: string, c: char, b: string)
    requires c !in a
    ensures Before(a + [c] + b, c) == a
    ensures After(a + [c] + b, c) == b
  {
    var s := a + [c] + b;
    var r := Before(s, c);
    assert forall k :: 0 <= k < |a| ==> s[k] == a[k];
    assert s[|a|] == c;
    assert |r| == |a|;
    assert r == s[..|a|] == a;
  }

  /** `s.count(c)` for a single character. */
  function Count(s: string, c: char): (n: nat)
    ensures n == 0 <==> c !in s
  {
    if s == [] then 0 else (if s[0] == c then 1 else 0) + Count(s[1..], c)
  }

  /** Counting over `a + b` adds the counts of `a` and `b`. */
  lemma {:induction false} CountAppend(a: string, b: string, c: char)
    ensures Count(a + b, c) == Count(a, c) + Count(b, c)
    decreases |a|
  {
    if a != [] {
      assert (a + b)[1..] == a[1..] + b;
      CountAppend(a[1..], b, c);
    } else {
      assert a + b == b;
    }
  }

  /** `s.split(c)`: the pieces between occurrences of `c`; there is always one more piece than there are `c`s. */
  function Split(s: string, c: char): (parts: seq<string>)
    ensures |parts| >= 1 && parts[0] == Before(s, c)
    ensures c !in s ==> parts == [s]
    decreases |s|
  {
    if c in s then [Before(s, c)] + Split(After(s, c), c) else [s]
  }

  /** There is one more piece than there are `c`s, and no piece holds `c`. */
  lemma {:induction false} SplitPieces(s: string, c: char)
    ensures |Split(s, c)| == 1 + Count(s, c)
    ensures forall k :: 0 <= k < |Split(s, c)| ==> c !in Split(s, c)[k]
    decreases |s|
  {
    if c in s {
      SplitPieces(After(s, c), c);
      CountAppend(Before(s, c) + [c], After(s, c), c);
      CountAppend(Before(s, c), [c], c);
      assert Count([c], c) == 1 + Count([], c);
    }
  }

  /** Splitting `a + [c] + b` where `a` has no `c` yields `a` followed by the pieces of `b`. */
  lemma SplitCons(a: string, c: char, b: string)
    requires c !in a
    ensures Split(a + [c] + b, c) == [a] + Split(b, c)
  {
    BeforeAfterUnique(a, c, b);
  }

  /** `s[lo..k]` is the piece of `s[lo..hi]` before its first `c` (all of it when there is no `c`). */
  predicate FieldEnd(s: string, lo: nat, hi: nat, c: char, k: nat)
  {
    lo <= k <= hi <= |s| && c !in s[lo..k] && (k < hi ==> s[k] == c)
  }

  lemma FieldIsBefore(s: string, lo: nat, hi: nat, c: char, k: nat)
    requires FieldEnd(s, lo, hi, c, k)
    ensures Before(s[lo..hi], c) == s[lo..k]
  {
    assert s[lo..hi][..k - lo] == s[lo..k];
    BeforeIs(s[lo..hi], c, k - lo);
  }

  /** Cutting at the first `c`, found at `i`. */
  lemma SplitAtFirst(s: string, c: char, i: nat)
    requires i < |s| && s[i] == c && c !in s[..i]
    ensures c in s && Before(s, c) == s[..i] && After(s, c) == s[i + 1..]
  {
    BeforeIs(s, c, i);
  }

  /**
   * `s[i]` is the first `(` of `s`, and `s[i + 1..j]` runs from it to the next
   * `)`, or to the end of `s` when no `)` follows.
   */
  predicate FirstParenGroup(s: string, i: nat, j: nat)
  {
    i < |s| && s[i] == '(' && '(' !in s[..i] && FieldEnd(s, i + 1, |s|, ')', j)
  }

  /** `s.split("(", 1)[1].split(")")[0]` is the first parenthesised group. */
  lemma ParenGroupIsSplit(s: string, i: nat, j: nat)
    requires FirstParenGroup(s, i, j)
    ensures '(' in s && Split(After(s, '('), ')')[0] == s[i + 1..j]
  {
    SplitAtFirst(s, '(', i);
    FieldIsBefore(s, i + 1, |s|, ')', j);
    assert s[i + 1..|s|] == s[i + 1..];
  }

  predicate OccursAt(s: string, t: string, i: nat)
  {
    i + |t| <= |s| && s[i..i + |t|] == t
  }

  /** Python's `t in s` for strings: `t` occurs somewhere at or after `from` in `s`. */
  function ContainsFrom(s: string, t: string, from: nat): (b: bool)
    ensures b <==> exists i: nat :: from <= i && OccursAt(s, t, i)
    decreases |s| - from
  {
    if from + |t| > |s| then false
    else if s[from..from + |t|] == t then assert OccursAt(s, t, from); true
    else ContainsFrom(s, t, from + 1)
  }

  function Contains(s: string, t: string): (b: bool)
    ensures b <==> exists i: nat :: OccursAt(s, t, i)
  {
    ContainsFrom(s, t, 0)
  }
}
