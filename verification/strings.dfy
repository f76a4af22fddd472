/** Character classes and small string helpers shared by every stage of the
    extraction pipeline: Python's notion of whitespace, ASCII case folding,
    literal matching at a position, and `str.strip()`. */
module Strings {

  datatype Option<T> = None | Some(value: T)

  /** Python's `str.isspace()`, which is also the set `\s` matches in a str
      pattern and the set `str.strip()` removes. */
  predicate IsSpace(c: char) {
    var n := c as int;
    || n == 0x20 || 0x09 <= n <= 0x0D || 0x1C <= n <= 0x1F
    || n == 0x85 || n == 0xA0 || n == 0x1680 || 0x2000 <= n <= 0x200A
    || n == 0x2028 || n == 0x2029 || n == 0x202F || n == 0x205F || n == 0x3000
  }

  /** `\d`, restricted to the ASCII digits. */
  predicate IsDigit(c: char) {
    '0' <= c <= '9'
  }

  /** The letters `[a-dA-D]` an option label or an answer may use. */
  predicate IsOptionLetter(c: char) {
    'a' <= c <= 'd' || 'A' <= c <= 'D'
  }

  /** ASCII lower-casing, the case folding used for every IGNORECASE pattern. */
  function Lower(c: char): (r: char)
    ensures !('A' <= r <= 'Z')
    ensures 'a' <= r <= 'z' <==> ('a' <= c <= 'z' || 'A' <= c <= 'Z')
    ensures 'a' <= c <= 'z' || !('A' <= c <= 'Z') ==> r == c
    ensures 'A' <= c <= 'Z' ==> r as int == c as int + 32
  {
    if 'A' <= c <= 'Z' then (c as int + 32) as char else c
  }

  /** `lit` occurs in `s` starting at position `i`, character for character. */
  predicate HasLiteralAt(s: string, i: nat, lit: string) {
    i + |lit| <= |s| && s[i..i + |lit|] == lit
  }

  /** `lit` occurs in `s` at position `i` up to ASCII case. */
  predicate HasLiteralCIAt(s: string, i: nat, lit: string) {
    i + |lit| <= |s| && forall k :: 0 <= k < |lit| ==> Lower(s[i + k]) == Lower(lit[k])
  }

  /** `\s*` at position `i`: the first position at or after `i` that is not whitespace. */
  function SkipSpaces(s: string, i: nat): (j: nat)
    requires i <= |s|
    ensures i <= j <= |s|
    ensures forall k :: i <= k < j ==> IsSpace(s[k])
    ensures j == |s| || !IsSpace(s[j])
    decreases |s| - i
  {
    if i < |s| && IsSpace(s[i]) then SkipSpaces(s, i + 1) else i
  }

  /** `\d*` at position `i`: the first position at or after `i` that is not a digit. */
  function SkipDigits(s: string, i: nat): (j: nat)
    requires i <= |s|
    ensures i <= j <= |s|
    ensures forall k :: i <= k < j ==> IsDigit(s[k])
    ensures j == |s| || !IsDigit(s[j])
    decreases |s| - i
  {
    if i < |s| && IsDigit(s[i]) then SkipDigits(s, i + 1) else i
  }

  /** `.*` without DOTALL at position `i`: the end of the current line, that
      is the first newline at or after `i`, or the end of the text. */
  function LineEnd(s: string, i: nat): (j: nat)
    requires i <= |s|
    ensures i <= j <= |s|
    ensures forall k :: i <= k < j ==> s[k] != '\n'
    ensures j == |s| || s[j] == '\n'
    decreases |s| - i
  {
    if i < |s| && s[i] != '\n' then LineEnd(s, i + 1) else i
  }

  /** Index one past the last non-whitespace character in `[lo, j)`, or `lo`. */
  function TrimBack(s: string, lo: nat, j: nat): (e: nat)
    requires lo <= j <= |s|
    ensures lo <= e <= j
    ensures forall k :: e <= k < j ==> IsSpace(s[k])
    ensures e == lo || !IsSpace(s[e - 1])
    decreases j
  {
    if j > lo && IsSpace(s[j - 1]) then TrimBack(s, lo, j - 1) else j
  }

  /** Index one past the last non-whitespace character at or after `lo`. */
  function StripEnd(s: string, lo: nat): (j: nat)
    requires lo <= |s|
    ensures lo <= j <= |s|
    ensures forall k :: j <= k < |s| ==> IsSpace(s[k])
    ensures j == lo || !IsSpace(s[j - 1])
  {
    TrimBack(s, lo, |s|)
  }

  /** Every character of `s` is whitespace. */
  predicate AllSpace(s: string) {
    forall k :: 0 <= k < |s| ==> IsSpace(s[k])
  }

  /** Python's `str.strip()` with no argument. */
  function Strip(s: string): (r: string)
    ensures SkipSpaces(s, 0) <= StripEnd(s, SkipSpaces(s, 0))
    ensures r == s[SkipSpaces(s, 0)..StripEnd(s, SkipSpaces(s, 0))]
    ensures r == [] <==> AllSpace(s)
    ensures r != [] ==> !IsSpace(r[0]) && !IsSpace(r[|r| - 1])
  {
    var i := SkipSpaces(s, 0);
    var j := StripEnd(s, i);
    assert AllSpace(s) ==> i == |s|;
    assert i == j ==> AllSpace(s) by {
      if i == j {
        forall k | 0 <= k < |s| ensures IsSpace(s[k]) {
          if k >= i {
          }
        }
      }
    }
    s[i..j]
  }

  /** Stripping a string that has no surrounding whitespace leaves it alone. */
  lemma {:induction false} StripOfStripped(s: string)
    requires s == [] || (!IsSpace(s[0]) && !IsSpace(s[|s| - 1]))
    ensures Strip(s) == s
  {
    if s != [] {
      assert SkipSpaces(s, 0) == 0;
      assert StripEnd(s, 0) == |s|;
    }
  }

  /** `str.strip()` is idempotent. */
  lemma {:induction false} StripIdempotent(s: string)
    ensures Strip(Strip(s)) == Strip(s)
  {
    StripOfStripped(Strip(s));
  }

  /** Skipping whitespace from `i` passes over an all-space stretch up to `j`. */
  lemma {:induction false} SkipSpacesFrom(s: string, i: nat, j: nat)
    requires i <= j <= |s|
    requires forall k :: i <= k < j ==> IsSpace(s[k])
    ensures SkipSpaces(s, i) == SkipSpaces(s, j)
    decreases j - i
  {
    if i < j {
      SkipSpacesFrom(s, i + 1, j);
    }
  }

  /** Every character in `[i, j)` is whitespace. */
  predicate SpacesBetween(s: string, i: nat, j: nat) {
    forall k :: i <= k < j && k < |s| ==> IsSpace(s[k])
  }

  /** Every character in `[i, j)` is a digit. */
  predicate DigitsBetween(s: string, i: nat, j: nat) {
    forall k :: i <= k < j && k < |s| ==> IsDigit(s[k])
  }

  /** `\s*` from `i` stops at `j` exactly when `[i, j)` is whitespace and
      the character at `j`, if any, is not. */
  lemma {:induction false} SkipSpacesIs(s: string, i: nat, j: nat)
    requires i <= j <= |s|
    ensures SkipSpaces(s, i) == j <==> SpacesBetween(s, i, j) && (j == |s| || !IsSpace(s[j]))
  {
    if SpacesBetween(s, i, j) && (j == |s| || !IsSpace(s[j])) {
      SkipSpacesFrom(s, i, j);
    }
  }

  /** `\d*` from `i` stops at `j` exactly when `[i, j)` is digits and the
      character at `j`, if any, is not. */
  lemma {:induction false} SkipDigitsIs(s: string, i: nat, j: nat)
    requires i <= j <= |s|
    ensures SkipDigits(s, i) == j <==> DigitsBetween(s, i, j) && (j == |s| || !IsDigit(s[j]))
  {
    if DigitsBetween(s, i, j) && (j == |s| || !IsDigit(s[j])) {
      SkipDigitsFrom(s, i, j);
    }
  }

  /** Skipping digits from `i` passes over an all-digit stretch up to `j`. */
  lemma {:induction false} SkipDigitsFrom(s: string, i: nat, j: nat)
    requires i <= j <= |s|
    requires forall k :: i <= k < j ==> IsDigit(s[k])
    ensures SkipDigits(s, i) == SkipDigits(s, j)
    decreases j - i
  {
    if i < j {
      SkipDigitsFrom(s, i + 1, j);
    }
  }

  /** Skipping whitespace in a suffix is skipping it in the whole text. */
  lemma {:induction false} SkipSpacesShift(s: string, d: nat)
    requires d <= |s|
    ensures SkipSpaces(s, d) == d + SkipSpaces(s[d..], 0)
  {
    var t := s[d..];
    var j := SkipSpaces(t, 0);
    assert forall k :: d <= k < d + j ==> IsSpace(s[k]) by {
      forall k | d <= k < d + j ensures IsSpace(s[k]) {
        assert s[k] == t[k - d];
      }
    }
    SkipSpacesFrom(s, d, d + j);
  }

  /** `StripEnd` is determined by its characterisation. */
  lemma {:induction false} StripEndIs(s: string, lo: nat, j: nat)
    requires lo <= j <= |s|
    requires forall k :: j <= k < |s| ==> IsSpace(s[k])
    requires j == lo || !IsSpace(s[j - 1])
    ensures StripEnd(s, lo) == j
  {
    var e := StripEnd(s, lo);
    assert e <= j;
    assert j <= e;
  }

  /** Stripping a text that is whitespace, then a word, then whitespace,
      leaves the word, provided the word begins and ends with something
      other than whitespace. */
  lemma {:induction false} StripSurrounded(u: string, g: string, v: string)
    requires AllSpace(u) && AllSpace(v)
    requires g != [] && !IsSpace(g[0]) && !IsSpace(g[|g| - 1])
    ensures Strip(u + g + v) == g
  {
    var t := u + g + v;
    SkipSpacesFrom(t, 0, |u|);
    assert SkipSpaces(t, |u|) == |u|;
    StripEndIs(t, |u|, |u| + |g|);
    assert t[|u|..|u| + |g|] == g;
  }

  /** The three parts of a text laid out as `a + b + c` from `from` on. */
  lemma {:induction false} SliceParts(t: string, from: nat, a: string, b: string, c: string)
    requires from <= |t| && t[from..] == a + b + c
    ensures from + |a| + |b| <= |t|
    ensures t[from..from + |a|] == a
    ensures t[from + |a|..from + |a| + |b|] == b
    ensures t[from + |a| + |b|..] == c
  {
    var u := t[from..];
    assert u[..|a|] == a;
    assert u[|a|..|a| + |b|] == b;
    assert u[|a| + |b|..] == c;
  }

  /** Skipping the whitespace that begins a text does not change its strip. */
  lemma {:induction false} StripSkipped(s: string, e: nat)
    requires e <= |s|
    ensures Strip(s[SkipSpaces(s, e)..]) == Strip(s[e..])
  {
    SkipSpacesShift(s, e);
    StripOfSkipped(s, e, SkipSpaces(s[e..], 0));
  }

  /** The same, with the whitespace skipped measured from `e`. */
  lemma {:induction false} StripOfSkipped(s: string, e: nat, i0: nat)
    requires e <= |s| && i0 == SkipSpaces(s[e..], 0)
    ensures e + i0 <= |s|
    ensures Strip(s[e + i0..]) == Strip(s[e..])
  {
    var u := s[e..];
    var v := u[i0..];
    var j := StripEnd(u, i0);
    SuffixOfSuffix(s, e, i0);
    StripEndOfSuffix(u, i0);
    assert SkipSpaces(v, 0) == 0;
    SliceOfSlice(u, i0, |u|, 0, j - i0);
  }

  /** A suffix of a suffix is a suffix. */
  lemma {:induction false} SuffixOfSuffix(s: string, e: nat, i: nat)
    requires e + i <= |s|
    ensures s[e..][i..] == s[e + i..]
  {
    forall k | 0 <= k < |s| - e - i ensures s[e..][i..][k] == s[e + i..][k] {
      assert s[e..][i..][k] == s[e..][i + k] == s[e + i + k];
    }
  }

  /** `StripEnd` of a suffix, measured from the suffix's start. */
  lemma {:induction false} StripEndOfSuffix(u: string, i0: nat)
    requires i0 <= |u|
    ensures StripEnd(u[i0..], 0) == StripEnd(u, i0) - i0
  {
    var v := u[i0..];
    var k := StripEnd(u, i0);
    forall m | k - i0 <= m < |v| ensures IsSpace(v[m]) {
      assert v[m] == u[m + i0];
    }
    if k > i0 {
      assert v[k - i0 - 1] == u[k - 1];
    }
    StripEndIs(v, 0, k - i0);
  }

  /** ASCII lower-casing yields a newline only from a newline. */
  lemma {:induction false} LowerNewline(c: char)
    ensures Lower(c) == '\n' <==> c == '\n'
  {
  }

  /** A case-insensitive literal that fits inside the left part of a concatenation. */
  lemma {:induction false} LiteralCIInLeft(a: string, b: string, i: nat, lit: string)
    requires i + |lit| <= |a|
    ensures HasLiteralCIAt(a + b, i, lit) == HasLiteralCIAt(a, i, lit)
  {
    forall j | i <= j < i + |lit| ensures (a + b)[j] == a[j] {
    }
  }

  /** A case-insensitive literal free of newlines cannot cover a newline. */
  lemma {:induction false} LiteralCINotOver(s: string, i: nat, lit: string, n: nat)
    requires i <= n < i + |lit| && n < |s| && s[n] == '\n'
    requires '\n' !in lit
    ensures !HasLiteralCIAt(s, i, lit)
  {
    assert lit[n - i] in lit;
    LowerNewline(lit[n - i]);
    assert Lower(s[i + (n - i)]) != Lower(lit[n - i]);
  }

  /** A literal inside a slice is a literal in the whole text, shifted. */
  lemma {:induction false} LiteralInSlice(s: string, lo: nat, hi: nat, i: nat, lit: string)
    requires lo <= hi <= |s| && i + |lit| <= hi - lo
    ensures HasLiteralAt(s[lo..hi], i, lit) == HasLiteralAt(s, lo + i, lit)
  {
    var u := s[lo..hi][i..i + |lit|];
    var v := s[lo + i..lo + i + |lit|];
    forall k | 0 <= k < |lit| ensures u[k] == v[k] {
    }
    assert u == v;
  }

  /** A literal that fits inside the left part of a concatenation. */
  lemma {:induction false} LiteralInLeft(a: string, b: string, i: nat, lit: string)
    requires i + |lit| <= |a|
    ensures HasLiteralAt(a + b, i, lit) == HasLiteralAt(a, i, lit)
  {
    assert (a + b)[i..i + |lit|] == a[i..i + |lit|];
  }

  /** A literal inside the right part of a concatenation. */
  lemma {:induction false} LiteralInRight(a: string, b: string, j: nat, lit: string)
    ensures HasLiteralAt(a + b, |a| + j, lit) == HasLiteralAt(b, j, lit)
  {
    if j + |lit| <= |b| {
      assert (a + b)[|a| + j..|a| + j + |lit|] == b[j..j + |lit|];
    }
  }

  /** A literal free of the character `c` cannot straddle a junction next
      to which `c` stands. */
  lemma {:induction false} LiteralNotAcross(a: string, b: string, i: nat, lit: string, c: char)
    requires i < |a| < i + |lit|
    requires c !in lit
    requires a[|a| - 1] == c || (b != [] && b[0] == c)
    ensures !HasLiteralAt(a + b, i, lit)
  {
    var x := a + b;
    if i + |lit| <= |x| {
      if a[|a| - 1] == c {
        assert x[i..i + |lit|][|a| - 1 - i] == c;
        assert lit[|a| - 1 - i] != c;
      } else {
        assert x[i..i + |lit|][|a| - i] == c;
        assert lit[|a| - i] != c;
      }
    }
  }
  /** Part of a literal found in a text is found there too, also up to case. */
  lemma {:induction false} LiteralPart(s: string, i: nat, lit: string, off: nat, w: string)
    requires HasLiteralAt(s, i, lit)
    requires off + |w| <= |lit| && lit[off..off + |w|] == w
    ensures HasLiteralAt(s, i + off, w)
    ensures HasLiteralCIAt(s, i + off, w)
  {
    forall k | 0 <= k < |w| ensures s[i + off + k] == w[k] {
      assert s[i..i + |lit|][off + k] == lit[off + k];
    }
    assert s[i + off..i + off + |w|] == w;
  }

  /** A character of a literal found in a text. */
  lemma {:induction false} LiteralChar(s: string, i: nat, lit: string, off: nat)
    requires HasLiteralAt(s, i, lit) && off < |lit|
    ensures s[i + off] == lit[off]
  {
    assert s[i..i + |lit|][off] == lit[off];
  }

  /** One differing character rules a case-insensitive literal out. */
  lemma {:induction false} LiteralCIMismatch(s: string, i: nat, lit: string, k: nat)
    requires k < |lit| && i + k < |s|
    requires Lower(s[i + k]) != Lower(lit[k])
    ensures !HasLiteralCIAt(s, i, lit)
  {
  }

  /** The three parts of `a + (b + c)`, and its first and last characters. */
  lemma {:induction false} SliceOfThree(a: string, b: string, c: string)
    ensures var t := a + (b + c);
      && t[..|a|] == a
      && t[|a|..] == b + c
      && t[|a|..|a| + |b|] == b
      && (a != [] ==> t[0] == a[0])
      && (c != [] ==> t[|t| - 1] == c[|c| - 1])
  {
  }

  /** Concatenation is associative. */
  lemma {:induction false} ConcatAssoc(a: string, b: string, c: string)
    ensures a + (b + c) == (a + b) + c
  {
  }

  /** The whitespace after the tag is skipped and the value runs to the end
      of its line. */
  lemma {:induction false} ValueAfterTag(pre: string, gap: string, v: string, tail: string)
    requires AllSpace(gap)
    requires v != [] && '\n' !in v && !IsSpace(v[0])
    requires tail == [] || tail[0] == '\n'
    ensures var t := pre + (gap + (v + tail));
      var a := SkipSpaces(t, |pre|);
      a == |pre| + |gap| && t[a..LineEnd(t, a)] == v
  {
    var t := pre + (gap + (v + tail));
    var u := (pre + gap) + (v + tail);
    var a := |pre| + |gap|;
    ConcatAssoc(pre, gap, v + tail);
    assert t == u;
    GapSkipped(pre, gap, v + tail);
    ValueLine(pre + gap, v, tail);
  }

  /** `\s*` runs over the whitespace up to the next character. */
  lemma {:induction false} GapSkipped(pre: string, gap: string, post: string)
    requires AllSpace(gap)
    requires post != [] && !IsSpace(post[0])
    ensures SkipSpaces(pre + (gap + post), |pre|) == |pre| + |gap|
  {
    var t := pre + (gap + post);
    var e := |pre|;
    var a := e + |gap|;
    PlacedChars(pre, gap, post);
    SkipSpacesFrom(t, e, a);
    assert t[a] == (gap + post)[|gap|] == post[0];
  }

  /** A value free of line breaks, followed by one or by the end, is its line. */
  lemma {:induction false} ValueLine(pre: string, v: string, tail: string)
    requires '\n' !in v
    requires tail == [] || tail[0] == '\n'
    ensures var t := pre + (v + tail);
      LineEnd(t, |pre|) == |pre| + |v| && t[|pre|..|pre| + |v|] == v
  {
    var t := pre + (v + tail);
    var a := |pre|;
    var b := a + |v|;
    PlacedChars(pre, v, tail);
    if tail != [] {
      assert t[b] == (v + tail)[|v|] == tail[0];
    }
    LineEndFrom(t, a, b);
    assert t[a..b] == v;
  }

  /** The characters of the middle part of a concatenation. */
  lemma {:induction false} PlacedChars(pre: string, v: string, tail: string)
    ensures var t := pre + (v + tail);
      forall k :: |pre| <= k < |pre| + |v| ==> t[k] == v[k - |pre|]
  {
    var t := pre + (v + tail);
    var a := |pre|;
    forall k | a <= k < a + |v| ensures t[k] == v[k - a] {
      var j := k - a;
      assert (v + tail)[j] == v[j];
      assert t[a + j] == (v + tail)[j];
    }
  }

  /** The end of the line is past a stretch without line breaks. */
  lemma {:induction false} LineEndFrom(s: string, i: nat, j: nat)
    requires i <= j <= |s|
    requires forall k :: i <= k < j ==> s[k] != '\n'
    requires j == |s| || s[j] == '\n'
    ensures LineEnd(s, i) == j
    decreases j - i
  {
    if i < j {
      LineEndFrom(s, i + 1, j);
    }
  }

  /** The rest of a line, stripped, holds no line break. */
  lemma {:induction false} StrippedLine(s: string, a: nat)
    requires a <= |s|
    ensures '\n' !in Strip(s[a..LineEnd(s, a)])
  {
    var line := s[a..LineEnd(s, a)];
    var r := Strip(line);
    var lo := SkipSpaces(line, 0);
    forall i | 0 <= i < |r| ensures r[i] != '\n' {
      assert r[i] == line[lo + i] == s[a + lo + i];
    }
  }

  /** Stripping a slice whose ends are whitespace around a core that
      begins and ends with something else leaves the core. */
  lemma {:induction false} StripOfSlice(s: string, lo: nat, i: nat, j: nat, hi: nat)
    requires lo <= i < j <= hi <= |s|
    requires forall k :: lo <= k < i ==> IsSpace(s[k])
    requires forall k :: j <= k < hi ==> IsSpace(s[k])
    requires !IsSpace(s[i]) && !IsSpace(s[j - 1])
    ensures Strip(s[lo..hi]) == s[i..j]
  {
    var t := s[lo..hi];
    SpacesInSlice(s, lo, hi, 0, i - lo);
    SkipSpacesFrom(t, 0, i - lo);
    assert t[i - lo] == s[i];
    SpacesInSlice(s, lo, hi, j - lo, hi - lo);
    assert t[j - lo - 1] == s[j - 1];
    StripEndIs(t, i - lo, j - lo);
    SliceOfSlice(s, lo, hi, i - lo, j - lo);
  }

  /** Whitespace of a text is whitespace of a slice of it. */
  lemma {:induction false} SpacesInSlice(s: string, lo: nat, hi: nat, a: nat, b: nat)
    requires lo <= hi <= |s| && a <= b <= hi - lo
    requires forall k :: lo + a <= k < lo + b ==> IsSpace(s[k])
    ensures forall k :: a <= k < b ==> IsSpace(s[lo..hi][k])
  {
    forall k | a <= k < b ensures IsSpace(s[lo..hi][k]) {
      assert s[lo..hi][k] == s[lo + k];
    }
  }

  /** A slice of a slice is a slice. */
  lemma {:induction false} SliceOfSlice(s: string, lo: nat, hi: nat, a: nat, b: nat)
    requires lo <= hi <= |s| && a <= b <= hi - lo
    ensures s[lo..hi][a..b] == s[lo + a..lo + b]
  {
    var t := s[lo..hi];
    forall k | 0 <= k < b - a ensures t[a..b][k] == s[lo + a..lo + b][k] {
      assert t[a..b][k] == t[a + k] == s[lo + a + k];
    }
  }
}
