/** The title a test is listed under, made from the name of its PDF file:
    the name without `.pdf`, with `-` and `_` turned into spaces. */
module Titles {
  import opened Strings
  import opened Scan

  /** The replacer that puts a single space in place of the match. */
  function Space(t: string): string { " " }

  /** `c` turned into a space wherever it occurs, one character at a time. */
  function SpacedOut(c: char, s: string): (r: string)
    ensures |r| == |s|
    ensures forall i :: 0 <= i < |r| ==> r[i] == if s[i] == c then ' ' else s[i]
  {
    if s == [] then []
    else [if s[0] == c then ' ' else s[0]] + SpacedOut(c, s[1..])
  }

  /** `str.replace` of the character `c` by a space. */
  function SpaceFor(c: char, s: string): (r: string)
    ensures r == SpacedOut(c, s)
  {
    SpaceForFrom(c, s, 0);
    assert s[0..] == s;
    Sub(LiteralAt([c]), Space, s)
  }

  /** Replacing `c` by a space from position `from` on is `SpacedOut` of the
      rest of the text. */
  lemma {:induction false} SpaceForFrom(c: char, s: string, from: nat)
    requires from <= |s|
    ensures SubFrom(LiteralAt([c]), Space, s, from) == SpacedOut(c, s[from..])
    decreases |s| - from
  {
    if from < |s| {
      SpaceForFrom(c, s, from + 1);
      SpaceForStep(c, s, from);
      assert s[from..][1..] == s[from + 1..];
    } else {
      assert s[from..] == [];
    }
  }

  /** One character of the replacement: `c` becomes a space, any other
      character is kept. */
  lemma {:induction false} SpaceForStep(c: char, s: string, from: nat)
    requires from < |s|
    ensures SubFrom(LiteralAt([c]), Space, s, from)
      == [if s[from] == c then ' ' else s[from]] + SubFrom(LiteralAt([c]), Space, s, from + 1)
  {
    var m := LiteralAt([c]);
    if s[from] == c {
      assert s[from..from + 1] == [c];
      assert MatchesAt(m, s, from);
      SearchFinds(m, s, from, from);
      SubFromStep(m, Space, s, from, Span(from, from + 1));
      assert s[from..from] == [];
    } else {
      assert !MatchesAt(m, s, from);
      SubFromSkip(m, Space, s, from);
    }
  }

  /** A character of the title: `-` and `_` become spaces. */
  function TitleChar(c: char): char {
    if c == '-' || c == '_' then ' ' else c
  }

  /** The file name with every `.pdf` removed. */
  function BaseName(file: string): (r: string)
    ensures |r| <= |file|
  {
    SubDeleteShrinks(LiteralAt(".pdf"), file, 0);
    Sub(LiteralAt(".pdf"), Delete, file)
  }

  /** The title of the test read from `file`. */
  function Title(file: string): (r: string)
    ensures '-' !in r && '_' !in r
    ensures |r| == |BaseName(file)|
    ensures forall i :: 0 <= i < |r| ==> r[i] == TitleChar(BaseName(file)[i])
  {
    SpaceFor('_', SpaceFor('-', BaseName(file)))
  }

  /** The title of `name.pdf`, for a name without dots, is the name with
      `-` and `_` turned into spaces, character for character. */
  lemma {:induction false} TitleOfPdfName(name: string)
    requires '.' !in name
    ensures |Title(name + ".pdf")| == |name|
    ensures forall i :: 0 <= i < |name| ==> Title(name + ".pdf")[i] == TitleChar(name[i])
  {
    var file := name + ".pdf";
    var m := LiteralAt(".pdf");
    var n := |name|;
    forall k | 0 <= k < n ensures !MatchesAt(m, file, k) {
      assert file[k] == name[k];
    }
    assert file[n..n + 4] == ".pdf";
    assert MatchesAt(m, file, n);
    SearchFinds(m, file, 0, n);
    SubDeleteStep(m, file, 0, Span(n, n + 4));
    assert file[0..n] == name;
    assert BaseName(file) == name;
  }
}
