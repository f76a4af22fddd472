/** Text normalisation before segmentation: the page-number artefacts removed
    from each extracted page, and `clean_garbage_text`, which deletes the
    institute's address block and the `SFG 2026` banner lines and then
    collapses runs of blank lines. */
module Cleaner {
  import opened Strings
  import opened Scan

  // ---------------------------------------------------------------------
  // Page markers, removed from each page's text as it is extracted.

  /** `\[\d+\]`: a page number in square brackets. */
  function BracketNumberAt(s: string, p: nat): Option<nat> {
    if p < |s| && s[p] == '[' then
      var j := SkipDigits(s, p + 1);
      if p + 1 < j < |s| && s[j] == ']' then Some(j + 1) else None
    else None
  }

  /** `---\s*PAGE\s*\d+\s*---`: a page banner. */
  function PageBannerAt(s: string, p: nat): Option<nat> {
    if HasLiteralAt(s, p, "---") then
      var a := SkipSpaces(s, p + 3);
      if HasLiteralAt(s, a, "PAGE") then
        var b := SkipSpaces(s, a + 4);
        var c := SkipDigits(s, b);
        var d := SkipSpaces(s, c);
        if b < c && HasLiteralAt(s, d, "---") then Some(d + 3) else None
      else None
    else None
  }

  /** `[n]` reads at `p` with the closing bracket at `j`. */
  predicate BracketNumberShape(s: string, p: nat, j: nat) {
    p + 1 < j < |s| && s[p] == '[' && DigitsBetween(s, p + 1, j) && s[j] == ']'
  }

  /** A bracketed page number matches at `p` with end `e` exactly when `[`,
      one or more digits and `]` run from `p` to `e`. */
  lemma {:induction false} BracketNumberMatch(s: string, p: nat, e: nat)
    ensures BracketNumberAt(s, p) == Some(e) <==> exists j: nat :: BracketNumberShape(s, p, j) && e == j + 1
  {
    if BracketNumberAt(s, p) == Some(e) {
      assert BracketNumberShape(s, p, SkipDigits(s, p + 1));
    }
    forall j: nat | BracketNumberShape(s, p, j) && e == j + 1 ensures BracketNumberAt(s, p) == Some(e) {
      SkipDigitsIs(s, p + 1, j);
    }
  }

  /** `---\s*PAGE\s*\d+\s*---` reads at `p` with `PAGE` at `a`, the number
      in `[b, c)` and the closing dashes at `d`. */
  predicate PageBannerShape(s: string, p: nat, a: nat, b: nat, c: nat, d: nat) {
    && HasLiteralAt(s, p, "---") && p + 3 <= a && SpacesBetween(s, p + 3, a)
    && HasLiteralAt(s, a, "PAGE") && a + 4 <= b && SpacesBetween(s, a + 4, b)
    && b < c && DigitsBetween(s, b, c) && c <= d && SpacesBetween(s, c, d)
    && HasLiteralAt(s, d, "---")
  }

  /** A page banner matches at `p` with end `e` exactly when it reads as
      dashes, `PAGE`, a number and dashes, with optional whitespace between;
      the character after each stretch of whitespace or digits ends it, so
      the greedy repetitions leave no choice. */
  lemma {:induction false} PageBannerMatch(s: string, p: nat, e: nat)
    ensures PageBannerAt(s, p) == Some(e) <==>
      exists a: nat, b: nat, c: nat, d: nat :: PageBannerShape(s, p, a, b, c, d) && e == d + 3
  {
    if PageBannerAt(s, p) == Some(e) {
      var a := SkipSpaces(s, p + 3);
      var b := SkipSpaces(s, a + 4);
      var c := SkipDigits(s, b);
      var d := SkipSpaces(s, c);
      PageBannerRead(s, p, a, b, c, d);
    }
    forall a: nat, b: nat, c: nat, d: nat | PageBannerShape(s, p, a, b, c, d) && e == d + 3
      ensures PageBannerAt(s, p) == Some(e)
    {
      PageBannerFound(s, p, a, b, c, d);
    }
  }

  /** The positions the page-banner matcher reaches read as a banner. */
  lemma {:induction false} PageBannerRead(s: string, p: nat, a: nat, b: nat, c: nat, d: nat)
    requires PageBannerAt(s, p).Some?
    requires a == SkipSpaces(s, p + 3) && b == SkipSpaces(s, a + 4)
    requires c == SkipDigits(s, b) && d == SkipSpaces(s, c)
    ensures PageBannerShape(s, p, a, b, c, d) && PageBannerAt(s, p) == Some(d + 3)
  {
  }

  /** A banner read out by its positions is what the matcher finds. */
  lemma {:induction false} PageBannerFound(s: string, p: nat, a: nat, b: nat, c: nat, d: nat)
    requires PageBannerShape(s, p, a, b, c, d)
    ensures PageBannerAt(s, p) == Some(d + 3)
  {
    PageBannerPositions(s, p, a, b, c, d);
  }

  /** Where the skips of the matcher stop on a banner read out by its
      positions. */
  lemma {:induction false} PageBannerPositions(s: string, p: nat, a: nat, b: nat, c: nat, d: nat)
    requires PageBannerShape(s, p, a, b, c, d)
    ensures a == SkipSpaces(s, p + 3) && b == SkipSpaces(s, a + 4)
    ensures c == SkipDigits(s, b) && d == SkipSpaces(s, c)
  {
    LiteralChar(s, a, "PAGE", 0);
    LiteralChar(s, d, "---", 0);
    assert !IsSpace(s[a]);
    SkipSpacesIs(s, p + 3, a);
    assert IsDigit(s[b]);
    SkipSpacesIs(s, a + 4, b);
    assert c < |s| && !IsDigit(s[c]) by {
      if c < d { assert IsSpace(s[c]); }
    }
    SkipDigitsIs(s, b, c);
    assert !IsSpace(s[d]);
    SkipSpacesIs(s, c, d);
  }

  /** The two page-marker substitutions applied to one page, in order. */
  function StripPageMarkers(page: string): (r: string)
    ensures |r| <= |page|
  {
    var a := Sub(BracketNumberAt, Delete, page);
    SubDeleteShrinks(BracketNumberAt, page, 0);
    SubDeleteShrinks(PageBannerAt, a, 0);
    Sub(PageBannerAt, Delete, a)
  }

  /** A page without `[` and without `---` comes through untouched. */
  lemma {:induction false} PlainPageUntouched(page: string)
    requires '[' !in page
    requires forall p :: 0 <= p < |page| ==> !HasLiteralAt(page, p, "---")
    ensures StripPageMarkers(page) == page
  {
    assert NoMatchIn(BracketNumberAt, page, 0, |page|) by {
      forall k | 0 <= k < |page| ensures !MatchesAt(BracketNumberAt, page, k) {
        assert page[k] in page;
      }
    }
    assert NoMatchIn(PageBannerAt, page, 0, |page|);
  }

  /** The text of a document: every page with its markers removed, each
      followed by a newline. */
  function PageText(pages: seq<string>): (r: string)
    ensures |r| >= |pages|
    ensures pages != [] ==> r[|r| - 1] == '\n'
  {
    if pages == [] then ""
    else PageText(pages[..|pages| - 1]) + StripPageMarkers(pages[|pages| - 1]) + "\n"
  }

  /** One page with its markers removed and a newline after it. */
  function PageLine(page: string): string {
    StripPageMarkers(page) + "\n"
  }

  /** The document text is the pages, in order, each with its markers
      removed and followed by a newline, put one after the other. */
  lemma {:induction false} PageTextIsConcat(pages: seq<string>)
    ensures PageText(pages) == Concat(MapRepl(PageLine, pages))
    decreases |pages|
  {
    if pages != [] {
      var init := pages[..|pages| - 1];
      var line := PageLine(pages[|pages| - 1]);
      PageTextIsConcat(init);
      MapReplSnoc(PageLine, pages);
      ConcatSnoc(MapRepl(PageLine, init), line);
      assert PageText(pages) == PageText(init) + line;
    }
  }

  // ---------------------------------------------------------------------
  // The address block.

  /** The address block, part by part; inside a part, consecutive segments
      are separated by `\s*`, and consecutive parts by `.*?` (any text,
      newlines included). The whole block is matched ignoring case. */
  const AddressParts: seq<seq<string>> := [
    ["Forum Learning Centre : Delhi - Plot No. 36, 4th Floor (Above Kalyan Jewellers), Pusa Road, Karol Bagh, New Delhi - 110005"],
    ["Patna - 2nd floor, AG Palace, E Boring", "Canal Road, Patna, Bihar 800001"],
    ["Hyderabad - 1st & 2nd Floor, SM Plaza, RTC X Rd, Indira Park Road, Jawahar Nagar, Hyderabad, Telangana 500020"],
    ["9311740400, 9311740900"],
    ["https://academy.forumias.com"],
    ["admissions@forumias.academy"],
    ["helpdesk@forumias.academy"]
  ]

  /** The line every address block begins with. */
  const AddressHead: string := AddressParts[0][0]

  /** One part of the address block at position `p`: its segments in
      order, ignoring case, with any run of whitespace between two segments. */
  function PartAt(segs: seq<string>, s: string, p: nat): (r: Option<nat>)
    ensures r.Some? ==> segs != [] && p + |segs[0]| <= r.value <= |s|
    ensures r.Some? ==> var w := segs[|segs| - 1];
      p + |w| <= r.value && HasLiteralCIAt(s, r.value - |w|, w)
    decreases |segs|
  {
    if segs != [] && HasLiteralCIAt(s, p, segs[0]) then
      var e := p + |segs[0]|;
      if |segs| == 1 then Some(e)
      else match PartAt(segs[1..], s, SkipSpaces(s, e))
        case None => None
        case Some(f) => Some(f)
    else None
  }

  /** The remaining parts, each found at its earliest occurrence after the
      previous one; the result is the end of the last. */
  function LaterPartsFrom(parts: seq<seq<string>>, s: string, i: nat): (r: Option<nat>)
    requires i <= |s|
    ensures r.Some? ==> i <= r.value <= |s|
    decreases |parts|
  {
    if parts == [] then Some(i)
    else
      var part := parts[0];
      match Search((t: string, p: nat) => PartAt(part, t, p), s, i)
      case None => None
      case Some(sp) => LaterPartsFrom(parts[1..], s, sp.end)
  }

  /** The whole address-block pattern at position `p`. */
  function AddressBlockAt(s: string, p: nat): Option<nat> {
    match PartAt(AddressParts[0], s, p)
    case None => None
    case Some(e) => LaterPartsFrom(AddressParts[1..], s, e)
  }

  /** The last segment of the address block. */
  const AddressTail: string := "helpdesk@forumias.academy"

  /** A match of the address block begins with its first line and ends
      with its last segment, both ignoring case. */
  lemma {:induction false} AddressBlockEnds(s: string, p: nat)
    requires MatchesAt(AddressBlockAt, s, p)
    ensures HasLiteralCIAt(s, p, AddressHead)
    ensures var e := MatchEnd(AddressBlockAt, s, p);
      p + |AddressHead| + |AddressTail| <= e && HasLiteralCIAt(s, e - |AddressTail|, AddressTail)
  {
    var e0 := PartAt(AddressParts[0], s, p).value;
    var later := AddressParts[1..];
    assert later[|later| - 1] == [AddressTail];
    LaterPartsLast(later, s, e0);
  }

  /** When the later parts are all found, the last of them ends the match. */
  lemma {:induction false} LaterPartsLast(parts: seq<seq<string>>, s: string, i: nat)
    requires i <= |s| && parts != [] && LaterPartsFrom(parts, s, i).Some?
    ensures var last := parts[|parts| - 1];
      var r := LaterPartsFrom(parts, s, i).value;
      last != [] && i + |last[|last| - 1]| <= r
      && HasLiteralCIAt(s, r - |last[|last| - 1]|, last[|last| - 1])
    decreases |parts|
  {
    var part := parts[0];
    var m := (t: string, q: nat) => PartAt(part, t, q);
    var sp := Search(m, s, i).value;
    assert PartAt(part, s, sp.start).Some?;
    assert i <= sp.start < sp.end;
    if |parts| > 1 {
      LaterPartsLast(parts[1..], s, sp.end);
      assert parts[1..][|parts[1..]| - 1] == parts[|parts| - 1];
    }
  }

  /** Step 1 of `clean_garbage_text`. */
  function RemoveAddressBlock(text: string): (r: string)
    ensures |r| <= |text|
  {
    SubDeleteShrinks(AddressBlockAt, text, 0);
    Sub(AddressBlockAt, Delete, text)
  }

  /** Without the first line of the address, no address block is removed. */
  lemma {:induction false} NoAddressHeadUntouched(text: string)
    requires forall p :: 0 <= p < |text| ==> !HasLiteralCIAt(text, p, AddressHead)
    ensures RemoveAddressBlock(text) == text
  {
    assert NoMatchIn(AddressBlockAt, text, 0, |text|) by {
      forall k | 0 <= k < |text| ensures !MatchesAt(AddressBlockAt, text, k) {
        assert PartAt(AddressParts[0], text, k).None? by {
          assert !HasLiteralCIAt(text, k, AddressHead);
        }
      }
    }
  }

  // ---------------------------------------------------------------------
  // Banner lines.

  const SfgTag: string := "SFG 2026"

  /** `(?m)^SFG 2026.*$`: a line that begins with the banner, up to (not
      including) its newline. */
  function SfgLineAt(s: string, p: nat): Option<nat> {
    if HasLiteralAt(s, p, SfgTag) && (p == 0 || s[p - 1] == '\n') then Some(LineEnd(s, p + |SfgTag|))
    else None
  }

  /** A banner line matches at `p` exactly when a line begins there with
      the banner, and the match ends at the line's end: the next line break,
      which it does not take, or the end of the text. */
  lemma {:induction false} SfgLineMatch(s: string, p: nat, e: nat)
    ensures SfgLineAt(s, p) == Some(e) <==>
      && HasLiteralAt(s, p, SfgTag) && (p == 0 || s[p - 1] == '\n')
      && p + |SfgTag| <= e <= |s|
      && (forall k :: p + |SfgTag| <= k < e ==> s[k] != '\n')
      && (e == |s| || s[e] == '\n')
  {
    if HasLiteralAt(s, p, SfgTag) && p + |SfgTag| <= e <= |s|
       && (forall k :: p + |SfgTag| <= k < e ==> s[k] != '\n') && (e == |s| || s[e] == '\n') {
      LineEndFrom(s, p + |SfgTag|, e);
    }
  }

  /** A line of `x` starts at `i` and begins with the banner. */
  predicate SfgLineStartAt(x: string, i: nat) {
    HasLiteralAt(x, i, SfgTag) && (i == 0 || x[i - 1] == '\n')
  }

  /** No line of `x` begins with the banner. */
  predicate NoSfgLine(x: string) {
    forall i :: 0 <= i < |x| ==> !SfgLineStartAt(x, i)
  }

  /** Step 2 of `clean_garbage_text`. */
  function RemoveSfgLines(text: string): (r: string)
    ensures NoSfgLine(r)
  {
    RemoveSfgShape(text, 0);
    Sub(SfgLineAt, Delete, text)
  }

  // ---------------------------------------------------------------------
  // Blank lines.

  /** The end of the run of newlines starting at `i`. */
  function NewlineRunEnd(s: string, i: nat): (j: nat)
    requires i <= |s|
    ensures i <= j <= |s|
    ensures forall k :: i <= k < j ==> s[k] == '\n'
    ensures j == |s| || s[j] != '\n'
    decreases |s| - i
  {
    if i < |s| && s[i] == '\n' then NewlineRunEnd(s, i + 1) else i
  }

  /** `\n{3,}`: a run of three or more newlines, taken whole. */
  function NewlineRunAt(s: string, p: nat): Option<nat> {
    if p + 3 <= |s| && s[p] == '\n' && s[p + 1] == '\n' && s[p + 2] == '\n' then Some(NewlineRunEnd(s, p))
    else None
  }

  /** A run of newlines matches at `p` exactly when three or more newlines
      start there, and it takes all of them. */
  lemma {:induction false} NewlineRunMatch(s: string, p: nat, e: nat)
    ensures NewlineRunAt(s, p) == Some(e) <==>
      && p + 3 <= e <= |s|
      && (forall k :: p <= k < e ==> s[k] == '\n')
      && (e == |s| || s[e] != '\n')
  {
    if p + 3 <= e <= |s| && (forall k :: p <= k < e ==> s[k] == '\n') && (e == |s| || s[e] != '\n') {
      assert s[p] == '\n' && s[p + 1] == '\n' && s[p + 2] == '\n';
      NewlineRunFrom(s, p, e);
    }
  }

  /** The run of newlines from `i` ends at `j` when `[i, j)` is newlines and
      the character at `j` is not. */
  lemma {:induction false} NewlineRunFrom(s: string, i: nat, j: nat)
    requires i <= j <= |s|
    requires forall k :: i <= k < j ==> s[k] == '\n'
    requires j == |s| || s[j] != '\n'
    ensures NewlineRunEnd(s, i) == j
    decreases j - i
  {
    if i < j {
      NewlineRunFrom(s, i + 1, j);
    }
  }

  function TwoNewlines(t: string): string { "\n\n" }

  /** Three newlines in a row start at `i`. */
  predicate TripleNewlineAt(x: string, i: nat) {
    i + 3 <= |x| && x[i] == '\n' && x[i + 1] == '\n' && x[i + 2] == '\n'
  }

  /** `x` has no run of three or more newlines. */
  predicate NoTripleNewline(x: string) {
    forall i :: 0 <= i < |x| ==> !TripleNewlineAt(x, i)
  }

  /** Step 3 of `clean_garbage_text`. */
  function CollapseBlankLines(text: string): (r: string)
    ensures NoTripleNewline(r)
  {
    CollapseShape(text, 0);
    Sub(NewlineRunAt, TwoNewlines, text)
  }

  /** `clean_garbage_text`. */
  function CleanGarbage(text: string): (r: string)
    ensures NoTripleNewline(r)
    ensures NoSfgLine(r)
  {
    var a := RemoveAddressBlock(text);
    var b := RemoveSfgLines(a);
    CollapseKeepsNoSfgLine(b, 0);
    CollapseBlankLines(b)
  }

  /** A clean text: no first line of the address block, no banner line and
      no run of three line breaks. */
  predicate IsClean(text: string) {
    && (forall p :: 0 <= p < |text| ==> !HasLiteralCIAt(text, p, AddressHead))
    && NoSfgLine(text)
    && NoTripleNewline(text)
  }

  /** Cleaning a clean text changes nothing. */
  lemma {:induction false} CleanKeepsClean(text: string)
    requires IsClean(text)
    ensures CleanGarbage(text) == text
  {
    NoAddressHeadUntouched(text);
    assert NoMatchIn(SfgLineAt, text, 0, |text|) by {
      forall k | 0 <= k < |text| ensures !MatchesAt(SfgLineAt, text, k) {
        assert !SfgLineStartAt(text, k);
      }
    }
    assert NoMatchIn(NewlineRunAt, text, 0, |text|) by {
      forall k | 0 <= k < |text| ensures !MatchesAt(NewlineRunAt, text, k) {
        assert !TripleNewlineAt(text, k);
      }
    }
  }

  /** Cleaning a cleaned text again changes nothing, provided the cleaned
      text holds no address block that the first pass created by splicing
      together the text around a removed one. */
  lemma {:induction false} CleanIdempotent(text: string)
    requires var c := CleanGarbage(text);
      forall p :: 0 <= p < |c| ==> !HasLiteralCIAt(c, p, AddressHead)
    ensures CleanGarbage(CleanGarbage(text)) == CleanGarbage(text)
  {
    CleanKeepsClean(CleanGarbage(text));
  }

  // ---------------------------------------------------------------------
  // Proofs about the banner-line and blank-line steps.

  lemma {:induction false} NoTripleConcat(a: string, b: string)
    requires NoTripleNewline(a) && NoTripleNewline(b)
    requires a == [] || b == [] || a[|a| - 1] != '\n' || b[0] != '\n'
    ensures NoTripleNewline(a + b)
  {
    var x := a + b;
    forall i | 0 <= i < |x| ensures !TripleNewlineAt(x, i) {
      if i + 3 <= |a| {
        assert x[i] == a[i] && x[i + 1] == a[i + 1] && x[i + 2] == a[i + 2];
        assert !TripleNewlineAt(a, i);
      } else if i >= |a| {
        assert !TripleNewlineAt(b, i - |a|);
      } else if i + 3 <= |x| {
        assert x[|a| - 1] == a[|a| - 1] && x[|a|] == b[0];
      }
    }
  }

  /** A stretch of text in which no run of three newlines starts has none. */
  lemma {:induction false} GapNoTriple(s: string, lo: nat, hi: nat)
    requires lo <= hi <= |s| && NoMatchIn(NewlineRunAt, s, lo, hi)
    ensures NoTripleNewline(s[lo..hi])
  {
    var g := s[lo..hi];
    forall i | 0 <= i < |g| ensures !TripleNewlineAt(g, i) {
      assert !MatchesAt(NewlineRunAt, s, lo + i);
      if i + 3 <= |g| {
        assert g[i] == s[lo + i] && g[i + 1] == s[lo + i + 1] && g[i + 2] == s[lo + i + 2];
      }
    }
  }

  /** The output of collapsing from `from` has no triple newline, and starts
      with the character at `from` when that is not a newline. */
  lemma {:induction false} CollapseShape(s: string, from: nat)
    requires from <= |s|
    requires from == 0 || from == |s| || s[from] != '\n'
    ensures var o := SubFrom(NewlineRunAt, TwoNewlines, s, from);
      && NoTripleNewline(o)
      && (from < |s| && s[from] != '\n' ==> o != [] && o[0] == s[from])
    decreases |s| - from
  {
    var o := SubFrom(NewlineRunAt, TwoNewlines, s, from);
    var r := Search(NewlineRunAt, s, from);
    if r.None? {
      GapNoTriple(s, from, |s|);
      assert o == s[from..|s|];
    } else {
      var sp := r.value;
      var gap := s[from..sp.start];
      GapNoTriple(s, from, sp.start);
      assert sp.end == NewlineRunEnd(s, sp.start);
      if gap != [] && gap[|gap| - 1] == '\n' {
        assert TripleNewlineAt(s, sp.start - 1);
        assert MatchesAt(NewlineRunAt, s, sp.start - 1);
      }
      CollapseShape(s, sp.end);
      var rest := SubFrom(NewlineRunAt, TwoNewlines, s, sp.end);
      assert o == gap + "\n\n" + rest;
      NoTripleConcat(gap, "\n\n");
      NoTripleConcat(gap + "\n\n", rest);
    }
  }

  lemma {:induction false} NoSfgLineConcat(a: string, b: string)
    requires NoSfgLine(a) && NoSfgLine(b)
    requires a == [] || b == [] || a[|a| - 1] == '\n' || b[0] == '\n'
    ensures NoSfgLine(a + b)
  {
    var x := a + b;
    assert '\n' !in SfgTag;
    forall i | 0 <= i < |x| ensures !SfgLineStartAt(x, i) {
      if i + |SfgTag| <= |a| {
        LiteralInLeft(a, b, i, SfgTag);
        assert !SfgLineStartAt(a, i);
      } else if i >= |a| {
        LiteralInRight(a, b, i - |a|, SfgTag);
        assert !SfgLineStartAt(b, i - |a|);
      } else if a != [] && b != [] {
        LiteralNotAcross(a, b, i, SfgTag, '\n');
      }
    }
  }

  /** A stretch of text with no banner match, starting at a line start or at
      a newline, has no banner line. */
  lemma {:induction false} GapNoSfgLine(s: string, lo: nat, hi: nat)
    requires lo <= hi <= |s| && NoMatchIn(SfgLineAt, s, lo, hi)
    requires lo == 0 || lo == hi || s[lo] == '\n'
    ensures NoSfgLine(s[lo..hi])
  {
    var g := s[lo..hi];
    forall i | 0 <= i < |g| ensures !SfgLineStartAt(g, i) {
      assert !MatchesAt(SfgLineAt, s, lo + i);
      if i + |SfgTag| <= |g| {
        LiteralInSlice(s, lo, hi, i, SfgTag);
      }
    }
  }

  /** The output of deleting banner lines from `from` has no banner line, and
      starts with a newline when `from` is not the text start. */
  lemma {:induction false} RemoveSfgShape(s: string, from: nat)
    requires from <= |s|
    requires from == 0 || from == |s| || s[from] == '\n'
    ensures var o := SubFrom(SfgLineAt, Delete, s, from);
      && NoSfgLine(o)
      && (0 < from ==> o == [] || o[0] == '\n')
    decreases |s| - from, 1
  {
    var o := SubFrom(SfgLineAt, Delete, s, from);
    var r := Search(SfgLineAt, s, from);
    if r.None? {
      GapNoSfgLine(s, from, |s|);
      assert o == s[from..|s|];
    } else {
      RemoveSfgStep(s, from, r.value);
    }
  }

  /** The inductive step of `RemoveSfgShape`: the text before the first
      banner line, then the result from the end of that line. */
  lemma {:induction false} RemoveSfgStep(s: string, from: nat, sp: Span)
    requires from <= |s|
    requires from == 0 || from == |s| || s[from] == '\n'
    requires Search(SfgLineAt, s, from) == Some(sp)
    ensures var o := SubFrom(SfgLineAt, Delete, s, from);
      && NoSfgLine(o)
      && (0 < from ==> o == [] || o[0] == '\n')
    decreases |s| - from, 0
  {
    var o := SubFrom(SfgLineAt, Delete, s, from);
    var gap := s[from..sp.start];
    GapNoSfgLine(s, from, sp.start);
    var e := LineEnd(s, sp.start + |SfgTag|);
    assert sp.end == e;
    assert e == |s| || s[e] == '\n';
    RemoveSfgShape(s, e);
    var rest := SubFrom(SfgLineAt, Delete, s, e);
    SubDeleteStep(SfgLineAt, s, from, sp);
    NoSfgLineConcat(gap, rest);
    if gap != [] {
      assert o[0] == s[from];
    } else {
      assert o == rest;
    }
  }

  /** A line-aligned slice of a text without banner lines has none. */
  lemma {:induction false} SliceNoSfgLine(s: string, lo: nat, hi: nat)
    requires NoSfgLine(s) && lo <= hi <= |s|
    requires lo == 0 || s[lo - 1] == '\n'
    ensures NoSfgLine(s[lo..hi])
  {
    var g := s[lo..hi];
    forall i | 0 <= i < |g| ensures !SfgLineStartAt(g, i) {
      assert !SfgLineStartAt(s, lo + i);
      if i + |SfgTag| <= |g| {
        LiteralInSlice(s, lo, hi, i, SfgTag);
      }
    }
  }

  /** Collapsing blank lines never makes a banner line appear. */
  lemma {:induction false} CollapseKeepsNoSfgLine(s: string, from: nat)
    requires NoSfgLine(s) && from <= |s|
    requires from == 0 || s[from - 1] == '\n'
    ensures NoSfgLine(SubFrom(NewlineRunAt, TwoNewlines, s, from))
    decreases |s| - from
  {
    var o := SubFrom(NewlineRunAt, TwoNewlines, s, from);
    var r := Search(NewlineRunAt, s, from);
    if r.None? {
      SliceNoSfgLine(s, from, |s|);
      assert o == s[from..|s|];
    } else {
      var sp := r.value;
      var gap := s[from..sp.start];
      SliceNoSfgLine(s, from, sp.start);
      assert sp.end == NewlineRunEnd(s, sp.start);
      assert s[sp.end - 1] == '\n';
      CollapseKeepsNoSfgLine(s, sp.end);
      var rest := SubFrom(NewlineRunAt, TwoNewlines, s, sp.end);
      assert o == gap + "\n\n" + rest;
      assert NoSfgLine("\n\n");
      NoSfgLineConcat(gap, "\n\n");
      NoSfgLineConcat(gap + "\n\n", rest);
    }
  }
}
