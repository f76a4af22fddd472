/** The answer options of a question block: where they begin (the first
    line that starts with `a)` or `a.`), where they end (the first later
    line that starts with `Ans` or `Exp`), how the region between is cut
    at its option labels, and the padding to four options. */
module Options {
  import opened Strings
  import opened Scan

  /** `\n\s*a[\)\.]`: the line that opens the options. */
  function OptionStartAt(s: string, p: nat): Option<nat> {
    if p < |s| && s[p] == '\n' then
      var a := SkipSpaces(s, p + 1);
      if a + 1 < |s| && s[a] == 'a' && (s[a + 1] == ')' || s[a + 1] == '.') then Some(a + 2) else None
    else None
  }

  /** `\n\s*(?:Ans|Exp)`, ignoring case: the line that closes the options. */
  function AnsExpLineAt(s: string, p: nat): Option<nat> {
    if p < |s| && s[p] == '\n' then
      var a := SkipSpaces(s, p + 1);
      if HasLiteralCIAt(s, a, "Ans") || HasLiteralCIAt(s, a, "Exp") then Some(a + 3) else None
    else None
  }

  /** `([a-dA-D])[\)\.]` at position `a`. */
  function LetterBracketAt(s: string, a: nat): Option<nat> {
    if a + 1 < |s| && IsOptionLetter(s[a]) && (s[a + 1] == ')' || s[a + 1] == '.') then Some(a + 2) else None
  }

  /** `(?:^|\n)\s*([a-dA-D])[\)\.]` without MULTILINE: an option label at
      the very start of the region or after a line break. The alternatives
      are tried in order. */
  function LabelAt(s: string, k: nat): Option<nat> {
    var caret := if k == 0 then LetterBracketAt(s, SkipSpaces(s, 0)) else None;
    if caret.Some? then caret
    else if k < |s| && s[k] == '\n' then LetterBracketAt(s, SkipSpaces(s, k + 1))
    else None
  }

  /** `)` or `.`, the bracket after an option letter. */
  predicate IsLabelBracket(c: char) {
    c == ')' || c == '.'
  }

  /** The reading of `\n\s*a[\)\.]` at `p`, with the `a` at `a`. */
  predicate OptionStartShape(s: string, p: nat, a: nat) {
    && p < a && a + 1 < |s| && s[p] == '\n' && SpacesBetween(s, p + 1, a)
    && s[a] == 'a' && IsLabelBracket(s[a + 1])
  }

  /** The options line matches at `p` with end `e` exactly when a line
      break, indentation, `a` and its bracket run from `p` to `e`; the
      indentation ends at the `a`, so there is no other way to read it. */
  lemma {:induction false} OptionStartMatch(s: string, p: nat, e: nat)
    ensures OptionStartAt(s, p) == Some(e) <==> exists a: nat :: OptionStartShape(s, p, a) && e == a + 2
  {
    if OptionStartAt(s, p) == Some(e) {
      assert OptionStartShape(s, p, SkipSpaces(s, p + 1));
    }
    forall a: nat | OptionStartShape(s, p, a) && e == a + 2 ensures OptionStartAt(s, p) == Some(e) {
      SkipSpacesIs(s, p + 1, a);
    }
  }

  const ClosingWords: seq<string> := ["Ans", "Exp"]

  /** The reading of `\n\s*(?:Ans|Exp)` at `p`, ignoring case, with the
      word at `a`. */
  predicate ClosingShape(s: string, p: nat, a: nat, w: string) {
    && p < a && p < |s| && s[p] == '\n' && SpacesBetween(s, p + 1, a)
    && w in ClosingWords && HasLiteralCIAt(s, a, w)
  }

  /** A closing line matches at `p` with end `e` exactly when a line break,
      indentation and `Ans` or `Exp`, in any case, run from `p` to `e`. */
  lemma {:induction false} ClosingMatch(s: string, p: nat, e: nat)
    ensures AnsExpLineAt(s, p) == Some(e) <==> exists a: nat, w :: ClosingShape(s, p, a, w) && e == a + 3
  {
    if AnsExpLineAt(s, p) == Some(e) {
      var a := SkipSpaces(s, p + 1);
      if HasLiteralCIAt(s, a, "Ans") {
        assert ClosingShape(s, p, a, ClosingWords[0]);
      } else {
        assert ClosingShape(s, p, a, ClosingWords[1]);
      }
    }
    forall a: nat, w | ClosingShape(s, p, a, w) && e == a + 3 ensures AnsExpLineAt(s, p) == Some(e) {
      assert Lower(s[a]) == Lower(w[0]);
      SkipSpacesIs(s, p + 1, a);
    }
  }

  /** The reading of `(?:^|\n)\s*([a-dA-D])[\)\.]` at `k`, with the letter at
      `a`: the start of the region or a line break, indentation, a letter
      and its bracket. */
  predicate LabelShape(s: string, k: nat, a: nat) {
    && a + 1 < |s|
    && ((k == 0 && SpacesBetween(s, 0, a)) || (k < a && s[k] == '\n' && SpacesBetween(s, k + 1, a)))
    && IsOptionLetter(s[a]) && IsLabelBracket(s[a + 1])
  }

  /** A label matches at `k` with end `e` exactly when it reads as above.
      At the start of a region that opens with a line break both
      alternatives apply, and both end at the same place. */
  lemma {:induction false} LabelMatch(s: string, k: nat, e: nat)
    ensures LabelAt(s, k) == Some(e) <==> exists a: nat :: LabelShape(s, k, a) && e == a + 2
  {
    var caret := if k == 0 then LetterBracketAt(s, SkipSpaces(s, 0)) else None;
    if LabelAt(s, k) == Some(e) {
      if caret.Some? {
        assert LabelShape(s, k, SkipSpaces(s, 0));
      } else {
        assert LabelShape(s, k, SkipSpaces(s, k + 1));
      }
    }
    forall a: nat | LabelShape(s, k, a) && e == a + 2 ensures LabelAt(s, k) == Some(e) {
      if k == 0 {
        assert SpacesBetween(s, 0, a);
        SkipSpacesIs(s, 0, a);
      } else {
        SkipSpacesIs(s, k + 1, a);
      }
    }
  }

  /** Where the options end: at the first closing line after `p`, or at the
      end of the block. */
  function OptionsEnd(block: string, p: nat): (e: nat)
    requires p <= |block|
    ensures p <= e <= |block|
    ensures e == |block| <==> NoMatchIn(AnsExpLineAt, block[p..], 0, |block| - p)
    ensures e < |block| ==>
      && MatchesAt(AnsExpLineAt, block[p..], e - p)
      && NoMatchIn(AnsExpLineAt, block[p..], 0, e - p)
  {
    match Search(AnsExpLineAt, block[p..], 0)
    case None => |block|
    case Some(sp) =>
      assert sp.start < |block[p..]|;
      p + sp.start
  }

  /** The options end at the leftmost closing line after their start. */
  lemma {:induction false} OptionsEndFound(block: string, p: nat, sp: Span)
    requires p <= |block| && IsLeftmost(AnsExpLineAt, block[p..], 0, sp)
    ensures OptionsEnd(block, p) == p + sp.start
  {
    LeftmostIsSearch(AnsExpLineAt, block[p..], 0, sp);
  }

  /** The options of a region: the text after each label up to the next
      label, or up to the end after the last one, each stripped. */
  function OptionsOf(region: string): (r: seq<string>)
    ensures |r| == |FindAll(LabelAt, region, 0)|
    ensures forall i :: 0 <= i < |r| ==> r[i] == [] || (!IsSpace(r[i][0]) && !IsSpace(r[i][|r[i]| - 1]))
  {
    var ps := Pieces(LabelAt, region, 0);
    seq(|ps| - 1, i requires 0 <= i < |ps| - 1 => Strip(ps[i + 1]))
  }

  /** The `i`-th option is the stripped text between the end of the `i`-th
      label and the start of the next label, or the end of the region. */
  lemma {:induction false} OptionBetweenLabels(region: string, i: nat)
    requires i < |OptionsOf(region)|
    ensures var ls := FindAll(LabelAt, region, 0);
      var hi := if i + 1 < |ls| then ls[i + 1].start else |region|;
      && ls[i].end <= hi
      && OptionsOf(region)[i] == Strip(region[ls[i].end..hi])
  {
    var ls := FindAll(LabelAt, region, 0);
    var hi := if i + 1 < |ls| then ls[i + 1].start else |region|;
    PiecesByIndex(LabelAt, region, 0, i + 1);
    assert GapStart(0, ls, i + 1) == ls[i].end;
    assert GapEnd(region, ls, i + 1) == hi;
    assert OptionsOf(region)[i] == Strip(Pieces(LabelAt, region, 0)[i + 1]);
  }

  /** Each text stripped. */
  function StripAll(ts: seq<string>): (r: seq<string>)
    ensures |r| == |ts|
    ensures forall i :: 0 <= i < |r| ==> r[i] == Strip(ts[i])
  {
    seq(|ts|, i requires 0 <= i < |ts| => Strip(ts[i]))
  }

  /** The placeholder of a missing option. */
  const Filler: string := "-"

  /** Options padded with fillers up to four. */
  function Pad(opts: seq<string>): (r: seq<string>)
    ensures |r| == if |opts| < 4 then 4 else |opts|
    ensures forall i :: 0 <= i < |r| ==> r[i] == if i < |opts| then opts[i] else Filler
    decreases 4 - |opts|
  {
    if |opts| < 4 then Pad(opts + [Filler]) else opts
  }

  // ---------------------------------------------------------------------
  // Reading back options laid out one per line.

  /** An option label as written: a line break, indentation, a letter
      `a`-`d` in either case, and `)` or `.`. */
  predicate IsOptionLabel(d: string) {
    && |d| >= 3
    && d[0] == '\n'
    && (forall i :: 1 <= i < |d| - 2 ==> IsSpace(d[i]))
    && IsOptionLetter(d[|d| - 2])
    && (d[|d| - 1] == ')' || d[|d| - 1] == '.')
  }

  /** A text without line breaks. */
  predicate NoNewline(s: string) {
    forall i :: 0 <= i < |s| ==> s[i] != '\n'
  }

  /** Options written one per line, each after its label, are read back
      stripped: the region `label0 + line0 + label1 + line1 + ...` gives
      the stripped lines. */
  lemma {:induction false} OptionsOfLayout(labels: seq<string>, lines: seq<string>)
    requires |labels| == |lines|
    requires forall i :: 0 <= i < |labels| ==> IsOptionLabel(labels[i])
    requires forall i :: 0 <= i < |lines| ==> NoNewline(lines[i])
    ensures OptionsOf(Rejoin([""] + lines, labels)) == StripAll(lines)
  {
    var pieces := [""] + lines;
    var t := Rejoin(pieces, labels);
    LinesLayout(pieces, labels);
    PiecesOfRejoin(LabelAt, pieces, labels);
    var r := OptionsOf(t);
    assert |r| == |lines|;
    forall i | 0 <= i < |lines| ensures r[i] == Strip(lines[i]) {
      assert r[i] == Strip(Pieces(LabelAt, t, 0)[i + 1]);
      assert pieces[i + 1] == lines[i];
    }
  }

  /** In a region of labels and lines, with nothing before the first label,
      no label starts inside a line and every label is matched exactly. */
  lemma {:induction false} LinesLayout(pieces: seq<string>, labels: seq<string>)
    requires |pieces| == |labels| + 1 && pieces[0] == []
    requires forall i :: 0 <= i < |labels| ==> IsOptionLabel(labels[i])
    requires forall i :: 1 <= i < |pieces| ==> NoNewline(pieces[i])
    ensures var t := Rejoin(pieces, labels);
      forall i :: 0 <= i < |pieces| ==>
        NoMatchIn(LabelAt, t, PieceStart(pieces, labels, i), PieceEnd(pieces, labels, i))
    ensures var t := Rejoin(pieces, labels);
      forall i :: 0 <= i < |labels| ==>
        SeparatorAt(LabelAt, t, PieceEnd(pieces, labels, i), labels[i])
  {
    var t := Rejoin(pieces, labels);
    forall i | 0 <= i < |pieces|
      ensures NoMatchIn(LabelAt, t, PieceStart(pieces, labels, i), PieceEnd(pieces, labels, i))
    {
      if i > 0 {
        LinePieceAt(pieces, labels, i);
      }
    }
    forall i | 0 <= i < |labels|
      ensures SeparatorAt(LabelAt, t, PieceEnd(pieces, labels, i), labels[i])
    {
      RejoinLayout(pieces, labels, i);
      LabelMatches(t, PieceEnd(pieces, labels, i), labels[i]);
    }
  }

  /** No label starts inside a piece without line breaks that follows the
      first label. */
  lemma {:induction false} LinePieceAt(pieces: seq<string>, labels: seq<string>, i: nat)
    requires |pieces| == |labels| + 1 && 0 < i < |pieces|
    requires IsOptionLabel(labels[0])
    requires NoNewline(pieces[i])
    ensures NoMatchIn(LabelAt, Rejoin(pieces, labels), PieceStart(pieces, labels, i), PieceEnd(pieces, labels, i))
  {
    var t := Rejoin(pieces, labels);
    RejoinLayout(pieces, labels, i);
    var a := PieceStart(pieces, labels, i);
    var b := PieceEnd(pieces, labels, i);
    assert a >= |labels[0]|;
    forall j | a <= j < b ensures !MatchesAt(LabelAt, t, j) {
      assert t[j] == t[a..b][j - a] == pieces[i][j - a];
    }
  }

  /** A label written into the text is matched, exactly. */
  lemma {:induction false} LabelMatches(t: string, k: nat, d: string)
    requires IsOptionLabel(d)
    requires k + |d| <= |t| && t[k..k + |d|] == d
    ensures SeparatorAt(LabelAt, t, k, d)
  {
    var n := |d|;
    forall i | k <= i < k + n - 2 ensures IsSpace(t[i]) {
      assert t[i] == d[i - k];
    }
    assert t[k + n - 2] == d[n - 2];
    assert t[k + n - 1] == d[n - 1];
    SkipSpacesFrom(t, k, k + n - 2);
    SkipSpacesFrom(t, k + 1, k + n - 2);
    assert LetterBracketAt(t, k + n - 2) == Some(k + n);
    if k == 0 {
      assert SkipSpaces(t, 0) == n - 2;
    } else {
      assert t[k] == d[0];
    }
  }

  // ---------------------------------------------------------------------
  // Where the options of a laid-out block begin and end.

  /** A region of labels and lines, followed by a line that opens with
      `Ans` or `Exp`, starts with its first label, ends where that line
      begins, and reads back the stripped lines as its options. */
  lemma {:induction false} RegionRead(labels: seq<string>, lines: seq<string>, closing: string)
    requires |labels| == |lines| > 0
    requires forall i :: 0 <= i < |labels| ==> IsOptionLabel(labels[i])
    requires forall i :: 0 <= i < |lines| ==> NoNewline(lines[i])
    requires HasLiteralAt(closing, 0, "\nAns") || HasLiteralAt(closing, 0, "\nExp")
    ensures var region := Rejoin([""] + lines, labels);
      && HasLiteralAt(region + closing, 0, labels[0])
      && Search(AnsExpLineAt, region + closing, 0).Some?
      && Search(AnsExpLineAt, region + closing, 0).value.start == |region|
      && OptionsOf(region) == StripAll(lines)
  {
    FirstLabelAtStart(labels, lines, closing);
    LinePieces(lines);
    OptionsStopAtClosing([""] + lines, labels, closing);
    SearchFinds(AnsExpLineAt, Rejoin([""] + lines, labels) + closing, 0, |Rejoin([""] + lines, labels)|);
    OptionsOfLayout(labels, lines);
  }

  /** A region of labels and lines starts with its first label. */
  lemma {:induction false} FirstLabelAtStart(labels: seq<string>, lines: seq<string>, closing: string)
    requires |labels| == |lines| > 0
    ensures HasLiteralAt(Rejoin([""] + lines, labels) + closing, 0, labels[0])
  {
    var pieces := [""] + lines;
    var region := Rejoin(pieces, labels);
    RejoinLayout(pieces, labels, 0);
    assert (region + closing)[..|labels[0]|] == region[..|labels[0]|];
  }

  /** The pieces of a region of labels and lines: nothing before the first
      label, then the lines. */
  lemma {:induction false} LinePieces(lines: seq<string>)
    requires forall i :: 0 <= i < |lines| ==> NoNewline(lines[i])
    ensures ([""] + lines)[0] == []
    ensures forall i :: 1 <= i < |[""] + lines| ==> NoNewline(([""] + lines)[i])
  {
    var pieces := [""] + lines;
    forall i | 1 <= i < |pieces| ensures NoNewline(pieces[i]) {
      assert pieces[i] == lines[i - 1];
    }
  }

  /** A question line without line breaks, followed by a first label `a)`
      or `a.`, has its options begin at that label. */
  lemma {:induction false} OptionsStartAfter(question: string, rest: string, d: string)
    requires NoNewline(question)
    requires IsOptionLabel(d) && d[|d| - 2] == 'a'
    requires HasLiteralAt(rest, 0, d)
    ensures Search(OptionStartAt, question + rest, 0).Some?
    ensures Search(OptionStartAt, question + rest, 0).value.start == |question|
  {
    var t := question + rest;
    var p := |question|;
    var n := |d|;
    LiteralInRight(question, rest, 0, d);
    assert t[p..p + n] == d;
    forall k | 0 <= k < p ensures !MatchesAt(OptionStartAt, t, k) {
      assert t[k] == question[k];
    }
    forall j | p + 1 <= j < p + n - 2 ensures IsSpace(t[j]) {
      assert t[j] == d[j - p];
    }
    assert t[p] == d[0];
    assert t[p + n - 2] == d[n - 2];
    assert t[p + n - 1] == d[n - 1];
    SkipSpacesFrom(t, p + 1, p + n - 2);
    assert OptionStartAt(t, p) == Some(p + n);
    SearchFinds(OptionStartAt, t, 0, p);
  }

  /** In a region of labels and lines followed by a line that opens with
      `Ans` or `Exp`, that line is the first closing line. */
  lemma {:induction false} OptionsStopAtClosing(pieces: seq<string>, labels: seq<string>, closing: string)
    requires |pieces| == |labels| + 1 && pieces[0] == []
    requires forall i :: 0 <= i < |labels| ==> IsOptionLabel(labels[i])
    requires forall i :: 1 <= i < |pieces| ==> NoNewline(pieces[i])
    requires HasLiteralAt(closing, 0, "\nAns") || HasLiteralAt(closing, 0, "\nExp")
    ensures var region := Rejoin(pieces, labels);
      && MatchesAt(AnsExpLineAt, region + closing, |region|)
      && NoMatchIn(AnsExpLineAt, region + closing, 0, |region|)
  {
    var region := Rejoin(pieces, labels);
    var u := region + closing;
    var b := |region|;
    NoClosingInRegion(pieces, labels, closing);
    var w := if HasLiteralAt(closing, 0, "\nAns") then "\nAns" else "\nExp";
    LiteralInRight(region, closing, 0, w);
    LiteralChar(u, b, w, 0);
    LiteralChar(u, b, w, 1);
    assert SkipSpaces(u, b + 1) == b + 1;
    LiteralPart(u, b, w, 1, w[1..]);
    assert AnsExpLineAt(u, b) == Some(b + 4);
  }

  /** No line that opens with `Ans` or `Exp` begins inside a region of
      labels and lines. */
  lemma {:induction false} NoClosingInRegion(pieces: seq<string>, labels: seq<string>, closing: string)
    requires |pieces| == |labels| + 1 && pieces[0] == []
    requires forall i :: 0 <= i < |labels| ==> IsOptionLabel(labels[i])
    requires forall i :: 1 <= i < |pieces| ==> NoNewline(pieces[i])
    ensures var region := Rejoin(pieces, labels);
      NoMatchIn(AnsExpLineAt, region + closing, 0, |region|)
  {
    forall k | 0 <= k < |Rejoin(pieces, labels)| ensures !MatchesAt(AnsExpLineAt, Rejoin(pieces, labels) + closing, k) {
      NoClosingAt(pieces, labels, closing, k);
    }
  }

  /** The same, at one position `k` of the region. */
  lemma {:induction false} NoClosingAt(pieces: seq<string>, labels: seq<string>, closing: string, k: nat)
    requires |pieces| == |labels| + 1 && pieces[0] == []
    requires forall i :: 0 <= i < |labels| ==> IsOptionLabel(labels[i])
    requires forall i :: 1 <= i < |pieces| ==> NoNewline(pieces[i])
    requires k < |Rejoin(pieces, labels)|
    ensures !MatchesAt(AnsExpLineAt, Rejoin(pieces, labels) + closing, k)
  {
    var region := Rejoin(pieces, labels);
    var u := region + closing;
    var i := RejoinLocate(pieces, labels, k);
    RejoinLayout(pieces, labels, i);
    var a := PieceStart(pieces, labels, i);
    var b := PieceEnd(pieces, labels, i);
    if k < b {
      assert u[k] == region[a..b][k - a] == pieces[i][k - a];
    } else {
      LiteralInLeft(region, closing, b, labels[i]);
      LabelNoClosing(u, b, labels[i], k);
    }
  }

  /** No line that opens with `Ans` or `Exp` begins inside a label. */
  lemma {:induction false} LabelNoClosing(u: string, b: nat, d: string, k: nat)
    requires IsOptionLabel(d)
    requires b + |d| <= |u| && u[b..b + |d|] == d
    requires b <= k < b + |d|
    ensures !MatchesAt(AnsExpLineAt, u, k)
  {
    var a := b + |d| - 2;
    LabelChars(u, b, d);
    if k < a {
      SkipSpacesFrom(u, k + 1, a);
      LetterNoClosing(u, a);
    }
  }

  /** The characters of a label placed at `b`. */
  lemma {:induction false} LabelChars(u: string, b: nat, d: string)
    requires IsOptionLabel(d)
    requires b + |d| <= |u| && u[b..b + |d|] == d
    ensures forall j :: b + 1 <= j < b + |d| - 2 ==> IsSpace(u[j])
    ensures IsOptionLetter(u[b + |d| - 2])
    ensures u[b + |d| - 1] == ')' || u[b + |d| - 1] == '.'
  {
    forall j | b + 1 <= j < b + |d| - 2 ensures IsSpace(u[j]) {
      assert u[j] == d[j - b];
    }
    assert u[b + |d| - 2] == d[|d| - 2];
    assert u[b + |d| - 1] == d[|d| - 1];
  }

  /** An option letter followed by its bracket opens neither `Ans` nor `Exp`. */
  lemma {:induction false} LetterNoClosing(u: string, a: nat)
    requires a + 1 < |u| && IsOptionLetter(u[a])
    requires u[a + 1] == ')' || u[a + 1] == '.'
    ensures !HasLiteralCIAt(u, a, "Ans") && !HasLiteralCIAt(u, a, "Exp")
  {
    LiteralCIMismatch(u, a, "Ans", 1);
    LiteralCIMismatch(u, a, "Exp", 0);
  }
}
