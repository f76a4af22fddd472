/** Segmentation of the cleaned document into question blocks: the text is
    split at every question marker `Q.<number>)` or `Q.<number>.` that
    begins a line, and the text before the first marker is dropped. */
module Segmenter {
  import opened Strings
  import opened Scan

  /** `\nQ\.\s*\d+[\)\.]`. */
  function QuestionMarkerAt(s: string, p: nat): Option<nat> {
    if HasLiteralAt(s, p, "\nQ.") then
      var a := SkipSpaces(s, p + 3);
      var b := SkipDigits(s, a);
      if a < b < |s| && (s[b] == ')' || s[b] == '.') then Some(b + 1) else None
    else None
  }

  /** The reading of `\nQ\.\s*\d+[\)\.]` at `p`, with the number in `[a, b)`. */
  predicate QuestionMarkerShape(s: string, p: nat, a: nat, b: nat) {
    && HasLiteralAt(s, p, "\nQ.") && p + 3 <= a < b < |s|
    && SpacesBetween(s, p + 3, a) && DigitsBetween(s, a, b)
    && (s[b] == ')' || s[b] == '.')
  }

  /** A question marker matches at `p` with end `e` exactly when a line
      break, `Q.`, whitespace, a number and `)` or `.` run from `p` to `e`.
      A digit is no whitespace and a bracket no digit, so the greedy
      repetitions leave no choice. */
  lemma {:induction false} QuestionMarkerMatch(s: string, p: nat, e: nat)
    ensures QuestionMarkerAt(s, p) == Some(e) <==> exists a: nat, b: nat :: QuestionMarkerShape(s, p, a, b) && e == b + 1
  {
    if QuestionMarkerAt(s, p) == Some(e) {
      var a := SkipSpaces(s, p + 3);
      assert QuestionMarkerShape(s, p, a, SkipDigits(s, a));
    }
    forall a: nat, b: nat | QuestionMarkerShape(s, p, a, b) && e == b + 1 ensures QuestionMarkerAt(s, p) == Some(e) {
      SkipSpacesIs(s, p + 3, a);
      SkipDigitsIs(s, a, b);
    }
  }

  /** The question markers of a text, in order. */
  function Markers(text: string): (r: seq<Span>)
    ensures forall i :: 0 <= i < |r| ==> r[i].start < r[i].end <= |text|
  {
    FindAll(QuestionMarkerAt, text, 0)
  }

  /** The question blocks: the split at the markers, without the preamble. */
  function Blocks(text: string): (r: seq<string>)
    ensures |r| == |Markers(text)|
    ensures r == [] <==> NoMatchIn(QuestionMarkerAt, text, 0, |text|)
  {
    var ms := Markers(text);
    assert ms == [] <==> NoMatchIn(QuestionMarkerAt, text, 0, |text|) by {
      ScanByIndex(QuestionMarkerAt, text, 0, ms, 0);
    }
    Pieces(QuestionMarkerAt, text, 0)[1..]
  }

  /** The `k`-th block is the text from the end of the `k`-th marker up to
      the start of the next marker, or up to the end of the text after the
      last; no marker begins inside it. */
  lemma {:induction false} BlockBetweenMarkers(text: string, k: nat)
    requires k < |Blocks(text)|
    ensures var ms := Markers(text);
      var hi := if k + 1 < |ms| then ms[k + 1].start else |text|;
      && ms[k].end <= hi
      && Blocks(text)[k] == text[ms[k].end..hi]
      && NoMatchIn(QuestionMarkerAt, text, ms[k].end, hi)
  {
    var ms := Markers(text);
    PiecesByIndex(QuestionMarkerAt, text, 0, k + 1);
    ScanByIndex(QuestionMarkerAt, text, 0, ms, k + 1);
  }

  /** A question marker as it appears in a document: a line break, `Q.`,
      the question number and a closing parenthesis or dot. */
  predicate IsQuestionMarker(d: string) {
    && |d| >= 5
    && d[..3] == "\nQ."
    && (d[|d| - 1] == ')' || d[|d| - 1] == '.')
    && forall i :: 3 <= i < |d| - 1 ==> IsDigit(d[i])
  }

  /** No line of `p` after the first begins with `Q`. */
  predicate NoQuestionLine(p: string) {
    forall i :: 0 <= i < |p| - 1 ==> !(p[i] == '\n' && p[i + 1] == 'Q')
  }

  /** Splitting a document made of a preamble and question bodies, each
      body after its marker, gives back the bodies, provided no line of the
      preamble or of a body begins with `Q`. */
  lemma {:induction false} BlocksOfDocument(preamble: string, markers: seq<string>, bodies: seq<string>)
    requires |markers| == |bodies|
    requires forall i :: 0 <= i < |markers| ==> IsQuestionMarker(markers[i])
    requires NoQuestionLine(preamble)
    requires forall i :: 0 <= i < |bodies| ==> NoQuestionLine(bodies[i])
    ensures Blocks(Rejoin([preamble] + bodies, markers)) == bodies
  {
    var pieces := [preamble] + bodies;
    assert forall i :: 0 <= i < |pieces| ==> NoQuestionLine(pieces[i]) by {
      forall i | 0 <= i < |pieces| ensures NoQuestionLine(pieces[i]) {
        if i > 0 {
          assert pieces[i] == bodies[i - 1];
        }
      }
    }
    DocumentLayout(pieces, markers);
    PiecesOfRejoin(QuestionMarkerAt, pieces, markers);
    assert pieces[1..] == bodies;
  }

  /** In a document of plain pieces and question markers, no marker starts
      inside a piece and every marker is matched exactly. */
  lemma {:induction false} DocumentLayout(pieces: seq<string>, markers: seq<string>)
    requires |pieces| == |markers| + 1
    requires forall i :: 0 <= i < |markers| ==> IsQuestionMarker(markers[i])
    requires forall i :: 0 <= i < |pieces| ==> NoQuestionLine(pieces[i])
    ensures var t := Rejoin(pieces, markers);
      forall i :: 0 <= i < |pieces| ==>
        NoMatchIn(QuestionMarkerAt, t, PieceStart(pieces, markers, i), PieceEnd(pieces, markers, i))
    ensures var t := Rejoin(pieces, markers);
      forall i :: 0 <= i < |markers| ==>
        SeparatorAt(QuestionMarkerAt, t, PieceEnd(pieces, markers, i), markers[i])
  {
    var t := Rejoin(pieces, markers);
    forall i | 0 <= i < |pieces|
      ensures NoMatchIn(QuestionMarkerAt, t, PieceStart(pieces, markers, i), PieceEnd(pieces, markers, i))
    {
      PlainPieceAt(pieces, markers, i);
    }
    forall i | 0 <= i < |markers|
      ensures SeparatorAt(QuestionMarkerAt, t, PieceEnd(pieces, markers, i), markers[i])
    {
      RejoinLayout(pieces, markers, i);
      MarkerMatches(t, PieceEnd(pieces, markers, i), markers[i]);
    }
  }

  lemma {:induction false} PlainPieceAt(pieces: seq<string>, markers: seq<string>, i: nat)
    requires |pieces| == |markers| + 1 && i < |pieces|
    requires i < |markers| ==> IsQuestionMarker(markers[i])
    requires NoQuestionLine(pieces[i])
    ensures NoMatchIn(QuestionMarkerAt, Rejoin(pieces, markers),
                      PieceStart(pieces, markers, i), PieceEnd(pieces, markers, i))
  {
    var t := Rejoin(pieces, markers);
    RejoinLayout(pieces, markers, i);
    var a := PieceStart(pieces, markers, i);
    var b := PieceEnd(pieces, markers, i);
    if i < |markers| {
      assert t[b..b + |markers[i]|] == markers[i];
      assert t[b] == markers[i][0];
    }
    PieceHasNoMarker(t, a, pieces[i]);
  }

  /** A piece free of question lines, followed by a line break or by the
      end of the text, holds no marker. */
  lemma {:induction false} PieceHasNoMarker(t: string, from: nat, piece: string)
    requires from + |piece| <= |t| && t[from..from + |piece|] == piece
    requires NoQuestionLine(piece)
    requires from + |piece| == |t| || t[from + |piece|] == '\n'
    ensures NoMatchIn(QuestionMarkerAt, t, from, from + |piece|)
  {
    forall j | from <= j < from + |piece| ensures !MatchesAt(QuestionMarkerAt, t, j) {
      if j + 1 < from + |piece| {
        assert t[j] == piece[j - from] && t[j + 1] == piece[j - from + 1];
      }
    }
  }

  /** A question marker written into the text is matched, exactly. */
  lemma {:induction false} MarkerMatches(t: string, k: nat, d: string)
    requires IsQuestionMarker(d)
    requires k + |d| <= |t| && t[k..k + |d|] == d
    ensures SeparatorAt(QuestionMarkerAt, t, k, d)
  {
    assert t[k..k + 3] == d[..3];
    assert t[k + 3] == d[3];
    assert SkipSpaces(t, k + 3) == k + 3;
    assert forall i :: k + 3 <= i < k + |d| - 1 ==> IsDigit(t[i]) by {
      forall i | k + 3 <= i < k + |d| - 1 ensures IsDigit(t[i]) {
        assert t[i] == d[i - k];
      }
    }
    assert t[k + |d| - 1] == d[|d| - 1];
    SkipDigitsFrom(t, k + 3, k + |d| - 1);
  }
}
