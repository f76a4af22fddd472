/** `format_explanation`: the HTML decoration of an explanation. Key phrases
    are wrapped in bold after a double line break, numbered items start a
    new line with a bold number, tripled line breaks are reduced, and the
    result is stripped. An empty explanation gets a fixed placeholder. */
module Formatter {
  import opened Strings
  import opened Scan

  /** The text shown when a question has no explanation. */
  const NoExplanation: string := "No explanation provided."

  /** A fixed phrase, matched ignoring case. */
  function PhraseAt(phrase: string): Matcher {
    (s: string, p: nat) => if HasLiteralCIAt(s, p, phrase) then Some(p + |phrase|) else None
  }

  /** `.*?lit` without DOTALL from position `i`, ignoring case: the first
      occurrence of `lit` at or after `i` that is reached without crossing
      a newline; the result is the end of that occurrence. */
  function LazyUntil(s: string, i: nat, lit: string): (r: Option<nat>)
    requires i <= |s|
    ensures r.Some? ==>
      && i + |lit| <= r.value <= |s|
      && r.value - |lit| <= LineEnd(s, i)
      && HasLiteralCIAt(s, r.value - |lit|, lit)
      && forall k :: i <= k < r.value - |lit| ==> !HasLiteralCIAt(s, k, lit)
    ensures r.None? ==> forall k :: i <= k <= LineEnd(s, i) ==> !HasLiteralCIAt(s, k, lit)
    decreases |s| - i
  {
    if HasLiteralCIAt(s, i, lit) then Some(i + |lit|)
    else if i < |s| && s[i] != '\n' then LazyUntil(s, i + 1, lit)
    else None
  }

  /** `lit` occurs at `j`, no earlier than `i`, on the line of `i`, and
      starts nowhere in between (all ignoring case). */
  predicate LazyStop(s: string, i: nat, j: nat, lit: string) {
    && i <= j && HasLiteralCIAt(s, j, lit)
    && j <= LineEnd(s, i)
    && forall k :: i <= k < j ==> !HasLiteralCIAt(s, k, lit)
  }

  /** `.*?lit` stops at the first occurrence of `lit` at `j` when none
      starts earlier and no line break lies between `i` and `j`. */
  lemma {:induction false} LazyUntilFinds(s: string, i: nat, j: nat, lit: string)
    requires LazyStop(s, i, j, lit)
    ensures LazyUntil(s, i, lit) == Some(j + |lit|)
    decreases j - i
  {
    if i < j {
      assert s[i] != '\n' && !HasLiteralCIAt(s, i, lit);
      assert LineEnd(s, i) == LineEnd(s, i + 1);
      LazyUntilFinds(s, i + 1, j, lit);
      assert LazyUntil(s, i, lit) == LazyUntil(s, i + 1, lit);
    } else {
      assert LazyUntil(s, i, lit) == Some(i + |lit|);
    }
  }

  /** Where `.*?lit` ends, `lit` stops it. */
  lemma {:induction false} LazyUntilStops(s: string, i: nat, lit: string, e: nat)
    requires i <= |s| && LazyUntil(s, i, lit) == Some(e)
    ensures i + |lit| <= e && LazyStop(s, i, e - |lit|, lit)
  {
  }

  /** `head.*?tail` at `p`, ignoring case. */
  function LazyPhrase(s: string, p: nat, head: string, tail: string): Option<nat> {
    if HasLiteralCIAt(s, p, head) then LazyUntil(s, p + |head|, tail) else None
  }

  /** The reading of `head.*?tail` at `p` with end `e`: `head` starts at `p`
      and `tail` ends at `e`, with neither a line break nor an earlier
      occurrence of `tail` in between (all ignoring case). */
  predicate LazyShape(s: string, p: nat, e: nat, head: string, tail: string) {
    && HasLiteralCIAt(s, p, head)
    && p + |head| + |tail| <= e
    && LazyStop(s, p + |head|, e - |tail|, tail)
  }

  /** The lazy phrase matches at `p` with end `e` exactly when it reads as
      above: `.*?` stops at the nearest `tail` on the same line. */
  lemma {:induction false} LazyPhraseMatch(s: string, p: nat, e: nat, head: string, tail: string)
    ensures LazyPhrase(s, p, head, tail) == Some(e) <==> LazyShape(s, p, e, head, tail)
  {
    if LazyShape(s, p, e, head, tail) {
      LazyPhraseFound(s, p, e, head, tail);
    } else if LazyPhrase(s, p, head, tail) == Some(e) {
      LazyPhraseRead(s, p, e, head, tail);
    }
  }

  /** A phrase that reads as above is what the lazy phrase matches. */
  lemma {:induction false} LazyPhraseFound(s: string, p: nat, e: nat, head: string, tail: string)
    requires LazyShape(s, p, e, head, tail)
    ensures LazyPhrase(s, p, head, tail) == Some(e)
  {
    LazyUntilFinds(s, p + |head|, e - |tail|, tail);
  }

  /** What the lazy phrase matches reads as above. */
  lemma {:induction false} LazyPhraseRead(s: string, p: nat, e: nat, head: string, tail: string)
    requires LazyPhrase(s, p, head, tail) == Some(e)
    ensures LazyShape(s, p, e, head, tail)
  {
    LazyUntilStops(s, p + |head|, tail, e);
  }

  const HenceHead: string := "Hence option "
  const HenceTail: string := " is correct"

  /** `Hence option .*? is correct`, ignoring case. */
  function HenceOptionAt(s: string, p: nat): Option<nat> {
    LazyPhrase(s, p, HenceHead, HenceTail)
  }

  /** The reading of `Hence option .*? is correct` at `p` with end `e`. */
  predicate HenceShape(s: string, p: nat, e: nat) {
    LazyShape(s, p, e, HenceHead, HenceTail)
  }

  /** The phrase matches at `p` with end `e` exactly when it reads as the
      opening words, text on one line without the closing words, and the
      closing words. */
  lemma {:induction false} HenceOptionMatch(s: string, p: nat, e: nat)
    ensures HenceOptionAt(s, p) == Some(e) <==> HenceShape(s, p, e)
  {
    LazyPhraseMatch(s, p, e, HenceHead, HenceTail);
  }

  /** The phrases put in bold, in the order they are processed. */
  const Keywords: seq<Matcher> := [
    PhraseAt("Statement I is correct"), PhraseAt("Statement II is correct"),
    PhraseAt("Statement 1 is correct"), PhraseAt("Statement 2 is correct"),
    PhraseAt("Statement I is incorrect"), PhraseAt("Statement II is incorrect"),
    PhraseAt("Statement 1 is incorrect"), PhraseAt("Statement 2 is incorrect"),
    HenceOptionAt, PhraseAt("Thus,"), PhraseAt("Therefore,")
  ]

  /** The replacement of a key phrase. */
  function Bold(t: string): string {
    "<br><br><b>" + t + "</b>"
  }

  /** Every phrase of `ms` put in bold, one phrase after the other. */
  function BoldKeywords(ms: seq<Matcher>, text: string): (r: string)
    ensures (forall i :: 0 <= i < |ms| ==> NoMatchIn(ms[i], text, 0, |text|)) ==> r == text
    decreases |ms|
  {
    if ms == [] then text
    else BoldKeywords(ms[1..], Sub(ms[0], Bold, text))
  }

  /** Applying one more phrase applies it to the text in which every
      earlier phrase has already been put in bold. */
  lemma {:induction false} BoldKeywordsInOrder(ms: seq<Matcher>, m: Matcher, text: string)
    ensures BoldKeywords(ms + [m], text) == Sub(m, Bold, BoldKeywords(ms, text))
    decreases |ms|
  {
    if ms == [] {
      assert [] + [m] == [m];
      assert BoldKeywords([m], text) == BoldKeywords([], Sub(m, Bold, text));
    } else {
      assert (ms + [m])[1..] == ms[1..] + [m];
      BoldKeywordsInOrder(ms[1..], m, Sub(ms[0], Bold, text));
    }
  }

  /** `\n\s*(\d+\.)\s+`: a line break, optional indentation, a number with
      its dot, and at least one whitespace character. */
  function NumberedItemAt(s: string, p: nat): Option<nat> {
    if p < |s| && s[p] == '\n' then
      var a := SkipSpaces(s, p + 1);
      var b := SkipDigits(s, a);
      if a < b < |s| && s[b] == '.' then
        var c := SkipSpaces(s, b + 1);
        if b + 1 < c then Some(c) else None
      else None
    else None
  }

  /** The reading of `\n\s*(\d+\.)\s+` at `p` with the number in `[a, b)`
      and end `e`: the trailing whitespace is taken whole. */
  predicate NumberedItemShape(s: string, p: nat, a: nat, b: nat, e: nat) {
    && p < a < b && b + 1 < e <= |s| && s[p] == '\n'
    && SpacesBetween(s, p + 1, a) && DigitsBetween(s, a, b) && s[b] == '.'
    && SpacesBetween(s, b + 1, e) && (e == |s| || !IsSpace(s[e]))
  }

  /** A numbered item matches at `p` with end `e` exactly when it reads as a
      line break, indentation, a number, a dot and whitespace up to `e`. */
  lemma {:induction false} NumberedItemMatch(s: string, p: nat, e: nat)
    ensures NumberedItemAt(s, p) == Some(e) <==> exists a: nat, b: nat :: NumberedItemShape(s, p, a, b, e)
  {
    if NumberedItemAt(s, p) == Some(e) {
      var a := SkipSpaces(s, p + 1);
      assert NumberedItemShape(s, p, a, SkipDigits(s, a), e);
    }
    forall a: nat, b: nat | NumberedItemShape(s, p, a, b, e) ensures NumberedItemAt(s, p) == Some(e) {
      assert IsDigit(s[a]);
      SkipSpacesIs(s, p + 1, a);
      SkipDigitsIs(s, a, b);
      SkipSpacesIs(s, b + 1, e);
    }
  }

  /** The replacement of a numbered item: the number and its dot, which are
      what remains of the match once its surrounding whitespace is stripped. */
  function NumberedItem(t: string): string {
    "<br><b>" + Strip(t) + "</b> "
  }

  const TripleBreak: string := "<br><br><br>"

  function DoubleBreak(t: string): string { "<br><br>" }

  /** `format_explanation`. */
  function FormatExplanation(text: string): (r: string)
    ensures text == [] ==> r == NoExplanation
    ensures r != [] ==> !IsSpace(r[0]) && !IsSpace(r[|r| - 1])
  {
    if text == [] then NoExplanation
    else
      var bolded := BoldKeywords(Keywords, text);
      var numbered := Sub(NumberedItemAt, NumberedItem, bolded);
      Strip(Sub(LiteralAt(TripleBreak), DoubleBreak, numbered))
  }

  /** An explanation in which no phrase, no numbered item and no tripled
      line break occurs is only stripped of its surrounding whitespace. */
  lemma {:induction false} PlainExplanationTrimmed(text: string)
    requires text != []
    requires forall i :: 0 <= i < |Keywords| ==> NoMatchIn(Keywords[i], text, 0, |text|)
    requires '\n' !in text
    requires forall p :: 0 <= p < |text| ==> !HasLiteralAt(text, p, TripleBreak)
    ensures FormatExplanation(text) == Strip(text)
  {
    assert NoMatchIn(NumberedItemAt, text, 0, |text|) by {
      forall k | 0 <= k < |text| ensures !MatchesAt(NumberedItemAt, text, k) {
        assert text[k] in text;
      }
    }
    assert NoMatchIn(LiteralAt(TripleBreak), text, 0, |text|);
  }

  /** Every occurrence of a phrase is wrapped: the text between occurrences
      is kept and each occurrence `t` becomes `<br><br><b>t</b>`. */
  lemma {:induction false} PhrasesWrapped(m: Matcher, s: string)
    ensures Sub(m, Bold, s)
      == Rejoin(Pieces(m, s, 0), MapRepl(Bold, Matched(s, FindAll(m, s, 0))))
  {
    SubIsRejoin(m, Bold, s, 0);
  }

  /** The replacement of a numbered item is exactly the item's number and dot
      in bold: the whitespace the match takes around them is what `Strip`
      removes. */
  lemma {:induction false} NumberedItemLabel(s: string, p: nat)
    requires MatchesAt(NumberedItemAt, s, p)
    ensures var a := SkipSpaces(s, p + 1);
      var b := SkipDigits(s, a);
      && a < b < |s|
      && NumberedItem(s[p..MatchEnd(NumberedItemAt, s, p)]) == "<br><b>" + s[a..b + 1] + "</b> "
  {
    var a := SkipSpaces(s, p + 1);
    var b := SkipDigits(s, a);
    var c := MatchEnd(NumberedItemAt, s, p);
    assert !IsSpace(s[a]) && !IsSpace(s[b]);
    StripOfSlice(s, p, a, b + 1, c);
  }
}
