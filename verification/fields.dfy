/** The fields read from one question block: the explanation, the correct
    answer (stated in the explanation, or else tagged in the block), the
    subject and topic tags, and the removal of the metadata tags from the
    explanation. */
module Fields {
  import opened Strings
  import opened Scan

  // ---------------------------------------------------------------------
  // Tags: a word followed by `)` or `:`.

  /** `word[\)\:]`, ignoring case; the result is the end of the bracket. */
  function WordTagAt(s: string, p: nat, word: string): (r: Option<nat>)
    ensures r.Some? ==> r.value == p + |word| + 1 <= |s|
    ensures r.Some? <==> HasLiteralCIAt(s, p, word) && p + |word| < |s|
                         && (s[p + |word|] == ')' || s[p + |word|] == ':')
  {
    if HasLiteralCIAt(s, p, word) && p + |word| < |s| && (s[p + |word|] == ')' || s[p + |word|] == ':')
    then Some(p + |word| + 1)
    else None
  }

  /** A word made of ASCII letters only. */
  predicate IsWord(w: string) {
    forall i :: 0 <= i < |w| ==> 'a' <= w[i] <= 'z' || 'A' <= w[i] <= 'Z'
  }

  /** A text free of the tags of the given words. */
  predicate TagFree(s: string, words: seq<string>) {
    forall k, i :: 0 <= k < |s| && 0 <= i < |words| ==> WordTagAt(s, k, words[i]).None?
  }

  /** A tag that starts in a text ending with a line break is a tag of that
      text alone: it cannot reach past the line break. */
  lemma {:induction false} WordTagInHead(head: string, tail: string, k: nat, w: string)
    requires k < |head| && head[|head| - 1] == '\n'
    requires IsWord(w)
    ensures WordTagAt(head + tail, k, w) == WordTagAt(head, k, w)
  {
    var t := head + tail;
    if k + |w| < |head| {
      LiteralCIInLeft(head, tail, k, w);
      assert t[k + |w|] == head[k + |w|];
    } else {
      assert '\n' !in w by {
        forall i | 0 <= i < |w| ensures w[i] != '\n' {
        }
      }
      LiteralCINotOver(t, k, w, |head| - 1);
    }
  }

  // ---------------------------------------------------------------------
  // The explanation.

  const ExplanationWords: seq<string> := ["Exp", "Explanation"]

  /** `(?:Exp|Explanation)[\)\:]`, ignoring case; the alternatives are
      tried in order. */
  function ExplanationTagAt(s: string, p: nat): Option<nat> {
    var short := WordTagAt(s, p, "Exp");
    if short.Some? then short else WordTagAt(s, p, "Explanation")
  }

  /** `)` or `:`, the bracket that closes a tag. */
  predicate IsTagBracket(c: char) {
    c == ')' || c == ':'
  }

  /** The reading of `(?:Exp|Explanation)[\)\:]` at `p` with end `e`: one of
      the two words, ignoring case, then the bracket at `e - 1`. */
  predicate ExplanationTagShape(s: string, p: nat, w: string, e: nat) {
    w in ExplanationWords && HasLiteralCIAt(s, p, w) && e == p + |w| + 1 <= |s| && IsTagBracket(s[e - 1])
  }

  /** An explanation tag ends at `e` exactly when either word, followed by
      its bracket, runs from `p` to `e`. The two alternatives never both
      apply, since the fourth letter of `Explanation` is no bracket, so the
      order in which they are tried does not matter. */
  lemma {:induction false} ExplanationTagMatch(s: string, p: nat, e: nat)
    ensures ExplanationTagAt(s, p) == Some(e) <==> exists w :: ExplanationTagShape(s, p, w, e)
  {
    if ExplanationTagAt(s, p) == Some(e) {
      if WordTagAt(s, p, "Exp").Some? {
        assert ExplanationTagShape(s, p, "Exp", e);
      } else {
        assert ExplanationTagShape(s, p, "Explanation", e);
      }
    }
    forall w | ExplanationTagShape(s, p, w, e) ensures ExplanationTagAt(s, p) == Some(e) {
      if w == "Explanation" {
        assert Lower(s[p + 3]) == Lower(w[3]) == 'l';
        assert WordTagAt(s, p, "Exp").None?;
      }
    }
  }

  /** The explanation: the text after the first explanation tag, from its
      first non-space character (`\s*(.*)` with DOTALL), stripped; empty
      when the block has no tag. */
  function ExplanationText(block: string): (r: string)
    ensures NoMatchIn(ExplanationTagAt, block, 0, |block|) ==> r == []
    ensures forall sp :: IsLeftmost(ExplanationTagAt, block, 0, sp) ==> r == Strip(block[sp.end..])
    ensures r != [] ==> !IsSpace(r[0]) && !IsSpace(r[|r| - 1])
  {
    match Search(ExplanationTagAt, block, 0)
    case None => []
    case Some(sp) =>
      StripSkipped(block, sp.end);
      Strip(block[SkipSpaces(block, sp.end)..])
  }

  /** The explanation of a block whose first explanation tag is written
      `Exp)` at the start of a line is the stripped text after it. */
  lemma {:induction false} ExplanationAfterTag(head: string, body: string)
    requires head == [] || head[|head| - 1] == '\n'
    requires TagFree(head, ExplanationWords)
    ensures ExplanationText(head + "Exp)" + body) == Strip(body)
  {
    var t := head + "Exp)" + body;
    assert t == head + ("Exp)" + body);
    forall k | 0 <= k < |head| ensures !MatchesAt(ExplanationTagAt, t, k) {
      WordTagInHead(head, "Exp)" + body, k, "Exp");
      WordTagInHead(head, "Exp)" + body, k, "Explanation");
      assert WordTagAt(head, k, ExplanationWords[0]).None?;
      assert WordTagAt(head, k, ExplanationWords[1]).None?;
    }
    var e := |head| + 4;
    assert t[|head|..e] == "Exp)";
    assert HasLiteralCIAt(t, |head|, "Exp");
    assert ExplanationTagAt(t, |head|) == Some(e);
    SearchFinds(ExplanationTagAt, t, 0, |head|);
    StripSkipped(t, e);
    assert t[e..] == body;
  }

  // ---------------------------------------------------------------------
  // The correct answer.

  /** `\s+w1\s+w2...`, ignoring case, from position `i`. */
  predicate SpacedWordsAt(s: string, i: nat, words: seq<string>)
    requires i <= |s|
    decreases |words|
  {
    || words == []
    || var j := SkipSpaces(s, i);
       && i < j
       && HasLiteralCIAt(s, j, words[0])
       && SpacedWordsAt(s, j + |words[0]|, words[1..])
  }

  const AnswerSentence: seq<string> := ["is", "the", "correct", "answer"]

  /** `(?:Option\s*)?` ending at `p`: nothing at all, or `Option` (ignoring
      case) at the start followed by whitespace up to `p`. */
  predicate OptionPrefix(x: string, p: nat) {
    || p == 0
    || (HasLiteralCIAt(x, 0, "Option") && 6 <= p <= |x| && SpacesBetween(x, 6, p))
  }

  /** `x` opens with `(?:Option\s*)?([a-dA-D])\s+is\s+the\s+correct\s+answer`,
      ignoring case, with the letter at `p`. */
  predicate OpensWithAnswerAt(x: string, p: nat) {
    p < |x| && OptionPrefix(x, p) && IsOptionLetter(x[p]) && SpacedWordsAt(x, p + 1, AnswerSentence)
  }

  /** Strategy A: the letter of the answer sentence the explanation opens
      with, if it opens with one. */
  function StatedLetter(x: string): (r: Option<char>)
    ensures forall p: nat :: OpensWithAnswerAt(x, p) ==> r == Some(x[p])
    ensures r.Some? ==> exists p: nat :: OpensWithAnswerAt(x, p) && r.value == x[p]
    ensures r.Some? ==> IsOptionLetter(r.value)
  {
    var p := if HasLiteralCIAt(x, 0, "Option") then SkipSpaces(x, 6) else 0;
    assert HasLiteralCIAt(x, 0, "Option") ==> SpacesBetween(x, 6, p);
    forall q: nat | OpensWithAnswerAt(x, q) ensures q == p {
      StatedLetterAt(x, q);
    }
    if p < |x| && IsOptionLetter(x[p]) && SpacedWordsAt(x, p + 1, AnswerSentence) then
      assert OpensWithAnswerAt(x, p);
      Some(x[p])
    else None
  }

  /** Where the letter of an opening answer sentence sits: just after the
      whitespace that follows `Option`, or at the very start. A text that
      opens with `Option` cannot have its letter at the start, since `O` is
      not one of `a`-`d`. */
  lemma {:induction false} StatedLetterAt(x: string, q: nat)
    requires OpensWithAnswerAt(x, q)
    ensures q == if HasLiteralCIAt(x, 0, "Option") then SkipSpaces(x, 6) else 0
  {
    if HasLiteralCIAt(x, 0, "Option") {
      assert q != 0 by {
        OptionIsNoLetter(x);
      }
      SkipSpacesIs(x, 6, q);
    }
  }

  /** A text that opens with `Option`, ignoring case, does not open with
      one of the letters `a`-`d`. */
  lemma {:induction false} OptionIsNoLetter(x: string)
    requires HasLiteralCIAt(x, 0, "Option")
    ensures !IsOptionLetter(x[0])
  {
    assert Lower(x[0]) == Lower("Option"[0]) == 'o';
  }

  /** `word[\)\:]\s*([a-dA-D])`, ignoring case; the result is the end of the letter. */
  function LetterAfterTag(s: string, p: nat, word: string): (r: Option<nat>)
    ensures r.Some? ==> p < r.value <= |s| && IsOptionLetter(s[r.value - 1])
  {
    match WordTagAt(s, p, word)
    case None => None
    case Some(e) =>
      var q := SkipSpaces(s, e);
      if q < |s| && IsOptionLetter(s[q]) then Some(q + 1) else None
  }

  const AnswerWords: seq<string> := ["Ans", "Answer"]

  /** `(?:Ans|Answer)[\)\:]\s*([a-dA-D])`, ignoring case. */
  function AnswerTagAt(s: string, p: nat): (r: Option<nat>)
    ensures r.Some? ==> p < r.value <= |s| && IsOptionLetter(s[r.value - 1])
  {
    var short := LetterAfterTag(s, p, "Ans");
    if short.Some? then short else LetterAfterTag(s, p, "Answer")
  }

  /** The reading of `(?:Ans|Answer)[\)\:]\s*([a-dA-D])` at `p`: one of the
      two words, ignoring case, its bracket, whitespace, and the letter at `q`. */
  predicate AnswerTagShape(s: string, p: nat, w: string, q: nat) {
    && w in AnswerWords && HasLiteralCIAt(s, p, w)
    && p + |w| < q < |s| && IsTagBracket(s[p + |w|])
    && SpacesBetween(s, p + |w| + 1, q) && IsOptionLetter(s[q])
  }

  /** An answer tag ends at `e` exactly when it reads as a word, a bracket,
      whitespace and the letter just before `e`. Neither the alternative
      nor the whitespace leaves a choice: the fourth letter of `Answer` is
      no bracket, and a letter is no whitespace. */
  lemma {:induction false} AnswerTagMatch(s: string, p: nat, e: nat)
    ensures AnswerTagAt(s, p) == Some(e) <==> exists w, q: nat :: AnswerTagShape(s, p, w, q) && e == q + 1
  {
    if AnswerTagAt(s, p) == Some(e) {
      AnswerTagRead(s, p, e);
    }
    forall w: string, q: nat | AnswerTagShape(s, p, w, q) && e == q + 1 ensures AnswerTagAt(s, p) == Some(e) {
      AnswerTagOfShape(s, p, w, q);
    }
  }

  /** A match reads as an answer tag shape, with the word that matched. */
  lemma {:induction false} AnswerTagRead(s: string, p: nat, e: nat)
    requires AnswerTagAt(s, p) == Some(e)
    ensures var w := if LetterAfterTag(s, p, "Ans").Some? then "Ans" else "Answer";
      AnswerTagShape(s, p, w, e - 1)
  {
    var w := if LetterAfterTag(s, p, "Ans").Some? then "Ans" else "Answer";
    assert LetterAfterTag(s, p, w) == Some(e);
    var q := SkipSpaces(s, p + |w| + 1);
    assert e == q + 1;
  }

  /** An answer tag shape is the match at its position. */
  lemma {:induction false} AnswerTagOfShape(s: string, p: nat, w: string, q: nat)
    requires AnswerTagShape(s, p, w, q)
    ensures AnswerTagAt(s, p) == Some(q + 1)
  {
    SkipSpacesIs(s, p + |w| + 1, q);
    if w == "Answer" {
      assert Lower(s[p + 3]) == Lower(w[3]) == 'w';
      assert WordTagAt(s, p, "Ans").None?;
    }
  }

  /** Strategy B: the letter of the first answer tag of the block. */
  function TaggedLetter(block: string): (r: Option<char>)
    ensures r.Some? ==> IsOptionLetter(r.value)
    ensures r.None? <==> NoMatchIn(AnswerTagAt, block, 0, |block|)
    ensures forall sp :: IsLeftmost(AnswerTagAt, block, 0, sp) ==>
      0 < sp.end <= |block| && r == Some(block[sp.end - 1])
  {
    TaggedLetterIsLetter(block);
    LastOfFirst(AnswerTagAt, block)
  }

  /** The letter of an answer tag is an answer letter. */
  lemma {:induction false} TaggedLetterIsLetter(block: string)
    ensures var r := LastOfFirst(AnswerTagAt, block); r.Some? ==> IsOptionLetter(r.value)
  {
    match Search(AnswerTagAt, block, 0)
    case None =>
    case Some(sp) =>
      AnswerTagLetter(block, sp.start);
      LeftmostIsSearch(AnswerTagAt, block, 0, sp);
  }

  /** An answer tag ends with its letter. */
  lemma {:induction false} AnswerTagLetter(s: string, k: nat)
    requires MatchesAt(AnswerTagAt, s, k)
    ensures IsOptionLetter(s[MatchEnd(AnswerTagAt, s, k) - 1])
  {
    var r := AnswerTagAt(s, k);
    assert r.Some? && IsOptionLetter(s[r.value - 1]);
  }

  /** The letters `a`-`d` mapped to 0-3; anything else to -1. */
  function LetterIndex(c: char): (r: int)
    ensures -1 <= r <= 3
    ensures r == -1 <==> c !in "abcd"
    ensures 0 <= r ==> "abcd"[r] == c
  {
    if c == 'a' then 0 else if c == 'b' then 1 else if c == 'c' then 2 else if c == 'd' then 3 else -1
  }

  /** Lower-casing an answer letter gives one of `a`-`d`. */
  lemma {:induction false} LowerOptionLetter(c: char)
    requires IsOptionLetter(c)
    ensures Lower(c) in "abcd"
  {
  }

  /** The index of the correct option: the letter stated in the explanation
      takes priority over the block's answer tag; -1 when there is neither. */
  function ResolveAnswer(explanation: string, block: string): (r: int)
    ensures -1 <= r <= 3
    ensures r == -1 <==> StatedLetter(explanation).None? && TaggedLetter(block).None?
    ensures StatedLetter(explanation).Some? ==>
      0 <= r && "abcd"[r] == Lower(StatedLetter(explanation).value)
    ensures StatedLetter(explanation).None? && TaggedLetter(block).Some? ==>
      0 <= r && "abcd"[r] == Lower(TaggedLetter(block).value)
  {
    var letter := match StatedLetter(explanation)
      case Some(c) => Some(c)
      case None => TaggedLetter(block);
    match letter
    case None => -1
    case Some(c) =>
      LowerOptionLetter(c);
      LetterIndex(Lower(c))
  }

  const Sentence: string := " is the correct answer"

  /** An explanation that opens with "Option X is the correct answer" (or
      just "X is the correct answer") decides the answer, whatever the
      block's answer tag says. */
  lemma {:induction false} StatedAnswerWins(c: char, withOption: bool, rest: string, block: string)
    requires IsOptionLetter(c)
    ensures var x := (if withOption then "Option " else "") + ([c] + (Sentence + rest));
      ResolveAnswer(x, block) == LetterIndex(Lower(c))
  {
    if withOption {
      var x := "Option " + ([c] + (Sentence + rest));
      StatedWithOption(c, rest);
    } else {
      var x := [c] + (Sentence + rest);
      StatedPlain(c, rest);
      assert "" + x == x;
    }
  }

  /** An explanation that opens with an answer sentence decides the
      answer by that sentence's letter, whatever the block's tags say. */
  lemma {:induction false} StatedDecides(x: string, block: string, p: nat)
    requires OpensWithAnswerAt(x, p)
    ensures ResolveAnswer(x, block) == LetterIndex(Lower(x[p]))
  {
  }

  /** "X is the correct answer" states the letter X. */
  lemma {:induction false} StatedPlain(c: char, rest: string)
    requires IsOptionLetter(c)
    ensures StatedLetter([c] + (Sentence + rest)) == Some(c)
  {
    var x := [c] + (Sentence + rest);
    assert HasLiteralAt(Sentence + rest, 0, Sentence);
    LiteralInRight([c], Sentence + rest, 0, Sentence);
    SentenceAt(x, 1);
    LowerOptionLetter(c);
    LiteralCIMismatch(x, 0, "Option", 0);
  }

  /** "Option X is the correct answer" states the letter X. */
  lemma {:induction false} StatedWithOption(c: char, rest: string)
    requires IsOptionLetter(c)
    ensures StatedLetter("Option " + ([c] + (Sentence + rest))) == Some(c)
  {
    var x := "Option " + ([c] + (Sentence + rest));
    assert HasLiteralAt(x, 0, "Option ");
    LiteralPart(x, 0, "Option ", 0, "Option");
    LiteralChar(x, 0, "Option ", 6);
    assert SkipSpaces(x, 6) == 7;
    assert x == ("Option " + [c]) + (Sentence + rest);
    assert HasLiteralAt(Sentence + rest, 0, Sentence);
    LiteralInRight("Option " + [c], Sentence + rest, 0, Sentence);
    SentenceAt(x, 8);
  }

  /** The sentence written out matches its words. */
  lemma {:induction false} SentenceAt(x: string, i: nat)
    requires HasLiteralAt(x, i, Sentence)
    ensures i <= |x| && SpacedWordsAt(x, i, AnswerSentence)
  {
    SentenceWords();
    LiteralChar(x, i, Sentence, 0);
    LiteralChar(x, i, Sentence, 1);
    LiteralChar(x, i, Sentence, 3);
    LiteralChar(x, i, Sentence, 4);
    LiteralChar(x, i, Sentence, 7);
    LiteralChar(x, i, Sentence, 8);
    LiteralChar(x, i, Sentence, 15);
    LiteralChar(x, i, Sentence, 16);
    LiteralPart(x, i, Sentence, 1, "is");
    LiteralPart(x, i, Sentence, 4, "the");
    LiteralPart(x, i, Sentence, 8, "correct");
    LiteralPart(x, i, Sentence, 16, "answer");
    var w4 := ["answer"] + [];
    var w3 := ["correct"] + w4;
    var w2 := ["the"] + w3;
    var w1 := ["is"] + w2;
    WordStep(x, i + 15, "answer", [], i + 22);
    WordStep(x, i + 7, "correct", w4, i + 15);
    WordStep(x, i + 3, "the", w3, i + 7);
    WordStep(x, i, "is", w2, i + 3);
    assert w1 == AnswerSentence;
  }

  /** Where the words of the sentence sit inside it. */
  lemma {:induction false} SentenceWords()
    ensures Sentence[1..3] == "is" && Sentence[4..7] == "the"
    ensures Sentence[8..15] == "correct" && Sentence[16..22] == "answer"
  {
    assert Sentence == " is" + " the" + " correct" + " answer";
    assert |Sentence| == 22;
  }

  /** One more word, after whitespace, in front of the words that follow it. */
  lemma {:induction false} WordStep(x: string, i: nat, w: string, rest: seq<string>, next: nat)
    requires i + 1 < |x| && IsSpace(x[i]) && !IsSpace(x[i + 1])
    requires HasLiteralCIAt(x, i + 1, w)
    requires next == i + 1 + |w|
    requires SpacedWordsAt(x, next, rest)
    ensures SpacedWordsAt(x, i, [w] + rest)
  {
    assert SkipSpaces(x, i + 1) == i + 1;
    assert SkipSpaces(x, i) == i + 1;
    assert ([w] + rest)[1..] == rest;
  }

  /** An answer tag starting in a head that ends with a line break and has
      no tags of its own is impossible. */
  lemma {:induction false} AnswerTagNotInHead(head: string, tail: string, k: nat)
    requires k < |head| && head[|head| - 1] == '\n'
    requires TagFree(head, AnswerWords)
    ensures !MatchesAt(AnswerTagAt, head + tail, k)
  {
    WordTagInHead(head, tail, k, "Ans");
    WordTagInHead(head, tail, k, "Answer");
    assert WordTagAt(head, k, AnswerWords[0]).None?;
    assert WordTagAt(head, k, AnswerWords[1]).None?;
  }

  /** `Ans) X` is an answer tag with the letter X. */
  lemma {:induction false} AnswerTagFound(t: string, h: nat, c: char)
    requires HasLiteralAt(t, h, "Ans) " + [c]) && IsOptionLetter(c)
    ensures AnswerTagAt(t, h) == Some(h + 6) && t[h + 5] == c
  {
    var lit := "Ans) " + [c];
    LiteralPart(t, h, lit, 0, "Ans");
    LiteralChar(t, h, lit, 3);
    LiteralChar(t, h, lit, 4);
    LiteralChar(t, h, lit, 5);
    assert WordTagAt(t, h, "Ans") == Some(h + 4);
    assert SkipSpaces(t, h + 4) == h + 5;
  }

  /** The first answer tag `Ans) X`, written at the start of a line, gives
      the answer unless the explanation opens with an answer sentence of its
      own, whose letter then wins. */
  lemma {:induction false} TaggedAnswerAfterHead(explanation: string, head: string, c: char, rest: string)
    requires head == [] || head[|head| - 1] == '\n'
    requires TagFree(head, AnswerWords)
    requires IsOptionLetter(c)
    ensures ResolveAnswer(explanation, head + ("Ans) " + [c] + rest))
      == if StatedLetter(explanation).Some? then LetterIndex(Lower(StatedLetter(explanation).value))
         else LetterIndex(Lower(c))
  {
    var u := "Ans) " + [c] + rest;
    var t := head + u;
    forall k | 0 <= k < |head| ensures !MatchesAt(AnswerTagAt, t, k) {
      AnswerTagNotInHead(head, u, k);
    }
    assert HasLiteralAt(u, 0, "Ans) " + [c]);
    LiteralInRight(head, u, 0, "Ans) " + [c]);
    AnswerTagFound(t, |head|, c);
    SearchFinds(AnswerTagAt, t, 0, |head|);
    assert TaggedLetter(t) == Some(c);
  }

  /** When the explanation opens with no answer sentence, the letter of
      the leftmost answer tag of the block decides the answer. */
  lemma {:induction false} TaggedDecides(x: string, block: string, sp: Span)
    requires forall p: nat :: !OpensWithAnswerAt(x, p)
    requires IsLeftmost(AnswerTagAt, block, 0, sp)
    ensures ResolveAnswer(x, block) == LetterIndex(Lower(block[sp.end - 1]))
  {
    NoSentenceNoLetter(x);
    LeftmostTagLetter(block, sp);
    ResolveFromTag(x, block, block[sp.end - 1]);
  }

  /** The tagged letter is the last character of the leftmost answer tag. */
  lemma {:induction false} LeftmostTagLetter(block: string, sp: Span)
    requires IsLeftmost(AnswerTagAt, block, 0, sp)
    ensures 0 < sp.end <= |block| && TaggedLetter(block) == Some(block[sp.end - 1])
  {
  }

  /** With no stated letter, the tagged letter decides. */
  lemma {:induction false} ResolveFromTag(x: string, block: string, c: char)
    requires StatedLetter(x).None? && TaggedLetter(block) == Some(c)
    ensures ResolveAnswer(x, block) == LetterIndex(Lower(c))
  {
  }

  /** An explanation that opens with no answer sentence states no letter. */
  lemma {:induction false} NoSentenceNoLetter(x: string)
    requires forall p: nat :: !OpensWithAnswerAt(x, p)
    ensures StatedLetter(x).None?
  {
  }

  // ---------------------------------------------------------------------
  // Subject and topic.

  const SubjectTag: string := "Subject:)"
  const TopicTag: string := "Topic:)"
  const SourceTag: string := "Source:)"

  /** `v` is what `re.search(tag + r'\s*(.*)', block)` yields once its
      group is stripped, or `default` when there is no match: the line
      value after the leftmost occurrence of `tag`. */
  ghost predicate TagValueIs(block: string, tag: string, default: string, v: string) {
    && (NoMatchIn(LiteralAt(tag), block, 0, |block|) ==> v == default)
    && forall sp :: IsLeftmost(LiteralAt(tag), block, 0, sp) ==>
         sp.end <= |block| && v == LineValue(block[sp.end..])
  }

  /** `tag\s*(.*)`: the rest of the line at the first non-space character
      after the first occurrence of `tag`, stripped; `default` when the tag
      does not occur. The whitespace skipped may include line breaks. */
  function TagValue(block: string, tag: string, default: string): (r: string)
    ensures TagValueIs(block, tag, default, r)
    ensures Search(LiteralAt(tag), block, 0).Some? ==>
      && '\n' !in r
      && (r != [] ==> !IsSpace(r[0]) && !IsSpace(r[|r| - 1]))
  {
    match Search(LiteralAt(tag), block, 0)
    case None => default
    case Some(sp) =>
      SearchIsLeftmost(LiteralAt(tag), block, 0, sp);
      LineValue(block[sp.end..])
  }

  /** `\s*(.*)` at the start of `u`: the rest of the line at the first
      non-space character of `u`, stripped. */
  function LineValue(u: string): (r: string)
    ensures '\n' !in r
    ensures r != [] ==> !IsSpace(r[0]) && !IsSpace(r[|r| - 1])
  {
    var a := SkipSpaces(u, 0);
    StrippedLine(u, a);
    Strip(u[a..LineEnd(u, a)])
  }

  /** Whitespace, then a value filling the rest of its line, reads as that
      value. The whitespace may contain line breaks. */
  lemma {:induction false} LineValueAfterGap(gap: string, v: string, tail: string)
    requires AllSpace(gap)
    requires v != [] && '\n' !in v && !IsSpace(v[0]) && !IsSpace(v[|v| - 1])
    requires tail == [] || tail[0] == '\n'
    ensures LineValue(gap + (v + tail)) == v
  {
    var u := gap + (v + tail);
    assert [] + u == u;
    ValueAfterTag([], gap, v, tail);
    StripOfStripped(v);
  }

  /** The subject: the value after the first `Subject:)`, or `General`. */
  function Subject(block: string): (r: string)
    ensures TagValueIs(block, SubjectTag, "General", r)
  {
    TagValue(block, SubjectTag, "General")
  }

  /** The topic: the value after the first `Topic:)`, or `GS`. */
  function Topic(block: string): (r: string)
    ensures TagValueIs(block, TopicTag, "GS", r)
  {
    TagValue(block, TopicTag, "GS")
  }

  /** No occurrence of `lit` starts in `s` before `n`. */
  predicate NoLiteralBefore(s: string, n: nat, lit: string) {
    forall k: nat :: k < n ==> !HasLiteralAt(s, k, lit)
  }

  /** Text in front of a block that holds no occurrence of a tag leaves the
      tag's value alone: the value read from `pre + t` is the value read
      from `t`, the default included. */
  lemma {:induction false} TagValueAfter(pre: string, t: string, tag: string, d: string)
    requires tag != []
    requires NoLiteralBefore(pre + t, |pre|, tag)
    ensures TagValue(pre + t, tag, d) == TagValue(t, tag, d)
  {
    var s := pre + t;
    var n := |pre|;
    var m := LiteralAt(tag);
    var r := Search(m, t, 0);
    if r.None? {
      assert NoMatchIn(m, s, 0, |s|) by {
        forall k: nat | k < |s| ensures !MatchesAt(m, s, k) {
          MatchAfter(pre, t, tag, k);
        }
      }
      assert TagValue(s, tag, d) == d;
      assert TagValue(t, tag, d) == d;
    } else {
      var sp := r.value;
      var sp' := Span(n + sp.start, n + sp.end);
      assert IsLeftmost(m, s, 0, sp') by {
        MatchAfter(pre, t, tag, n + sp.start);
        forall k: nat | k < sp'.start ensures !MatchesAt(m, s, k) {
          MatchAfter(pre, t, tag, k);
        }
      }
      assert s[sp'.end..] == t[sp.end..];
      TagValueMoved(s, t, tag, d, sp', sp);
    }
  }

  /** Two texts whose first occurrences of a tag are followed by the same
      text give the same value. */
  lemma {:induction false} TagValueMoved(s: string, t: string, tag: string, d: string, sp: Span, tp: Span)
    requires IsLeftmost(LiteralAt(tag), s, 0, sp)
    requires IsLeftmost(LiteralAt(tag), t, 0, tp)
    requires sp.end <= |s| && tp.end <= |t| && s[sp.end..] == t[tp.end..]
    ensures TagValue(s, tag, d) == TagValue(t, tag, d)
  {
  }

  /** Where a tag matches in `pre + t`, when `pre` holds none of it. */
  lemma {:induction false} MatchAfter(pre: string, t: string, tag: string, k: nat)
    requires tag != []
    requires NoLiteralBefore(pre + t, |pre|, tag)
    ensures MatchesAt(LiteralAt(tag), pre + t, k) ==
      (|pre| <= k && MatchesAt(LiteralAt(tag), t, k - |pre|) && MatchEnd(LiteralAt(tag), t, k - |pre|) == k - |pre| + |tag|)
  {
    if |pre| <= k {
      LiteralInRight(pre, t, k - |pre|, tag);
    }
  }

  /** A tag at the start of a line, with no earlier occurrence, followed by
      whitespace and a value that fills the rest of its line, gives that
      value. The whitespace may contain line breaks: a tag left empty on
      its line takes its value from the next line. */
  lemma {:induction false} TagValueAfterHead(head: string, tag: string, gap: string, v: string, tail: string, default: string)
    requires head == [] || head[|head| - 1] == '\n'
    requires tag != [] && '\n' !in tag
    requires forall k :: 0 <= k < |head| ==> !HasLiteralAt(head, k, tag)
    requires AllSpace(gap)
    requires v != [] && '\n' !in v && !IsSpace(v[0]) && !IsSpace(v[|v| - 1])
    requires tail == [] || tail[0] == '\n'
    ensures TagValue(head + (tag + (gap + (v + tail))), tag, default) == v
  {
    var rest := gap + (v + tail);
    var t := head + (tag + rest);
    var sp := Span(|head|, |head| + |tag|);
    TagFoundAfterHead(head, tag, rest);
    assert t[sp.end..] == rest;
    LineValueAfterGap(gap, v, tail);
  }

  /** The search for a tag absent from a head ending with a line break
      finds the tag that follows the head. */
  lemma {:induction false} TagFoundAfterHead(head: string, tag: string, more: string)
    requires head == [] || head[|head| - 1] == '\n'
    requires tag != [] && '\n' !in tag
    requires forall k :: 0 <= k < |head| ==> !HasLiteralAt(head, k, tag)
    ensures Search(LiteralAt(tag), head + (tag + more), 0) == Some(Span(|head|, |head| + |tag|))
  {
    var rest := tag + more;
    var t := head + rest;
    forall k | 0 <= k < |head| ensures !MatchesAt(LiteralAt(tag), t, k) {
      TagNotInHead(head, rest, tag, k);
    }
    assert HasLiteralAt(rest, 0, tag);
    LiteralInRight(head, rest, 0, tag);
    SearchFinds(LiteralAt(tag), t, 0, |head|);
  }

  /** A tag free of line breaks, absent from a head ending with a line
      break, does not start in the head. */
  lemma {:induction false} TagNotInHead(head: string, rest: string, tag: string, k: nat)
    requires k < |head| && head[|head| - 1] == '\n'
    requires '\n' !in tag
    requires forall j :: 0 <= j < |head| ==> !HasLiteralAt(head, j, tag)
    ensures !MatchesAt(LiteralAt(tag), head + rest, k)
  {
    if k + |tag| <= |head| {
      LiteralInLeft(head, rest, k, tag);
    } else {
      LiteralNotAcross(head, rest, k, tag, '\n');
    }
  }

  // ---------------------------------------------------------------------
  // Removing the metadata from the explanation.

  /** One of the three metadata tags begins at `p`. */
  predicate MetaTagAt(s: string, p: nat) {
    HasLiteralAt(s, p, SubjectTag) || HasLiteralAt(s, p, TopicTag) || HasLiteralAt(s, p, SourceTag)
  }

  /** `(Subject:\)|Topic:\)|Source:\)).*` with DOTALL: a tag and everything after it. */
  function MetadataAt(s: string, p: nat): Option<nat> {
    if p < |s| && MetaTagAt(s, p) then Some(|s|) else None
  }

  const MetaTags: seq<string> := [SubjectTag, TopicTag, SourceTag]

  /** A metadata match starts wherever one of the three tags is written out
      exactly (case counts), and takes the rest of the text, line breaks
      included. */
  lemma {:induction false} MetadataMatch(s: string, p: nat)
    ensures MatchesAt(MetadataAt, s, p) <==> exists tag :: tag in MetaTags && HasLiteralAt(s, p, tag)
    ensures MatchesAt(MetadataAt, s, p) ==> MatchEnd(MetadataAt, s, p) == |s|
  {
    if MatchesAt(MetadataAt, s, p) {
      if HasLiteralAt(s, p, SubjectTag) {
        assert MetaTags[0] == SubjectTag;
      } else if HasLiteralAt(s, p, TopicTag) {
        assert MetaTags[1] == TopicTag;
      } else {
        assert MetaTags[2] == SourceTag;
      }
    }
  }

  /** The explanation without its metadata: cut at the first tag, then stripped. */
  function StripMetadata(x: string): (r: string)
    ensures forall t :: IsLeftmost(MetadataAt, x, 0, t) ==> t.start < |x| && r == Strip(x[..t.start])
    ensures (forall k :: 0 <= k < |x| ==> !MetaTagAt(x, k)) ==> r == Strip(x)
    ensures forall k :: 0 <= k < |r| ==> !MetaTagAt(r, k)
    ensures r != [] ==> !IsSpace(r[0]) && !IsSpace(r[|r| - 1])
  {
    var c := Sub(MetadataAt, Delete, x);
    MetadataCut(x);
    NoMetaInStrip(c);
    forall t | IsLeftmost(MetadataAt, x, 0, t) ensures t.start < |x| && c == x[..t.start] {
      CutAtLeftmost(x, t);
    }
    assert (forall k :: 0 <= k < |x| ==> !MetaTagAt(x, k)) ==> c == x;
    Strip(c)
  }

  /** The metadata is cut at the leftmost tag. */
  lemma {:induction false} CutAtLeftmost(x: string, t: Span)
    requires IsLeftmost(MetadataAt, x, 0, t)
    ensures t.start < |x| && Sub(MetadataAt, Delete, x) == x[..t.start]
  {
    var c := Sub(MetadataAt, Delete, x);
    MetadataCut(x);
    assert MetaTagAt(x, t.start);
    if |c| < t.start {
      assert MatchesAt(MetadataAt, x, |c|);
    }
  }

  /** Deleting the metadata keeps the text before the first tag: a prefix
      in which no tag of the text starts, ending at a tag or at the end of
      the text. No tag is left in it. */
  lemma {:induction false} MetadataCut(x: string)
    ensures var c := Sub(MetadataAt, Delete, x);
      && c == x[..|c|]
      && (forall k :: 0 <= k < |c| ==> !MetaTagAt(x, k))
      && (|c| == |x| || MetaTagAt(x, |c|))
      && (forall k :: 0 <= k < |c| ==> !MetaTagAt(c, k))
  {
    var c := Sub(MetadataAt, Delete, x);
    match Search(MetadataAt, x, 0)
    case None =>
      forall k | 0 <= k < |c| ensures !MetaTagAt(c, k) {
        assert !MatchesAt(MetadataAt, x, k);
      }
    case Some(sp) =>
      SubDeleteStep(MetadataAt, x, 0, sp);
      assert sp.end == |x|;
      assert SubFrom(MetadataAt, Delete, x, |x|) == [];
      assert c == x[..sp.start];
      forall k | 0 <= k < |c| ensures !MetaTagAt(x, k) {
        assert !MatchesAt(MetadataAt, x, k);
      }
      forall k | 0 <= k < |c| ensures !MetaTagAt(c, k) {
        assert !MatchesAt(MetadataAt, x, k);
        TagsInPrefix(x, sp.start, k);
      }
  }

  /** A tag of a prefix is a tag of the text. */
  lemma {:induction false} TagsInPrefix(x: string, p: nat, k: nat)
    requires k < p <= |x|
    ensures MetaTagAt(x[..p], k) ==> MetaTagAt(x, k)
  {
    var c := x[..p];
    assert x == c + x[p..];
    if k + |SubjectTag| <= p { LiteralInLeft(c, x[p..], k, SubjectTag); }
    if k + |TopicTag| <= p { LiteralInLeft(c, x[p..], k, TopicTag); }
    if k + |SourceTag| <= p { LiteralInLeft(c, x[p..], k, SourceTag); }
  }

  /** Stripping a text without tags leaves none. */
  lemma {:induction false} NoMetaInStrip(c: string)
    requires forall k :: 0 <= k < |c| ==> !MetaTagAt(c, k)
    ensures forall k :: 0 <= k < |Strip(c)| ==> !MetaTagAt(Strip(c), k)
  {
    var lo := SkipSpaces(c, 0);
    var hi := StripEnd(c, lo);
    var r := Strip(c);
    forall k | 0 <= k < |r| ensures !MetaTagAt(r, k) {
      assert !MetaTagAt(c, lo + k);
      if k + |SubjectTag| <= |r| { LiteralInSlice(c, lo, hi, k, SubjectTag); }
      if k + |TopicTag| <= |r| { LiteralInSlice(c, lo, hi, k, TopicTag); }
      if k + |SourceTag| <= |r| { LiteralInSlice(c, lo, hi, k, SourceTag); }
    }
  }
}
