/** `parse_forum_ias`: the document is cleaned, cut into question blocks,
    and each block is read into a question record. */
module Pipeline {
  import opened Strings
  import opened Scan
  import opened Cleaner
  import opened Formatter
  import opened Segmenter
  import opened Fields
  import opened Options

  /** One question as written to the test file. */
  datatype Question = Question(
    id: int,
    text: string,
    options: seq<string>,
    correctAnswer: int,
    explanation: string,
    subject: string,
    topic: string)

  /** The question text of a block without an options line. */
  const ParseErrorText: string := "Error parsing question text."

  /** The options of a block without an options line. */
  const ParseErrorOptions: seq<string> := ["Parse Error", "Parse Error", "Parse Error", "Parse Error"]

  /** A text with no surrounding whitespace. */
  predicate IsStripped(s: string) {
    s == [] || (!IsSpace(s[0]) && !IsSpace(s[|s| - 1]))
  }

  /** The question text: the stripped text before the first options line,
      or the error text when the block has none. */
  function QuestionText(block: string): (r: string)
    ensures NoMatchIn(OptionStartAt, block, 0, |block|) ==> r == ParseErrorText
    ensures forall sp :: IsLeftmost(OptionStartAt, block, 0, sp) ==> r == Strip(block[..sp.start])
    ensures !NoMatchIn(OptionStartAt, block, 0, |block|) ==> IsStripped(r)
  {
    match Search(OptionStartAt, block, 0)
    case None => ParseErrorText
    case Some(sp) =>
      SearchIsLeftmost(OptionStartAt, block, 0, sp);
      Strip(block[..sp.start])
  }

  /** The options: those of the region from the first options line up to
      the first closing line, padded to four; the error options when the
      block has no options line. */
  function QuestionOptions(block: string): (r: seq<string>)
    ensures |r| >= 4
    ensures NoMatchIn(OptionStartAt, block, 0, |block|) ==> r == ParseErrorOptions
    ensures forall sp :: IsLeftmost(OptionStartAt, block, 0, sp) ==>
      r == Pad(OptionsOf(block[sp.start..OptionsEnd(block, sp.start)]))
    ensures !NoMatchIn(OptionStartAt, block, 0, |block|) ==>
      forall i :: 0 <= i < |r| ==> r[i] == Filler || IsStripped(r[i])
  {
    match Search(OptionStartAt, block, 0)
    case None => ParseErrorOptions
    case Some(sp) =>
      SearchIsLeftmost(OptionStartAt, block, 0, sp);
      var options := OptionsOf(block[sp.start..OptionsEnd(block, sp.start)]);
      Pad(options)
  }

  /** `x` is the explanation the record shows for `block`: the placeholder
      without an explanation tag, otherwise the text after the leftmost
      tag, stripped, cut before its metadata and formatted. */
  ghost predicate ExplanationShown(block: string, x: string) {
    && (NoMatchIn(ExplanationTagAt, block, 0, |block|) ==> x == NoExplanation)
    && forall sp :: IsLeftmost(ExplanationTagAt, block, 0, sp) ==>
         x == FormatExplanation(StripMetadata(Strip(block[sp.end..])))
  }

  /** The displayed explanation: the explanation without its metadata,
      formatted. */
  function DisplayedExplanation(block: string): (r: string)
    ensures ExplanationShown(block, r)
    ensures IsStripped(r)
  {
    FormatExplanation(StripMetadata(ExplanationText(block)))
  }

  /** The reading of the `idx`-th block (counting from 0), once stripped. */
  function ParseBlock(idx: nat, raw: string): (q: Question)
    ensures q.id == idx + 1
    ensures |q.options| >= 4
    ensures -1 <= q.correctAnswer <= 3
    ensures IsStripped(q.explanation)
    ensures var block := Strip(raw);
      NoMatchIn(OptionStartAt, block, 0, |block|) ==>
        q.text == ParseErrorText && q.options == ParseErrorOptions
    ensures var block := Strip(raw);
      forall sp :: IsLeftmost(OptionStartAt, block, 0, sp) ==>
        && q.text == Strip(block[..sp.start])
        && q.options == Pad(OptionsOf(block[sp.start..OptionsEnd(block, sp.start)]))
    ensures var block := Strip(raw);
      !NoMatchIn(OptionStartAt, block, 0, |block|) ==>
        && IsStripped(q.text)
        && forall i :: 0 <= i < |q.options| ==> q.options[i] == Filler || IsStripped(q.options[i])
    ensures var block := Strip(raw);
      q.correctAnswer == ResolveAnswer(ExplanationText(block), block)
    ensures ExplanationShown(Strip(raw), q.explanation)
    ensures TagValueIs(Strip(raw), SubjectTag, "General", q.subject)
    ensures TagValueIs(Strip(raw), TopicTag, "GS", q.topic)
  {
    var block := Strip(raw);
    Question(idx + 1, QuestionText(block), QuestionOptions(block),
             ResolveAnswer(ExplanationText(block), block), DisplayedExplanation(block),
             Subject(block), Topic(block))
  }

  /** `parse_forum_ias`: one record per question block of the cleaned
      document, numbered from 1 in order; none when the cleaned document
      has no question marker. */
  function ParseForumIas(text: string): (r: seq<Question>)
    ensures var blocks := Blocks(CleanGarbage(text));
      && |r| == |blocks|
      && forall k :: 0 <= k < |r| ==> r[k].id == k + 1
    ensures var blocks := Blocks(CleanGarbage(text));
      forall k :: 0 <= k < |r| ==> r[k] == ParseBlock(k, blocks[k])
    ensures var c := CleanGarbage(text);
      r == [] <==> NoMatchIn(QuestionMarkerAt, c, 0, |c|)
  {
    ParseBlocks(Blocks(CleanGarbage(text)))
  }

  /** Each block read in turn, numbered by its place. */
  function ParseBlocks(blocks: seq<string>): (r: seq<Question>)
    ensures |r| == |blocks|
    ensures forall k :: 0 <= k < |r| ==> r[k] == ParseBlock(k, blocks[k])
  {
    seq(|blocks|, k requires 0 <= k < |blocks| => ParseBlock(k, blocks[k]))
  }

  // ---------------------------------------------------------------------
  // Documents and blocks laid out as the parser expects them.

  /** A clean document made of a preamble and question bodies, each after
      its marker, is read body by body: the `k`-th record is the reading of
      the `k`-th body. */
  lemma {:induction false} ParseCleanDocument(preamble: string, markers: seq<string>, bodies: seq<string>)
    requires |markers| == |bodies|
    requires forall i :: 0 <= i < |markers| ==> IsQuestionMarker(markers[i])
    requires NoQuestionLine(preamble)
    requires forall i :: 0 <= i < |bodies| ==> NoQuestionLine(bodies[i])
    requires IsClean(Rejoin([preamble] + bodies, markers))
    ensures var r := ParseForumIas(Rejoin([preamble] + bodies, markers));
      && |r| == |bodies|
      && forall k :: 0 <= k < |r| ==> r[k] == ParseBlock(k, bodies[k])
  {
    var doc := Rejoin([preamble] + bodies, markers);
    CleanKeepsClean(doc);
    BlocksOfDocument(preamble, markers, bodies);
  }

  /** A block written as a one-line question, then a first option label
      `a)` or `a.`, has that line as its question text. */
  lemma {:induction false} TextOfBlock(question: string, labels: seq<string>, lines: seq<string>, closing: string)
    requires NoNewline(question)
    requires |labels| == |lines| > 0
    requires IsOptionLabel(labels[0]) && labels[0][|labels[0]| - 2] == 'a'
    ensures QuestionText(question + (Rejoin([""] + lines, labels) + closing)) == Strip(question)
  {
    FirstLabelAtStart(labels, lines, closing);
    QuestionTextAfter(question, Rejoin([""] + lines, labels) + closing, labels[0]);
  }

  /** A block written as a one-line question, then its options one per
      line after labels starting with `a)` or `a.`, then a line opening
      with `Ans` or `Exp`, has as options the stripped lines, padded to
      four. */
  lemma {:induction false} OptionsOfBlock(question: string, labels: seq<string>, lines: seq<string>, closing: string)
    requires NoNewline(question)
    requires |labels| == |lines| > 0
    requires forall i :: 0 <= i < |labels| ==> IsOptionLabel(labels[i])
    requires |labels[0]| >= 3 && labels[0][|labels[0]| - 2] == 'a'
    requires forall i :: 0 <= i < |lines| ==> NoNewline(lines[i])
    requires HasLiteralAt(closing, 0, "\nAns") || HasLiteralAt(closing, 0, "\nExp")
    ensures QuestionOptions(question + (Rejoin([""] + lines, labels) + closing)) == Pad(StripAll(lines))
  {
    var region := Rejoin([""] + lines, labels);
    var d := labels[0];
    assert IsOptionLabel(d) && d[|d| - 2] == 'a';
    RegionRead(labels, lines, closing);
    OptionsAfterQuestion(question, d, region, closing);
    assert OptionsOf(region) == StripAll(lines);
  }

  /** A one-line question followed by a first label `a)` or `a.` is the
      question text. */
  lemma {:induction false} QuestionTextAfter(question: string, rest: string, d: string)
    requires NoNewline(question)
    requires IsOptionLabel(d) && d[|d| - 2] == 'a'
    requires HasLiteralAt(rest, 0, d)
    ensures QuestionText(question + rest) == Strip(question)
  {
    var raw := question + rest;
    OptionsStartAfter(question, rest, d);
    assert raw[..|question|] == question;
  }

  /** The options of a block whose one-line question is followed by a
      region that starts with a first label `a)` or `a.` and ends at a
      closing line are those of the region. */
  lemma {:induction false} OptionsAfterQuestion(question: string, d: string, region: string, closing: string)
    requires NoNewline(question)
    requires IsOptionLabel(d) && d[|d| - 2] == 'a'
    requires HasLiteralAt(region + closing, 0, d)
    requires Search(AnsExpLineAt, region + closing, 0).Some?
    requires Search(AnsExpLineAt, region + closing, 0).value.start == |region|
    ensures QuestionOptions(question + (region + closing)) == Pad(OptionsOf(region))
  {
    var rest := region + closing;
    var raw := question + rest;
    SliceOfThree(question, region, closing);
    OptionsStartAfter(question, rest, d);
    OptionsOfRegion(raw, |question|, region);
  }

  /** When the options line is found at `p`, and the first closing line
      after it where the options `region` ends, the options are those of
      the region. */
  lemma {:induction false} OptionsOfRegion(block: string, p: nat, region: string)
    requires Search(OptionStartAt, block, 0).Some? && Search(OptionStartAt, block, 0).value.start == p
    requires p + |region| <= |block| && block[p..p + |region|] == region
    requires Search(AnsExpLineAt, block[p..], 0).Some? && Search(AnsExpLineAt, block[p..], 0).value.start == |region|
    ensures QuestionOptions(block) == Pad(OptionsOf(region))
  {
    OptionsEndFound(block, p, Search(AnsExpLineAt, block[p..], 0).value);
    var e := OptionsEnd(block, p);
    assert block[p..e] == region;
    assert QuestionOptions(block) == Pad(OptionsOf(block[p..e]));
  }

  /** A block whose answer line `Ans) X` is followed by its explanation
      line `Exp) ...`, with no answer or explanation tag before them, has
      the formatted text after `Exp)` as explanation, and the answer `X`
      unless that text itself states an answer, which then wins. Its
      subject and topic are read from the explanation text when the head
      does not name them. */
  lemma {:induction false} AnswerOfBlock(idx: nat, head: string, c: char, body: string)
    requires head != [] && !IsSpace(head[0])
    requires body != [] && !IsSpace(body[|body| - 1])
    requires IsOptionLetter(c)
    requires TagFree(head + "\n", AnswerWords)
    requires TagFree(head + "\n", ExplanationWords)
    ensures var q := ParseBlock(idx, head + ("\nAns) " + [c] + "\nExp) " + body));
      var stated := StatedLetter(Strip(body));
      && q.correctAnswer == (if stated.Some? then LetterIndex(Lower(stated.value)) else LetterIndex(Lower(c)))
      && q.explanation == FormatExplanation(StripMetadata(Strip(body)))
      && (NoLiteralBefore(head, |head|, SubjectTag) ==> q.subject == Subject(body))
      && (NoLiteralBefore(head, |head|, TopicTag) ==> q.topic == Topic(body))
  {
    var h := head + "\n";
    var raw := head + ("\nAns) " + [c] + "\nExp) " + body);
    var h2 := h + ("Ans) " + [c] + "\n");
    AnswerBlockParts(head, c, body);
    StripOfStripped(raw);
    TagFreeAfterAnswer(h, c);
    ExplanationAfterTag(h2, " " + body);
    StripSpaceBefore(body);
    assert ExplanationText(raw) == Strip(body);
    TaggedAnswerAfterHead(Strip(body), h, c, "\nExp) " + body);
    MetadataOfBlock(idx, head, c, body);
  }

  /** The subject and topic of such a block are those of its explanation
      text when the head does not name them. */
  lemma {:induction false} MetadataOfBlock(idx: nat, head: string, c: char, body: string)
    requires head != [] && !IsSpace(head[0])
    requires body != [] && !IsSpace(body[|body| - 1])
    requires IsOptionLetter(c)
    ensures var q := ParseBlock(idx, head + ("\nAns) " + [c] + "\nExp) " + body));
      && (NoLiteralBefore(head, |head|, SubjectTag) ==> q.subject == Subject(body))
      && (NoLiteralBefore(head, |head|, TopicTag) ==> q.topic == Topic(body))
  {
    var raw := head + ("\nAns) " + [c] + "\nExp) " + body);
    var mid := "\nAns) " + [c] + "\nExp) ";
    AnswerBlockParts(head, c, body);
    StripOfStripped(raw);
    assert raw == (head + mid) + body;
    if NoLiteralBefore(head, |head|, SubjectTag) {
      NoTagBeforeBody(head, c, body, SubjectTag);
      TagValueAfter(head + mid, body, SubjectTag, "General");
    }
    if NoLiteralBefore(head, |head|, TopicTag) {
      NoTagBeforeBody(head, c, body, TopicTag);
      TagValueAfter(head + mid, body, TopicTag, "GS");
    }
  }

  /** The answer and explanation lines hold no `Subject:)` or `Topic:)`,
      so a head without the tag leaves none before the explanation text. */
  lemma {:induction false} NoTagBeforeBody(head: string, c: char, body: string, tag: string)
    requires tag == SubjectTag || tag == TopicTag
    requires IsOptionLetter(c)
    requires NoLiteralBefore(head, |head|, tag)
    ensures var mid := "\nAns) " + [c] + "\nExp) ";
      NoLiteralBefore(head + mid + body, |head + mid|, tag)
  {
    var mid := "\nAns) " + [c] + "\nExp) ";
    var rest := mid + body;
    var raw := head + mid + body;
    assert raw == head + rest;
    assert '\n' !in tag;
    assert forall i :: 0 <= i < |mid| ==> mid[i] != 'S' && mid[i] != 'T';
    forall k: nat | k < |head + mid| ensures !HasLiteralAt(raw, k, tag) {
      if k < |head| {
        if k + |tag| <= |head| {
          LiteralInLeft(head, rest, k, tag);
        } else {
          LiteralNotAcross(head, rest, k, tag, '\n');
        }
      } else {
        assert raw[k] == mid[k - |head|];
        if k + |tag| <= |raw| {
          assert raw[k..k + |tag|][0] == raw[k];
        }
      }
    }
  }

  /** The two ways the answer and explanation lines split a block. */
  lemma {:induction false} AnswerBlockParts(head: string, c: char, body: string)
    ensures var raw := head + ("\nAns) " + [c] + "\nExp) " + body);
      && raw == (head + "\n" + ("Ans) " + [c] + "\n")) + "Exp)" + (" " + body)
      && raw == (head + "\n") + ("Ans) " + [c] + ("\nExp) " + body))
      && (head != [] ==> raw[0] == head[0])
      && (body != [] ==> raw[|raw| - 1] == body[|body| - 1])
  {
    var raw := head + ("\nAns) " + [c] + "\nExp) " + body);
    var line := "\nAns) " + [c];
    assert raw == head + (line + ("\nExp) " + body));
    assert raw == (head + "\n" + ("Ans) " + [c] + "\n")) + "Exp)" + (" " + body);
  }

  /** An answer line `Ans) X` adds no explanation tag. */
  lemma {:induction false} TagFreeAfterAnswer(h: string, c: char)
    requires h != [] && h[|h| - 1] == '\n'
    requires IsOptionLetter(c)
    requires TagFree(h, ExplanationWords)
    ensures TagFree(h + ("Ans) " + [c] + "\n"), ExplanationWords)
  {
    var line := "Ans) " + [c] + "\n";
    var t := h + line;
    forall k, i | 0 <= k < |t| && 0 <= i < |ExplanationWords|
      ensures WordTagAt(t, k, ExplanationWords[i]).None?
    {
      var w := ExplanationWords[i];
      assert w[0] == 'E';
      if k < |h| {
        WordTagInHead(h, line, k, w);
      } else {
        assert t[k] == line[k - |h|];
        assert Lower(t[k]) != 'e';
        LiteralCIMismatch(t, k, w, 0);
      }
    }
  }

  /** Stripping ignores one leading space. */
  lemma {:induction false} StripSpaceBefore(body: string)
    ensures Strip(" " + body) == Strip(body)
  {
    var s := " " + body;
    assert SkipSpaces(s, 0) == SkipSpaces(s, 1);
    StripSkipped(s, 0);
    StripSkipped(s, 1);
    assert s[0..] == s;
    assert s[1..] == body;
  }

  /** A block laid out in full, question, options, answer line and
      explanation line, is read back field by field. */
  lemma {:induction false} ParseLaidOutBlock(idx: nat, question: string, labels: seq<string>, lines: seq<string>, c: char, body: string)
    requires question != [] && !IsSpace(question[0]) && NoNewline(question)
    requires |labels| == |lines| > 0
    requires forall i :: 0 <= i < |labels| ==> IsOptionLabel(labels[i])
    requires |labels[0]| >= 3 && labels[0][|labels[0]| - 2] == 'a'
    requires forall i :: 0 <= i < |lines| ==> NoNewline(lines[i])
    requires IsOptionLetter(c)
    requires body != [] && !IsSpace(body[|body| - 1])
    requires var head := question + Rejoin([""] + lines, labels);
      TagFree(head + "\n", AnswerWords) && TagFree(head + "\n", ExplanationWords)
    ensures var head := question + Rejoin([""] + lines, labels);
      var raw := head + "\nAns) " + [c] + "\nExp) " + body;
      var q := ParseBlock(idx, raw);
      var stated := StatedLetter(Strip(body));
      && q.id == idx + 1
      && q.text == Strip(question)
      && q.options == Pad(StripAll(lines))
      && q.correctAnswer == (if stated.Some? then LetterIndex(Lower(stated.value)) else LetterIndex(Lower(c)))
      && q.explanation == FormatExplanation(StripMetadata(Strip(body)))
      && (NoLiteralBefore(head, |head|, SubjectTag) ==> q.subject == Subject(body))
      && (NoLiteralBefore(head, |head|, TopicTag) ==> q.topic == Topic(body))
  {
    var region := Rejoin([""] + lines, labels);
    var closing := "\nAns) " + [c] + "\nExp) " + body;
    var raw := question + region + "\nAns) " + [c] + "\nExp) " + body;
    assert raw == question + (region + closing);
    assert raw == (question + region) + ("\nAns) " + [c] + "\nExp) " + body);
    assert HasLiteralAt(closing, 0, "\nAns") by {
      assert closing[..4] == "\nAns";
    }
    StripOfStripped(raw);
    TextOfBlock(question, labels, lines, closing);
    OptionsOfBlock(question, labels, lines, closing);
    AnswerOfBlock(idx, question + region, c, body);
  }
}
