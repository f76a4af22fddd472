# Forum IAS question extraction, modelled in Dafny

`scripts/process_pdfs.py` turns the text of a Forum IAS test paper (a PDF
already flattened to one string) into an ordered list of question records.
Each record carries an id, the question text, the options, the index of the
correct option, a formatted explanation, a subject and a topic. This project
models that text pipeline:

- `clean_garbage_text` deletes the institute's address block and the
  `SFG 2026` banner lines, then collapses runs of blank lines;
- the cleaned text is split at every `\nQ.<digits>)` / `\nQ.<digits>.`
  marker, and the preamble before the first marker is dropped;
- each block is stripped, its explanation is captured after `Exp)` /
  `Explanation:`, the answer letter is resolved (an explanation that opens
  with "… is the correct answer" wins over an `Ans)` tag), subject and topic
  are read with their defaults, metadata is cut off the explanation, and the
  explanation is formatted by `format_explanation`;
- the option region runs from the first newline-then-`a)` to the first
  newline-then-`Ans`/`Exp`; it is split at the option labels, and the list is
  padded to four entries with `"-"`;
- two small extras: the page-number substitutions applied to every
  extracted page, and the title built from an uploaded file name.

Every regular expression of the source is written out as a matcher, a
function from a string and a position to the end of the match starting
there (`Scan.Matcher`). One scanner module gives these matchers the meaning
of Python's `re.search`, `re.finditer`, `re.split` and `re.sub`. A Python
`\s` is `Strings.IsSpace`, which lists the characters Python's `str.isspace`
accepts. `re.IGNORECASE` is ASCII case folding (`Strings.Lower`).

Modules, one per file, in pipeline order: `Strings` (characters, literals,
`strip`), `Scan` (search, find-all, split, substitute), `Cleaner`,
`Formatter`, `Segmenter`, `Fields` (explanation, answer, metadata),
`Options`, `Pipeline` (the record and `parse_forum_ias`), and `Titles`.

A few points of the program's behaviour that the model keeps exactly:
- the question-text sentinel is `"Error parsing question text."`
  (scripts/process_pdfs.py:154);
- a block that is empty after `strip()` still yields a record, with the
  error sentinels (scripts/process_pdfs.py:91, :153-155);
- the "correct answer" sentence counts only at the very start of the
  explanation, since it is read with `re.match` (scripts/process_pdfs.py:103);
- `format_explanation` is applied to the explanation only
  (scripts/process_pdfs.py:129);
- the final clean-up of `format_explanation` strips whitespace; it does not
  remove a leading `<br>` (scripts/process_pdfs.py:77).

## Model

| member | source | states |
|---|---|---|
| Strings.Strip | scripts/process_pdfs.py:91 | The result is the input minus its leading and trailing whitespace. It is empty exactly when the input is all whitespace; otherwise it starts and ends with a non-space character. |
| Strings.StripIdempotent | scripts/process_pdfs.py:91 | Stripping an already stripped string changes nothing. |
| Strings.Lower | scripts/process_pdfs.py:106 | ASCII lowercasing: an upper-case letter becomes the letter 32 code points above it, every other character is unchanged, and the result is a letter exactly when the input is one. |
| Scan.Search | scripts/process_pdfs.py:95 | Like `re.search`: a result is the leftmost position where the pattern matches, with no match before it. No result means no position matches. |
| Scan.FindAll | scripts/process_pdfs.py:148 | Like `re.finditer`: the spans form a left-to-right scan of non-overlapping leftmost matches, each within the string. |
| Scan.FindAllCharacterized | scripts/process_pdfs.py:148 | Any sequence of spans that forms such a scan is exactly the one `FindAll` returns, so the matches are unique. |
| Scan.SplitRejoin | scripts/process_pdfs.py:86 | Like `re.split`: gluing the pieces back together with the matched separators reproduces the input. |
| Scan.PiecesOfRejoin | scripts/process_pdfs.py:86 | Splitting a text built from pieces and separators, where only the separators match, gives back exactly those pieces. |
| Scan.SubIsRejoin | scripts/process_pdfs.py:51 | Like `re.sub`: the result is the unmatched pieces, in order, with each match replaced by its replacement. |
| Scan.SubDeleteShrinks | scripts/process_pdfs.py:47 | Substituting the empty string never lengthens the text. |
| Scan.SubIdentity | scripts/process_pdfs.py:51 | Replacing each match by itself gives back the input. |
| Cleaner.BracketNumberMatch | scripts/process_pdfs.py:21 | `\[\d+\]` matches at a position, with a given end, exactly when `[`, one or more digits and `]` run from there to that end. |
| Cleaner.PageBannerMatch | scripts/process_pdfs.py:22 | `---\s*PAGE\s*\d+\s*---` matches with a given end exactly when dashes, `PAGE`, a number and dashes, with optional whitespace between them, run up to that end. |
| Cleaner.StripPageMarkers | scripts/process_pdfs.py:21-22 | Removing `[n]` numbers and `--- PAGE n ---` banners never lengthens a page. |
| Cleaner.PlainPageUntouched | scripts/process_pdfs.py:21-22 | A page without `[` and without `---` is left unchanged. |
| Cleaner.PageText | scripts/process_pdfs.py:16-24 | The document text has at least one character per page and ends with a newline whenever there is a page. |
| Cleaner.PageTextIsConcat | scripts/process_pdfs.py:16-24 | The document text is the concatenation, in page order, of each page with its markers removed and a newline appended. |
| Cleaner.AddressBlockEnds | scripts/process_pdfs.py:36-47 | A match of the address-block pattern starts with the block's first line (ignoring case) and ends with its last segment. |
| Cleaner.RemoveAddressBlock | scripts/process_pdfs.py:36-47 | Deleting the address block never lengthens the text. |
| Cleaner.NoAddressHeadUntouched | scripts/process_pdfs.py:36-47 | A text in which the block's first line never occurs (ignoring case) is left unchanged. |
| Cleaner.SfgLineMatch | scripts/process_pdfs.py:51 | `(?m)^SFG 2026.*$` matches with a given end exactly when `SFG 2026` starts a line there and the end is the end of that line. |
| Cleaner.RemoveSfgLines | scripts/process_pdfs.py:51 | No line of the result starts with `SFG 2026`. |
| Cleaner.NewlineRunMatch | scripts/process_pdfs.py:55 | `\n{3,}` matches with a given end exactly when three or more newlines run up to that end and no newline follows. |
| Cleaner.NewlineRunEnd | scripts/process_pdfs.py:55 | The end of a run of newlines: every character before it is a newline, and the character at it is not. |
| Cleaner.CollapseBlankLines | scripts/process_pdfs.py:55 | The result never contains three newlines in a row. |
| Cleaner.CollapseKeepsNoSfgLine | scripts/process_pdfs.py:51-55 | Collapsing blank lines cannot create a line starting with `SFG 2026`. |
| Cleaner.CleanGarbage | scripts/process_pdfs.py:29-57 | The cleaned text has no run of three newlines and no line starting with `SFG 2026`. |
| Cleaner.CleanKeepsClean | scripts/process_pdfs.py:29-57 | A text with no address block head, no `SFG 2026` line and no triple newline is returned unchanged. |
| Cleaner.CleanIdempotent | scripts/process_pdfs.py:29-57 | Cleaning twice equals cleaning once, provided the first pass left no address-block head behind. |
| Formatter.LazyUntil | scripts/process_pdfs.py:69 | The lazy `.*?` before `is correct`: it finds the nearest occurrence on the same line, with none earlier. No result means none occurs on that line. |
| Formatter.HenceOptionMatch | scripts/process_pdfs.py:69 | `Hence option .*? is correct` (ignoring case) matches with a given end exactly when the opening words, then text on one line without `is correct`, then `is correct` run up to that end. |
| Formatter.BoldKeywords | scripts/process_pdfs.py:64-72 | When none of the keyword patterns occurs, the text is unchanged. |
| Formatter.BoldKeywordsInOrder | scripts/process_pdfs.py:71-72 | The keywords are applied one after another in list order: adding a pattern at the end applies its substitution to the text the earlier patterns produced. |
| Formatter.PhrasesWrapped | scripts/process_pdfs.py:71-72 | Every occurrence of a keyword pattern is replaced by `<br><br><b>`, the matched text and `</b>`. The text between occurrences is kept. |
| Formatter.NumberedItemMatch | scripts/process_pdfs.py:75 | `\n\s*(\d+\.)\s+` matches with a given end exactly when a line break, indentation, a number, a dot and whitespace run up to that end, with no whitespace after it. |
| Formatter.NumberedItemLabel | scripts/process_pdfs.py:75 | A newline-number-dot item is rewritten as `<br><b>`, the number with its dot, and `</b> `. |
| Formatter.FormatExplanation | scripts/process_pdfs.py:59-77 | An empty explanation becomes `"No explanation provided."`. Any other result neither starts nor ends with whitespace. |
| Formatter.PlainExplanationTrimmed | scripts/process_pdfs.py:59-77 | An explanation with no keyword, no line break and no tripled `<br>` is only stripped. |
| Segmenter.QuestionMarkerMatch | scripts/process_pdfs.py:86 | `\nQ\.\s*\d+[\)\.]` matches with a given end exactly when a line break, `Q.`, whitespace, a number and `)` or `.` run up to that end. |
| Segmenter.Markers | scripts/process_pdfs.py:86 | Every question marker found is a non-empty span inside the text. |
| Segmenter.Blocks | scripts/process_pdfs.py:86-87 | There is one block per question marker. The list is empty exactly when the text has no marker. |
| Segmenter.BlockBetweenMarkers | scripts/process_pdfs.py:86-87 | Block k is the text between the end of marker k and the start of marker k+1, or the end of the text. It contains no marker. |
| Segmenter.BlocksOfDocument | scripts/process_pdfs.py:86-87 | For a preamble followed by marker-and-body pairs, where no body has a line starting with `Q`, the blocks are exactly the bodies and the preamble is dropped. |
| Fields.WordTagAt | scripts/process_pdfs.py:95 | A tag matches exactly when the word occurs there, ignoring case, followed by `)` or `:`. |
| Fields.ExplanationTagMatch | scripts/process_pdfs.py:95 | The tag `Exp` or `Explanation`, then `)` or `:` (ignoring case), matches with a given end exactly when one of the two words and its bracket run up to that end. |
| Fields.ExplanationText | scripts/process_pdfs.py:95-96 | Without an `Exp`/`Explanation` tag the explanation is empty. Otherwise it is everything after the leftmost tag, across lines, stripped. |
| Fields.ExplanationAfterTag | scripts/process_pdfs.py:95-96 | When the first tag is an `Exp)` at the start of a line, the explanation is the rest of the block after it, stripped. Tags in the middle of a line are covered by `Fields.ExplanationText`. |
| Fields.StatedLetter | scripts/process_pdfs.py:103 | A letter is stated exactly when the explanation opens with the answer sentence: whenever it does, the result is that sentence's letter, and any result is the letter of such a sentence. The letter is one of a-d or A-D. |
| Fields.StatedPlain | scripts/process_pdfs.py:103 | An explanation opening with `<letter> is the correct answer` states that letter. |
| Fields.StatedWithOption | scripts/process_pdfs.py:103 | An explanation opening with `Option <letter> is the correct answer` states that letter. |
| Fields.AnswerTagMatch | scripts/process_pdfs.py:109 | The answer pattern (`Ans` or `Answer`, `)` or `:`, whitespace, a letter a-d; ignoring case) matches with a given end exactly when a word, its bracket, whitespace and an option letter run up to that end, the letter being the last character. |
| Fields.TaggedLetter | scripts/process_pdfs.py:109-110 | The tagged letter is the letter of the leftmost answer tag, one of a-d or A-D. There is none exactly when no answer tag occurs. |
| Fields.AnswerTagFound | scripts/process_pdfs.py:109 | `Ans) <letter>` is an answer tag ending just after that letter. |
| Fields.LetterIndex | scripts/process_pdfs.py:112-114 | Maps a to 0, b to 1, c to 2 and d to 3, and maps any other character to -1. |
| Fields.LowerOptionLetter | scripts/process_pdfs.py:106 | A lowercased option letter is one of a-d. |
| Fields.ResolveAnswer | scripts/process_pdfs.py:99-114 | The result lies in -1..3. It is -1 exactly when neither strategy finds a letter. Otherwise it is the lowercased stated letter, or, when none is stated, the lowercased tagged letter. |
| Fields.StatedAnswerWins | scripts/process_pdfs.py:103-106 | When the explanation opens with the answer sentence, its letter decides, whatever `Ans)` tag the block has. |
| Fields.StatedDecides | scripts/process_pdfs.py:103-106 | When the explanation opens with the answer sentence whose letter sits at position p, the answer is the index of that letter, lowercased, whatever the block's tags. |
| Fields.TaggedAnswerAfterHead | scripts/process_pdfs.py:107-110 | When the first answer tag is an `Ans) <letter>` at the start of a line, the stated letter decides if there is one, and otherwise that tag's letter does. Tags in the middle of a line are covered by `Fields.TaggedDecides`. |
| Fields.TaggedDecides | scripts/process_pdfs.py:107-110 | When the explanation does not open with the answer sentence, the answer is the index of the lowercased letter of the leftmost answer tag in the block. |
| Fields.TagValue | scripts/process_pdfs.py:117-121 | Without the tag the default is returned. Otherwise the value is read after the leftmost tag: whitespace (newlines included) is skipped and the rest of that line is taken, stripped. |
| Fields.LineValueAfterGap | scripts/process_pdfs.py:117-121 | Whitespace followed by a stripped value alone on its line reads back as exactly that value. |
| Fields.Subject | scripts/process_pdfs.py:117-118 | The subject is `"General"` without a `Subject:)` tag, and otherwise the value after the leftmost such tag. |
| Fields.Topic | scripts/process_pdfs.py:120-121 | The topic is `"GS"` without a `Topic:)` tag, and otherwise the value after the leftmost such tag. |
| Fields.TagValueAfter | scripts/process_pdfs.py:117-121 | Text put before a block does not change a tag's value when that text, and its junction with the block, holds no occurrence of the tag. |
| Fields.TagValueAfterHead | scripts/process_pdfs.py:117-118 | After a head free of the tag, `<tag> <value>` with the value alone on its line yields exactly that value. |
| Fields.MetadataMatch | scripts/process_pdfs.py:124 | The metadata pattern (one of the three tags, then `.*` with DOTALL) matches exactly where one of the three tags occurs, and the match runs to the end of the text. |
| Fields.MetadataCut | scripts/process_pdfs.py:124 | Deleting the metadata keeps the prefix of the explanation that ends at the first tag, or the whole explanation when there is none; the kept prefix holds no tag. |
| Fields.StripMetadata | scripts/process_pdfs.py:124 | The result is the text before the leftmost `Subject:)`, `Topic:)` or `Source:)`, stripped, or the whole text stripped when there is none. It contains no such tag. |
| Options.OptionStartMatch | scripts/process_pdfs.py:133 | `\n\s*a[\)\.]` matches with a given end exactly when a line break, indentation, `a` and `)` or `.` run up to that end. |
| Options.ClosingMatch | scripts/process_pdfs.py:142 | The closing-line pattern (newline, whitespace, `Ans` or `Exp`, ignoring case) matches with a given end exactly when a line break, indentation and `Ans` or `Exp` run up to that end. |
| Options.LabelMatch | scripts/process_pdfs.py:148 | The label pattern (start or newline, whitespace, a letter a-d in either case, `)` or `.`) matches with a given end exactly when the start of the region or a line break, indentation, an option letter and its bracket run up to that end. |
| Options.OptionsEnd | scripts/process_pdfs.py:142-143 | The region ends at the first newline-then-`Ans`/`Exp` after its start, or at the end of the block when there is none. |
| Options.OptionsEndFound | scripts/process_pdfs.py:142-143 | Given the leftmost closing line after the start, the region ends where that line begins. |
| Options.OptionsOf | scripts/process_pdfs.py:148-152 | There is one option per label found, and each option is stripped. |
| Options.OptionBetweenLabels | scripts/process_pdfs.py:148-152 | Option i is the text between the end of label i and the start of label i+1, or the region's end, stripped. |
| Options.Pad | scripts/process_pdfs.py:158-160 | The list has length max(4, n). Its first n entries are the parsed options in order, and any added entry is `"-"`. |
| Options.OptionsOfLayout | scripts/process_pdfs.py:145-152 | A region of labelled one-line options reads back as those lines, stripped, in order. |
| Options.RegionRead | scripts/process_pdfs.py:142-152 | For labelled one-line options followed by an `Ans`/`Exp` line, the region ends exactly where that line begins, and the options read back as the lines. |
| Options.OptionsStartAfter | scripts/process_pdfs.py:133 | After a one-line question, the options start at the newline before the lowercase `a)`/`a.` label. |
| Options.OptionsStopAtClosing | scripts/process_pdfs.py:142 | Option labels and one-line option texts never look like an `Ans`/`Exp` line, so the first closing line is the one that follows them. |
| Pipeline.QuestionText | scripts/process_pdfs.py:133-154 | Without a newline-then-`a)` the text is `"Error parsing question text."`. Otherwise it is the text before the leftmost option start, stripped. |
| Pipeline.QuestionOptions | scripts/process_pdfs.py:133-160 | Without an option start the options are four `"Parse Error"`. Otherwise they are the options of the region from the leftmost option start to the first closing line, padded to four; each is stripped or `"-"`. |
| Pipeline.DisplayedExplanation | scripts/process_pdfs.py:93-129 | Without an explanation tag the display is `"No explanation provided."`. Otherwise it is the formatted text after the leftmost tag, stripped, with its metadata cut. It neither starts nor ends with whitespace. |
| Pipeline.ParseBlock | scripts/process_pdfs.py:89-171 | The record's id is index+1 and it has at least four options. Read in the stripped block: without an option start the text and options are the error sentinels, otherwise the text is the stripped text before the leftmost option start and the options are those of the region it opens; the answer is the one resolved from the explanation and the block (in -1..3); the explanation is the placeholder without a tag, otherwise the formatted, metadata-cut text after the leftmost tag; subject and topic are `"General"` and `"GS"` without their tags, otherwise the line value after the leftmost tag. |
| Pipeline.ParseBlocks | scripts/process_pdfs.py:89-171 | One record per block, in order, and record k is block k read with index k. |
| Pipeline.ParseForumIas | scripts/process_pdfs.py:79-176 | One record per question block of the cleaned text, in order: record k is block k read with index k, so ids run 1..n. The list is empty exactly when the cleaned text has no question marker. |
| Pipeline.ParseCleanDocument | scripts/process_pdfs.py:79-176 | For a clean document laid out as preamble plus marked bodies, record k is the parse of body k. |
| Pipeline.QuestionTextAfter | scripts/process_pdfs.py:133-139 | The question text is the stripped line before the first `a)` label. |
| Pipeline.TextOfBlock | scripts/process_pdfs.py:133-139 | For a one-line question followed by its options, the question text is that line, stripped. |
| Pipeline.OptionsAfterQuestion | scripts/process_pdfs.py:138-160 | When the region opens with the `a)` label and is closed by an `Ans`/`Exp` line, the options are the padded options of that region. |
| Pipeline.OptionsOfRegion | scripts/process_pdfs.py:142-160 | The options are the padded options of the text between the option start and the first closing line. |
| Pipeline.OptionsOfBlock | scripts/process_pdfs.py:133-160 | For a laid-out block, the options are the stripped option lines, padded to four. |
| Pipeline.AnswerOfBlock | scripts/process_pdfs.py:93-129 | For a block made of a head, `Ans) <letter>` and `Exp) <body>`, where the head (with a line break after it) holds no answer or explanation tag: the answer is the index of the letter the body states, or else of the tagged letter; the explanation is the formatted body with its metadata cut; subject and topic are read from the body when the head does not name them. |
| Pipeline.MetadataOfBlock | scripts/process_pdfs.py:116-121 | For a block made of a head, `Ans) <letter>` and `Exp) <body>`, the subject and topic are those of the body whenever the head holds no `Subject:)` or `Topic:)`. |
| Pipeline.ParseLaidOutBlock | scripts/process_pdfs.py:89-171 | For a block laid out as a one-line question, labelled one-line options, `Ans) <letter>` and `Exp) <body>`, with no answer or explanation tag before the `Ans` line: id, text, options, answer (stated letter first, else the tag), explanation, and subject and topic (when the head does not name them) are each what the layout gives. |
| Titles.SpacedOut | scripts/process_pdfs.py:220 | The character-by-character reference: same length as the input, with every occurrence of the character turned into a space and all else kept. |
| Titles.SpaceFor | scripts/process_pdfs.py:220 | `str.replace` of one character by a space, built on the substitution scanner, equals the character-by-character reference `SpacedOut`. |
| Titles.BaseName | scripts/process_pdfs.py:220 | Removing `.pdf` never lengthens the name. |
| Titles.Title | scripts/process_pdfs.py:220 | The title contains no `-` or `_`. Each character is the base name's character, with `-` and `_` turned into spaces. |
| Titles.TitleOfPdfName | scripts/process_pdfs.py:220 | For `<name>.pdf` with no dot in the name, the title is the name with `-` and `_` turned into spaces. |

## Left out

- Reading PDFs (`extract_text_from_pdf`, scripts/process_pdfs.py:11-27). The file and PyPDF2 calls are I/O in a foreign library; the pages are a parameter of `Cleaner.PageText`.
- `main` and `update_manifest` (scripts/process_pdfs.py:178-229). They list directories, write JSON files and remove files. Only the title expression at :220 is modelled.
- The per-block `except` handler and the console output (scripts/process_pdfs.py:173-174). Nothing in the block body can raise on a string, so the model is total: one record per block.
- Unicode case folding and Unicode digits. Under `re.IGNORECASE` Python also folds a few non-ASCII characters (for example the Kelvin sign to `k`), and `\d` accepts every Unicode decimal digit. The model folds ASCII letters only and accepts `0`-`9` only.
- JSON serialisation of the records. The record is the datatype `Pipeline.Question`.
- Cleaner.StripPageMarkers: the contract states only that the page does not grow, plus the untouched case in `Cleaner.PlainPageUntouched`. Which text each pattern removes is stated by `Cleaner.BracketNumberMatch` and `Cleaner.PageBannerMatch` together with the scanner's `Scan.SubIsRejoin`.
- Cleaner.PageText: its own contract states only length and the final newline; the exact text is stated by `Cleaner.PageTextIsConcat`.
- Cleaner.AddressBlockEnds: states how a match begins and ends, not every middle segment. The body searches the parts one after another, each at its first occurrence, which is what the lazy `.*?` between the parts does here because any text may follow each part.
- Cleaner.RemoveAddressBlock: the contract states only that the text does not grow, plus the untouched case in `Cleaner.NoAddressHeadUntouched`. A removal can splice a new block head together from text on both sides of the removed block.
- Cleaner.CleanIdempotent: idempotence is proved only when the first pass leaves no address-block head behind. The splice described for `Cleaner.RemoveAddressBlock` is why it does not hold in general.
- Formatter.BoldKeywords: the contract states the no-match case. The combined effect of the eleven patterns is stated step by step, by `Formatter.BoldKeywordsInOrder` (pattern order) and `Formatter.PhrasesWrapped` (one pattern), not as one closed form, because a later pattern can match text an earlier substitution inserted.
- Formatter.FormatExplanation: the contract states the empty case and that the result is stripped. The decorated text is stated stage by stage (`Formatter.BoldKeywordsInOrder`, `Formatter.PhrasesWrapped`, `Formatter.NumberedItemLabel`), plus the undecorated case in `Formatter.PlainExplanationTrimmed`; the `<br><br><br>` replacement has no lemma of its own.
- Titles.BaseName: the contract states only that the name does not grow. `Titles.TitleOfPdfName` states the exact result for the usual `<name>.pdf` file name.
- Pipeline.ParseBlock: the error sentinels are promised when there is no option start; the converse is not stated, since a block whose own question text reads `Error parsing question text.` and whose options read `Parse Error` yields the same record fields.
- Pipeline.ParseLaidOutBlock, Pipeline.OptionsOfBlock and Pipeline.TextOfBlock cover blocks whose question and options each fit on one line. Multi-line questions and options are covered by the general contracts of `Pipeline.ParseBlock`, `Pipeline.QuestionText` and `Pipeline.QuestionOptions`.
- Fields.TaggedAnswerAfterHead and Fields.ExplanationAfterTag cover tags at the start of a line; a tag in the middle of a line is covered by the leftmost-tag contracts of `Fields.TaggedDecides` and `Fields.ExplanationText`.
- The source's known quirks are modelled as written and not stated as separate lemmas:
  - an empty `Subject:)` value takes the text of the next line, because `\s*` crosses the newline;
  - the `<br><br><br>` collapse is a single left-to-right pass, so four consecutive breaks become three.
