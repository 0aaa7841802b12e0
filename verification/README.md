# ENT 101 quiz question extraction, modelled in Dafny

The quiz application builds its question bank from four pieces of text, each
extracted from a PDF beforehand:

- a question sheet;
- a Turkish answer key;
- an English answer key;
- an optional source mapping.

`PDFQuestionExtractor` turns that text into question records:

1. It collapses whitespace.
2. It cuts the question sheet into numbered blocks, each with a stem and four
   options `A)`–`D)`.
3. It reads each answer key, first as a table and then, when the table gives
   fewer than ten ids, with a loose scan.
4. It reads the source mapping, which is a set of chapter sections holding
   `| N | topic | reference` rows.
5. It joins everything into one record per question. When nothing can be
   parsed, it falls back to two built-in questions.

The quiz screen then picks a range of those questions.

The archive holds two converters for the pipe-separated format
`ID|QUESTION|A|B|C|D|CORRECT|EXPLANATION`:

- the batch formatter turns each line into a Python or JavaScript entry, and
  each bad line into an error message;
- the question helper turns each line into a record.

The model is functional. Texts are `seq<char>`, keyed results are `map<nat, _>`
and records are immutable datatypes. Each regular expression of the source is
a hand-written scanner for that one pattern (module `Scan`), with Python's
leftmost-match and `finditer` behaviour.

Modules:

- `Text`, `Numbers`, `Normalise`, `Keyed`: Python's `strip`, `split`, `join`,
  `upper`, `int()`, `str()`, `re.sub(r'\s+', ' ', ·)` and dictionary update.
- `Scan`: the seven regular expressions as scanners, `re.search`, and
  `re.finditer`.
- `QuestionParser`: `parse_questions`. `QuestionSheet` is its partner: it
  writes questions out as a sheet, and it proves that the sheet parses back.
- `AnswerParser`: `parse_answers`.
- `SourceParser`: `parse_source_mapping`.
- `Aggregate`: the combine loop and the fallback of `extract_all_questions`,
  and `get_fallback_questions`.
- `RangeSelect`: `get_questions_by_range`.
- `CodeLiteral`: quoted literals, escaping, and code templates. It includes a
  reader that stands in for the Python or JavaScript parser of the generated
  code.
- `BatchFormatter`: `parse_and_format_questions`,
  `format_question_for_python` and `format_question_for_javascript`.
- `QuestionHelper`: `parse_simple_format`, with a writer as its partner.

## Model

| member | source | states |
|---|---|---|
| Normalise.CollapseNormalises | entrepreneurship_quiz_v2.py:80 | the collapsed text has no whitespace but single spaces, keeps every other character in order, is no longer than the input, and starts and ends with whitespace exactly when the input does |
| Normalise.CollapseSplit | entrepreneurship_quiz_v2.py:80 | a whitespace run between visible characters becomes exactly one space, and the text on either side is collapsed on its own |
| Normalise.CollapseAppend | entrepreneurship_quiz_v2.py:80 | collapsing a concatenation whose seam is not inside a whitespace run collapses each part |
| Normalise.CollapseVisible | entrepreneurship_quiz_v2.py:80 | a text without whitespace is left unchanged |
| Normalise.CollapseFixedIff | entrepreneurship_quiz_v2.py:80 | collapsing leaves a text unchanged exactly when it has no whitespace character other than a single space between non-space characters |
| Normalise.CollapseIdempotent | entrepreneurship_quiz_v2.py:131 | collapsing twice gives the same text as collapsing once |
| Text.Strip | archive/batch_formatter.py:80 | the stripped text is no longer than the input, has no whitespace at either end, and is empty exactly when the input is all whitespace |
| Text.StripFixedIff | archive/batch_formatter.py:80 | stripping leaves a text unchanged exactly when it is empty or starts and ends with a non-whitespace character |
| Text.SplitOn | archive/batch_formatter.py:84 | splitting on a character gives one more part than the character's occurrences, and no part contains it |
| Text.JoinSplit | archive/batch_formatter.py:84 | joining the parts of a split with the separator gives the input back |
| Text.SplitJoin | archive/question_helper.py:135 | splitting the join of separator-free parts gives those parts back |
| Text.IndexOf | entrepreneurship_quiz_v2.py:95 | `str.find`: the position found holds the searched text, no earlier position from the start does, and none is found exactly when the text occurs nowhere from the start on |
| Text.RemoveAll | entrepreneurship_quiz_v2.py:143 | `re.sub` with an empty replacement deletes every occurrence of the character and keeps every other character; a one-character text is kept or deleted whole |
| Text.RemoveAllAppend | entrepreneurship_quiz_v2.py:171-172 | removal distributes over concatenation, so with the one-character case the kept characters stay in their order |
| Numbers.PyInt | archive/question_helper.py:138 | `int()` accepts a text exactly when, without the whitespace `int()` skips at its ends, it is an optional sign followed by digits with single underscores between them; a leading minus gives a non-positive value, otherwise non-negative |
| Numbers.IntStripPadded | archive/question_helper.py:138 | the whitespace `int()` skips is exactly `str.isspace()` without U+001C..U+001F: such whitespace on either side of a text is dropped, and nothing else |
| Numbers.SeparatorRejected | archive/question_helper.py:138 | a text that starts with one of U+001C..U+001F is rejected by `int()`, although `str.isspace()` counts those characters as whitespace |
| Numbers.SpacesSkipped | entrepreneurship_quiz_v2.py:838-839 | `int()` whitespace around the printed form of an integer is skipped, giving that integer |
| Numbers.IntStripStripped | archive/batch_formatter.py:90 | on a field already stripped by `str.strip()`, the whitespace `int()` skips changes nothing |
| Numbers.PyIntRoundTrip | archive/question_helper.py:138 | `int(str(i)) == i` for every integer, with no limit on the number of digits |
| Numbers.NatToString | archive/batch_formatter.py:86 | `str(n)` is a non-empty run of digits without a leading zero |
| Keyed.AssignLast | entrepreneurship_quiz_v2.py:150-153 | in dictionary assignment, the last entry for a key decides its value |
| Keyed.AssignOthers | entrepreneurship_quiz_v2.py:239-245 | in dictionary assignment, a key that no entry mentions keeps its earlier value |
| Keyed.InsertKeeps | entrepreneurship_quiz_v2.py:163 | an insert guarded by `not in` never overwrites a key that is already present |
| Keyed.InsertFirst | entrepreneurship_quiz_v2.py:163-187 | in an insert guarded by `not in`, the first entry for a new key decides its value |
| Scan.Search | entrepreneurship_quiz_v2.py:236-237 | a search from a position reports a non-empty match that lies inside the text, at or after that position |
| Scan.SearchFound | entrepreneurship_quiz_v2.py:236-237 | `re.search` reports the leftmost match: there is no match between the start position and the reported one, and it reports none exactly when the pattern matches nowhere from the start position on |
| Scan.FindAllOrdered | entrepreneurship_quiz_v2.py:135 | `finditer` reports matches in text order, none overlapping the next |
| Scan.FindAllFound | entrepreneurship_quiz_v2.py:135 | every reported match is a match of the pattern at its start |
| Scan.GapHasNoMatch | entrepreneurship_quiz_v2.py:135 | `finditer` misses nothing: between the end of one reported match and the start of the next, the pattern matches nowhere |
| Scan.FindAllFirst | entrepreneurship_quiz_v2.py:135 | `finditer` reports nothing exactly when the pattern matches nowhere from the start, and otherwise its first report is the leftmost match |
| Scan.MatchShape | entrepreneurship_quiz_v2.py:134 | a match has the shape its pattern describes, for example a table row's `\|`, digits, `.`, letter A-D and non-pipe run |
| QuestionParser.OptionEnd | entrepreneurship_quiz_v2.py:108 | the lazy option group stops at the first `B)`, `C)` or `D)` label or at the end of the text, and at no label before that |
| QuestionParser.OptionText | entrepreneurship_quiz_v2.py:107-114 | an option is found exactly when its label occurs; its text is stripped and normalised |
| QuestionParser.ParseBlock | entrepreneurship_quiz_v2.py:91-122 | a kept block has the marker's number, a non-empty stripped stem, and four stripped, normalised options |
| QuestionParser.ParseBlockKeeps | entrepreneurship_quiz_v2.py:93-122 | a block gives a question exactly when its stripped content has an `A)` label, the text before the first one is not blank, and `B)`, `C)` and `D)` labels occur from there on; every other block is dropped |
| QuestionParser.ParseBlockFound | entrepreneurship_quiz_v2.py:95-122 | a block whose content has `A)`, a non-empty stem before it, and all four options found parses to exactly those pieces |
| QuestionParser.Blocks | entrepreneurship_quiz_v2.py:84-92 | there is one block per marker match (whitespace, digits, `.`, whitespace), in order; the k-th block's number is `int()` of the k-th marker's digits and its content is the text from that marker's end to the next marker's start, or to the end of the text; each block of a normalised text is normalised |
| QuestionParser.ParseBlocks | entrepreneurship_quiz_v2.py:87-122 | the loop over blocks keeps at most one question per block, each with a non-empty stem and clean options |
| QuestionParser.ParseBlocksFrom | entrepreneurship_quiz_v2.py:87-122 | a question is kept exactly when some block parses to it |
| QuestionParser.ParseQuestions | entrepreneurship_quiz_v2.py:75-124 | there are at most as many questions as markers, and every question has a non-empty stem and clean options |
| QuestionSheet.BlockRoundTrip | entrepreneurship_quiz_v2.py:91-122 | a well-formed question written as a block parses back to the same question |
| QuestionSheet.SheetRoundTrip | entrepreneurship_quiz_v2.py:75-124 | questions written as a sheet parse back to the same questions, in the same order, duplicates included |
| AnswerParser.CleanTableText | entrepreneurship_quiz_v2.py:140-144 | a table explanation is normalised and free of `*`, and keeps every other visible character of the row text in order |
| AnswerParser.TableExplanation | entrepreneurship_quiz_v2.py:146-148 | a table explanation has at least 15 characters and no `*`; it is the cleaned text exactly when that text already has 15 or more |
| AnswerParser.TableExplanationContent | entrepreneurship_quiz_v2.py:140-148 | the visible characters of a table explanation are those of the `Correct answer: L. ` prefix, when one is added, followed by the row text's characters other than `*` |
| AnswerParser.RowEntry | entrepreneurship_quiz_v2.py:137-153 | a table row gives the id `int()` of its digits and a table record whose letter is the row's A-D letter and whose explanation is the `TableExplanation` of the row's third column, at least 15 characters long and without `*` |
| AnswerParser.TableEntries | entrepreneurship_quiz_v2.py:135-153 | one entry per table-row match, each a table record with a letter A-D and an explanation of at least 15 characters without `*` |
| AnswerParser.TableAnswers | entrepreneurship_quiz_v2.py:134-153 | the table map's keys are exactly the ids of the table rows |
| AnswerParser.WindowEnd | entrepreneurship_quiz_v2.py:165-170 | a loose explanation ends at the first later occurrence of `str(N + 1)`, or, when there is none, 500 characters on (cut at the end of the text) |
| AnswerParser.CleanLooseText | entrepreneurship_quiz_v2.py:170-173 | a loose explanation is normalised, free of `\|` and `*`, and keeps every other visible character in order |
| AnswerParser.LooseRecord | entrepreneurship_quiz_v2.py:176-187 | both languages get the same cleaned text cut to 500 characters; when that text is under 15 characters, they get instead the two fixed sentences naming the letter |
| AnswerParser.LooseEntry | entrepreneurship_quiz_v2.py:158-187 | a loose match gives the id `int()` of its digits and the `LooseRecord` of its A-D letter and of the text from the match's end to `WindowEnd` |
| AnswerParser.LooseEntries | entrepreneurship_quiz_v2.py:158-187 | one entry per loose match, each a loose record with a letter A-D and both texts at most 500 characters |
| AnswerParser.AnswersGood | entrepreneurship_quiz_v2.py:134-187 | every record of an answer map names a letter A-D and respects its explanation length bounds |
| AnswerParser.AnswersOf | entrepreneurship_quiz_v2.py:134-187 | every table id is a key; every key is the id of a table row or of a loose match; with ten or more table ids the map is the table map itself |
| AnswerParser.ParseAnswers | entrepreneurship_quiz_v2.py:126-189 | on the collapsed key text, every record names a letter A-D and keeps its length bounds, and every table id is a key |
| AnswerParser.TableRowWins | entrepreneurship_quiz_v2.py:150-153 | a table row decides its id's record unless a later row has the same id |
| AnswerParser.TableNeverOverwritten | entrepreneurship_quiz_v2.py:163 | the loose scan never replaces a record the table gave |
| AnswerParser.AnswerIds | entrepreneurship_quiz_v2.py:156-163 | the ids are those of the table rows, plus those of the loose matches exactly when the table gave fewer than ten ids |
| AnswerParser.AllTabledAtQuorum | entrepreneurship_quiz_v2.py:156 | with ten or more table ids, every record is a table record |
| AnswerParser.LooseFirstWins | entrepreneurship_quiz_v2.py:163-187 | below ten table ids, the first loose match for an id the table lacks decides that id's record |
| SourceParser.Chapters | entrepreneurship_quiz_v2.py:200-219 | there is one section per header, each titled `Chapter ...`; the sections lie in order inside the text, and the last reaches the end |
| SourceParser.SectionAt | entrepreneurship_quiz_v2.py:213-217 | a section starts where its header ends, and ends where the next header starts or at the end of the text |
| SourceParser.ChapterBounds | entrepreneurship_quiz_v2.py:201-219 | no header matches inside a section; each section but the last stops at a header; there are no sections exactly when no header matches |
| SourceParser.DocumentOf | entrepreneurship_quiz_v2.py:236-242 | the document is the first `ENT 101 ... .pdf` name in the reference, or the chapter title with `.pdf` added; either way it ends in `.pdf` |
| SourceParser.CitationOf | entrepreneurship_quiz_v2.py:237-243 | the reference is the whole first `[[N]]` token, and is empty exactly when there is none |
| SourceParser.RowEntry | entrepreneurship_quiz_v2.py:227-245 | a row is skipped exactly when its stripped topic contains `Question` or `Topic`; otherwise it gives `int()` of the row's digits and a record holding the section's title, the stripped topic and reference columns, the `DocumentOf` and the `CitationOf` the reference column |
| SourceParser.SectionEntries | entrepreneurship_quiz_v2.py:223-245 | a section gives at most one entry per row match, and each carries that section's title |
| SourceParser.SourcesOf | entrepreneurship_quiz_v2.py:205-245 | every record names a section title and a non-header topic; its document is the `DocumentOf` its source text and title (the first `ENT 101 ... .pdf` name, else `<chapter>.pdf`) and its reference the `CitationOf` its source text (the whole first `[[N]]` token, or empty) |
| SourceParser.LaterRowWins | entrepreneurship_quiz_v2.py:239-245 | a row decides its id's record unless a later row, in the same or a later section, has the same id |
| SourceParser.NoHeaderNoSources | entrepreneurship_quiz_v2.py:200-205 | a text without a chapter header gives an empty map |
| SourceParser.ParseSources | entrepreneurship_quiz_v2.py:191-248 | on the collapsed mapping text, every record has the properties `SourcesOf` states |
| Aggregate.ExplanationOf | entrepreneurship_quiz_v2.py:320-321 | the explanation is the record's `explanation` only for a table record; otherwise the language's placeholder |
| Aggregate.Join | entrepreneurship_quiz_v2.py:312-353 | id, stem and options are kept; `correct` comes from the Turkish record, else the English record, else `A`; explanations or placeholders; source fields exactly for an answered id in the source map |
| Aggregate.JoinAll | entrepreneurship_quiz_v2.py:311-353 | one joined record per parsed question, in the questions' order, each the join of that question |
| Aggregate.UnansweredIds | entrepreneurship_quiz_v2.py:344-354 | at most one warning per question, and each warned id is in neither answer map; `UnansweredMembers` gives the converse |
| Aggregate.UnansweredMembers | entrepreneurship_quiz_v2.py:344-354 | an id is warned about exactly when it belongs to a parsed question and is in neither answer map |
| Aggregate.Combine | entrepreneurship_quiz_v2.py:311-354 | there is one record per parsed question, in order, each the join of that question; the warnings list the unanswered ids in order |
| Aggregate.Fallback | entrepreneurship_quiz_v2.py:387-416 | there are exactly two built-in records, ids 1 and 2, answers C and D, with no source |
| Aggregate.Extract | entrepreneurship_quiz_v2.py:271-362 | the result is never empty; it is the fallback exactly when the question text is empty or yields no question, and otherwise the joined records |
| Aggregate.JoinPresentable | entrepreneurship_quiz_v2.py:314-353 | a joined record has a non-empty stem, a letter A-D and two non-empty explanations |
| Aggregate.ExtractPresentable | entrepreneurship_quiz_v2.py:271-362 | every extracted record, fallback included, has a non-empty stem, a letter A-D and two non-empty explanations |
| RangeSelect.First | entrepreneurship_quiz_v2.py:831-835 | `all_q[:n]` is the first min(n, len) questions, in order |
| RangeSelect.BetweenMembers | entrepreneurship_quiz_v2.py:850 | a question is selected exactly when it is loaded and its id lies in the range |
| RangeSelect.BetweenAppend | entrepreneurship_quiz_v2.py:850 | the filter keeps order: filtering a concatenation gives the concatenation of the filtered parts |
| RangeSelect.NumberedRange | entrepreneurship_quiz_v2.py:849-850 | on questions numbered 1, 2, 3, ... the range start..end is the slice from the start-th to the end-th question |
| RangeSelect.Select | entrepreneurship_quiz_v2.py:818-855 | every range type is covered: `all` and unknown types give everything; the random types sample min(30 or 50, len) of all; the `first_` types give a prefix; `custom` as below |
| RangeSelect.Custom | entrepreneurship_quiz_v2.py:837-853 | a bound `int()` rejects (the entry text as typed, so a leading U+001C..U+001F is rejected) gives the Invalid Input dialog and everything; an out-of-bounds or reversed range gives the Invalid Range dialog and everything; otherwise exactly the questions whose id lies in the range |
| CodeLiteral.EscapeQuotes | archive/batch_formatter.py:31-36 | the formatter's escaping grows the text by one character per quote and leaves a text without the quote unchanged |
| CodeLiteral.UnescapeEscapeQuotes | archive/batch_formatter.py:31-36 | the formatter's escaping loses nothing: dropping each backslash before a quote, left to right, gives the text back |
| CodeLiteral.EscapeQuotesAgrees | archive/batch_formatter.py:54-59 | on a text without a backslash, the formatter's escaping equals full escaping |
| CodeLiteral.ReadEscaped | archive/batch_formatter.py:40-48 | a fully escaped single-line text is read as itself, and reading goes on with what follows it |
| CodeLiteral.TrailingBackslash | archive/batch_formatter.py:31-36 | for a text ending in one backslash, the formatter's literal reads the closing quote as text and goes on reading into what follows |
| CodeLiteral.EscapeRoundTrip | archive/batch_formatter.py:40-48 | a fully escaped single-line text, closed by its quote, is read back as the text, whatever follows |
| CodeLiteral.ReadLiteral | archive/batch_formatter.py:40-48 | a literal read ends at its closing quote, inside the text, and never spans a line break; `EscapeRoundTrip` is its inverse partner |
| CodeLiteral.RenderAgrees | archive/batch_formatter.py:28-72 | both escapings render a template alike when no text slot holds a backslash |
| CodeLiteral.ParsePrefix | archive/batch_formatter.py:38-72 | the readable leading pieces of a rendered template are read back as themselves, and reading goes on from where they end |
| CodeLiteral.UnreadSlot | archive/batch_formatter.py:38-72 | a text slot whose literal cannot be read makes the whole template unreadable |
| CodeLiteral.RoundTrip | archive/batch_formatter.py:38-72 | a template filled with values its escaping can carry reads back, against its shape, as those values |
| BatchFormatter.TargetOf | archive/batch_formatter.py:103-106 | `'python'` selects the Python template, and every other format selects JavaScript |
| BatchFormatter.Format | archive/batch_formatter.py:28-72 | the entry as the source writes it reads back as its fields when no field holds a line break or a backslash, and equals the corrected entry when no field holds a backslash |
| BatchFormatter.FormatFixed | archive/batch_formatter.py:28-72 | the corrected entry reads back as its fields whenever no field holds a line break |
| BatchFormatter.UnterminatedEntry | archive/batch_formatter.py:31-49 | an entry whose question ends in a single backslash does not read back at all: its question literal is still open at the line break |
| BatchFormatter.FieldsOutcome | archive/batch_formatter.py:89-112 | an entry exactly when the stripped id parses and the stripped, upper-cased answer is A-D; its fields are the stripped parts and its code is the entry as written; a bad id gives the `Error parsing` message and a bad answer the `Invalid correct answer` message |
| BatchFormatter.IntError | archive/batch_formatter.py:110-111 | the `int()` message holds the field between single quotes, cut after 200 characters as `%.200R` cuts it, so a field of 199 or more characters loses its closing quote |
| BatchFormatter.UpperAll | archive/batch_formatter.py:96 | `str.upper` maps each character in place and keeps the length |
| BatchFormatter.LineOutcome | archive/batch_formatter.py:79-112 | skipped exactly when blank or `#` once stripped; a field count other than 8 gives `Line n: Expected 8 parts, got k`; every error starts with `Line n: ` |
| BatchFormatter.EveryLineAccounted | archive/batch_formatter.py:79-114 | entries plus errors equal the number of lines not skipped |
| BatchFormatter.FormatQuestions | archive/batch_formatter.py:74-114 | the entries and the errors of all lines, each list in line order, together one per line not skipped |
| BatchFormatter.EntriesReadBack | archive/batch_formatter.py:79-108 | for a text without a backslash, every entry the formatter emits reads back as the fields of its line |
| QuestionHelper.ReadLine | archive/question_helper.py:132-149 | skipped exactly for a blank line or one whose raw text starts with `#`; otherwise ignored exactly when the line does not split into 8 fields, and raising exactly when it does and `int()` rejects the unstripped first field (so a leading U+001C..U+001F raises); a record holds the eight unstripped fields |
| QuestionHelper.CollectRaises | archive/question_helper.py:138 | the conversion fails exactly when some line that is not skipped has 8 fields and an id `int()` rejects |
| QuestionHelper.Collect | archive/question_helper.py:132-150 | the loop over lines gives at most one record per line |
| QuestionHelper.CollectFrom | archive/question_helper.py:132-150 | every record the loop collects is the record some line reads as |
| QuestionHelper.ParseSimpleFormat | archive/question_helper.py:128-150 | the conversion of the stripped text's lines fails exactly when some line raises, and otherwise gives at most one record per line |
| QuestionHelper.LineRoundTrip | archive/question_helper.py:135-148 | a record without pipes or line breaks, written as a line, reads back as itself |
| QuestionHelper.SimpleRoundTrip | archive/question_helper.py:129-150 | records written one per line convert back to the same records, in order |

## Findings

| source | as written | input that shows it | evidently intended | confidence | as-written member | corrected member |
|---|---|---|---|---|---|---|
| archive/batch_formatter.py:31-36 | each field escapes only the quote character (`"` for Python, `'` at lines 54-59 for JavaScript) before it is put between quotes | a line whose question field is the text `Path C:` followed by one backslash: the backslash escapes the closing quote, so the question's literal is still open at the line break and the generated entry does not parse | escape backslashes as well as quotes, so that every text reads back as itself | not executed | BatchFormatter.UnterminatedEntry | BatchFormatter.FormatFixed |

`BatchFormatter.Format`, and with it `FieldsOutcome` and `FormatQuestions`,
writes entries as the source does, escaping quotes only.
`BatchFormatter.FormatFixed` escapes backslashes as well. The contract of
`Format` states that the two write the same entry whenever no field holds a
backslash.

## Left out

- Reading PDFs is left out: text extraction with PyPDF2 or pdfplumber, the
  file-existence check and the `extracted_sample.txt` dump are I/O. `Extract`
  takes the extracted texts as parameters. The source text is an `Option`:
  `None` stands for a mapping PDF that is not configured or does not exist.
- Console output is left out. The "No answer found" warnings of the combine
  loop are returned as a list of ids.
- The tkinter screens, key bindings and timers are left out. A message box is
  modelled as the `Dialog` value that would be shown.
- `random.sample` is nondeterministic. `Select` returns which list is sampled
  and how many questions are drawn, not the sample itself.
- Score percentages and grades use floating point and are left out.
- archive/debug_pdf.py and archive/entrepreneurship_quiz.py are not part of
  this model.
- `\d` is modelled as the ASCII digits 0-9. Python also accepts the other
  Unicode decimal digits.
- `\w` and `[^\w]` are exact up to U+024F. Characters above U+024F are
  treated as non-word characters.
- `re.IGNORECASE` is modelled for the literals the patterns use, including
  Python's extra matches (U+017F for `s`, U+0130 and U+0131 for `i`).
- BatchFormatter.IntError: puts the field between single quotes in place of
  Python's `repr`, before the 200-character cut. The two differ only for a
  field holding a quote, a backslash or an unprintable character.
- BatchFormatter.Format: reads back only for fields without a backslash,
  because the source's escaping does not survive one (see Findings).
  `FormatFixed` has no such condition.
- BatchFormatter.EntriesReadBack: requires a text without a backslash, for
  the same reason.
- Numbers.PyInt: accepts the ASCII digits 0-9 only. Python's `int()` also
  accepts the other Unicode decimal digits.
- Numbers.PyInt: has no limit on the number of digits. Since Python 3.11,
  `int()` rejects a text of more than 4300 digits by default; the limit
  depends on the interpreter version and on `sys.set_int_max_str_digits`,
  which the source does not pin. The same holds for `int()` of a `\d+`
  group (`Scan.GroupValue`).
- Numbers.PyIntRoundTrip: holds for every integer, while Python 3.11 and
  later raise in `str(i)` for an integer of more than 4300 digits, for the
  same reason. The formatter never meets one: its ids come from `int()`.
- BatchFormatter.UpperAll: upper-cases ASCII letters only. A non-ASCII
  answer letter is rejected either way; only the wording of that error
  message can differ.
- Text.Upper: ASCII only, for the same reason.
- CodeLiteral.ReadLiteral: reads only the two escapes that escaped text can
  contain (`\\` and a backslash before the quote). It stands in for the Python
  or JavaScript parser, and it treats only `\n` as a line end inside a literal.
- A question marker needs whitespace before it, as the split pattern demands.
  So a sheet that starts with `1. ` without leading whitespace loses its first
  question. The comment at entrepreneurship_quiz_v2.py:83 says a marker may
  also stand at the start of the text. The model follows the code.
- Loose-scan answer records hold `explanation_turkish` and
  `explanation_english`, but the combine loop reads `explanation`. So an id
  answered only by the loose scan gets the "explanation not available"
  placeholders (`Aggregate.ExplanationOf`). The model keeps this behaviour as
  written.
- Turkish strings are modelled exactly as the source file spells them,
  including their mis-decoded characters.
