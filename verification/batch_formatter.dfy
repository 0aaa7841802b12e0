/**
  The batch formatter of the archive (archive/batch_formatter.py): lines in
  the simple format `ID|QUESTION|A|B|C|D|CORRECT|EXPLANATION` become
  Python dictionary entries or JavaScript object entries, and every line
  that cannot be converted becomes an error message naming its line number.
 */
module BatchFormatter {
  import opened Text
  import opened Numbers
  import opened CodeLiteral

  /** Which template an entry is written in. */
  datatype Target = Python | JavaScript

  /** Line 103: `'python'` selects the Python template; any other format selects JavaScript. */
  function TargetOf(outputFormat: string): (t: Target)
    ensures t == Python <==> outputFormat == "python"
  {
    if outputFormat == "python" then Python else JavaScript
  }

  /** The quote the template puts around text fields. */
  function QuoteOf(t: Target): char {
    match t
    case Python => '"'
    case JavaScript => '\''
  }

  /** The values of one converted line. */
  datatype Fields = Fields(
    id: int,
    question: string,
    a: string,
    b: string,
    c: string,
    d: string,
    correct: char,
    explanation: string)

  /**
    The template of lines 38-49 (Python) or 61-72 (JavaScript) as fixed
    text and slots, filled with `f`. A text slot renders with the quote that
    closes it; the quote that opens it ends the fixed text before it.
   */
  function Pieces(t: Target, f: Fields): (ps: seq<Piece>)
    ensures |ps| == 17
  {
    match t
    case Python => PythonPieces(f)
    case JavaScript => JavaScriptPieces(f)
  }

  /** The comma and line break that end a field's line in both templates. */
  const FieldEnd: string := ",\n"

  function PythonPieces(f: Fields): (ps: seq<Piece>)
    ensures |ps| == 17
  {
      [ Lit("    {\n        \"id\": "), Int(f.id),
        Lit(FieldEnd + "        \"question\": \""), Str(f.question),
        Lit(FieldEnd + "        \"options\": {\n            \"A\": \""), Str(f.a),
        Lit(FieldEnd + "            \"B\": \""), Str(f.b),
        Lit(FieldEnd + "            \"C\": \""), Str(f.c),
        Lit(FieldEnd + "            \"D\": \""), Str(f.d),
        Lit("\n        },\n        \"correct\": \""), Chr(f.correct),
        Lit("\",\n        \"explanation\": \""), Str(f.explanation),
        Lit("\n    },") ]
  }

  function JavaScriptPieces(f: Fields): (ps: seq<Piece>)
    ensures |ps| == 17
  {
      [ Lit("            {\n                id: "), Int(f.id),
        Lit(FieldEnd + "                question: '"), Str(f.question),
        Lit(FieldEnd + "                options: {\n                    A: '"), Str(f.a),
        Lit(FieldEnd + "                    B: '"), Str(f.b),
        Lit(FieldEnd + "                    C: '"), Str(f.c),
        Lit(FieldEnd + "                    D: '"), Str(f.d),
        Lit("\n                },\n                correct: '"), Chr(f.correct),
        Lit("',\n                explanation: '"), Str(f.explanation),
        Lit("\n            },") ]
  }

  /**
    The code entry for one question as lines 28-72 write it: each text is
    put between quotes with only its quotes escaped.
   */
  function Format(t: Target, f: Fields): (r: string)
    ensures SingleLine(f) && NoBackslash(f) ==> ReadEntry(t, r) == Some(f)
    ensures NoBackslash(f) ==> r == FormatFixed(t, f)
  {
    var r := Render(Pieces(t, f), QuoteOf(t), QuotesOnly);
    assert SingleLine(f) && NoBackslash(f) ==> ReadEntry(t, r) == Some(f) by {
      if SingleLine(f) && NoBackslash(f) {
        ReadsBack(t, f, QuotesOnly);
      }
    }
    assert NoBackslash(f) ==> r == FormatFixed(t, f) by {
      if NoBackslash(f) {
        SlotsNoBackslash(t, f);
        RenderAgrees(Pieces(t, f), QuoteOf(t));
      }
    }
    r
  }

  /** The entry with backslashes escaped as well as quotes. */
  function FormatFixed(t: Target, f: Fields): (r: string)
    ensures SingleLine(f) ==> ReadEntry(t, r) == Some(f)
  {
    var r := Render(Pieces(t, f), QuoteOf(t), Full);
    assert SingleLine(f) ==> ReadEntry(t, r) == Some(f) by {
      if SingleLine(f) {
        ReadsBack(t, f, Full);
      }
    }
    r
  }

  /** Without a backslash in the fields, no text slot of the template holds one. */
  lemma SlotsNoBackslash(t: Target, f: Fields)
    requires NoBackslash(f)
    ensures forall k :: 0 <= k < |Pieces(t, f)| && Pieces(t, f)[k].Str? ==> '\\' !in Pieces(t, f)[k].s
  {
    var ps := Pieces(t, f);
    forall k | 0 <= k < |ps| && ps[k].Str? ensures '\\' !in ps[k].s {
      assert k in {3, 5, 7, 9, 11, 15};
    }
  }

  /** The fields of a template filled in by `Parse`. */
  function FieldsOf(ps: seq<Piece>): Option<Fields> {
    if |ps| == 17 && ps[1].Int? && ps[3].Str? && ps[5].Str? && ps[7].Str? && ps[9].Str? && ps[11].Str?
       && ps[13].Chr? && ps[15].Str?
    then Some(Fields(ps[1].value, ps[3].s, ps[5].s, ps[7].s, ps[9].s, ps[11].s, ps[13].c, ps[15].s))
    else None
  }

  /** Reads a generated entry back into its fields. */
  function ReadEntry(t: Target, code: string): Option<Fields> {
    match Parse(Pieces(t, Blank), code, QuoteOf(t))
    case None => None
    case Some(ps) => FieldsOf(ps)
  }

  /** None of the text fields holds a line break. */
  predicate SingleLine(f: Fields) {
    '\n' !in f.question && '\n' !in f.a && '\n' !in f.b && '\n' !in f.c && '\n' !in f.d
    && '\n' !in f.explanation
  }

  /** None of the text fields holds a backslash. */
  predicate NoBackslash(f: Fields) {
    '\\' !in f.question && '\\' !in f.a && '\\' !in f.b && '\\' !in f.c && '\\' !in f.d
    && '\\' !in f.explanation
  }

  /** The template placeholder `ReadEntry` reads against; only its shape matters. */
  const Blank: Fields := Fields(0, "", "", "", "", "", ' ', "")

  lemma PythonReadable(f: Fields, e: Escaping)
    requires SingleLine(f) && (e == QuotesOnly ==> NoBackslash(f))
    ensures Readable(PythonPieces(f), '"', e)
  {
    var ps := PythonPieces(f);
    forall k | 0 <= k < |ps| && ps[k].Str? ensures SafeText(ps[k].s, e) {
      assert k in {3, 5, 7, 9, 11, 15};
    }
    forall k | 0 <= k < |ps| && ps[k].Int? ensures
      k + 1 < |ps| && ps[k + 1].Lit? && |ps[k + 1].text| > 0 && !NumberChar(ps[k + 1].text[0])
    {
      assert k == 1;
      assert ps[2].text[0] == ',';
    }
  }

  lemma JavaScriptReadable(f: Fields, e: Escaping)
    requires SingleLine(f) && (e == QuotesOnly ==> NoBackslash(f))
    ensures Readable(JavaScriptPieces(f), '\'', e)
  {
    var ps := JavaScriptPieces(f);
    forall k | 0 <= k < |ps| && ps[k].Str? ensures SafeText(ps[k].s, e) {
      assert k in {3, 5, 7, 9, 11, 15};
    }
    forall k | 0 <= k < |ps| && ps[k].Int? ensures
      k + 1 < |ps| && ps[k + 1].Lit? && |ps[k + 1].text| > 0 && !NumberChar(ps[k + 1].text[0])
    {
      assert k == 1;
      assert ps[2].text[0] == ',';
    }
  }

  lemma PiecesSameShape(t: Target, f: Fields, g: Fields)
    ensures forall k :: 0 <= k < 17 ==> SameShape(Pieces(t, g)[k], Pieces(t, f)[k])
  {
  }

  lemma FieldsOfPieces(t: Target, f: Fields)
    ensures FieldsOf(Pieces(t, f)) == Some(f)
  {
  }

  /** A template filled with `f` reads back as `f` when its escaping can carry every field. */
  lemma ReadsBack(t: Target, f: Fields, e: Escaping)
    requires SingleLine(f) && (e == QuotesOnly ==> NoBackslash(f))
    ensures ReadEntry(t, Render(Pieces(t, f), QuoteOf(t), e)) == Some(f)
  {
    if t == Python {
      PythonReadable(f, e);
    } else {
      JavaScriptReadable(f, e);
    }
    PiecesSameShape(t, f, Blank);
    RoundTrip(Pieces(t, Blank), Pieces(t, f), QuoteOf(t), e);
    FieldsOfPieces(t, f);
  }

  /**
    An entry whose question ends in a single backslash does not read back
    at all: the backslash escapes the quote that should close the question,
    and the literal is still open at the line break that follows.
   */
  lemma UnterminatedEntry(t: Target, f: Fields)
    requires |f.question| > 0 && f.question[|f.question| - 1] == '\\'
    requires '\\' !in f.question[..|f.question| - 1] && '\n' !in f.question
    ensures ReadEntry(t, Format(t, f)) == None
  {
    var u := f.question[..|f.question| - 1];
    assert f.question == u + ['\\'];
    if t == Python {
      PythonQuestionLine(f);
    } else {
      JavaScriptQuestionLine(f);
    }
    PiecesSameShape(t, f, Blank);
    UnreadQuestion(Pieces(t, Blank), Pieces(t, f), QuoteOf(t), u);
  }

  /**
    How both templates open: fixed text, the id, fixed text starting with a
    comma, the question slot, and fixed text starting with the end of the
    question's line.
   */
  predicate QuestionLine(ps: seq<Piece>, question: string) {
    && |ps| == 17
    && ps[0].Lit? && ps[1].Int?
    && ps[2].Lit? && |ps[2].text| > 0 && ps[2].text[0] == ','
    && ps[3] == Str(question)
    && ps[4].Lit? && |ps[4].text| >= 2 && ps[4].text[..2] == FieldEnd
  }

  lemma PythonQuestionLine(f: Fields)
    ensures QuestionLine(PythonPieces(f), f.question)
  {
  }

  lemma JavaScriptQuestionLine(f: Fields)
    ensures QuestionLine(JavaScriptPieces(f), f.question)
  {
  }

  /** A question line whose question ends in a single backslash is not read back. */
  lemma UnreadQuestion(shapes: seq<Piece>, ps: seq<Piece>, q: char, u: string)
    requires QuestionLine(ps, u + ['\\']) && |shapes| == 17
    requires forall k :: 0 <= k < 17 ==> SameShape(shapes[k], ps[k])
    requires (q == '"' || q == '\'') && '\\' !in u && '\n' !in u
    ensures Parse(shapes, Render(ps, q, QuotesOnly), q) == None
  {
    var rest := Render(ps[4..], q, QuotesOnly);
    QuestionLineReadable(ps, q, u + ['\\']);
    QuestionSlotText(ps, q, u + ['\\']);
    LineEndAfterQuestion(ps, q, u + ['\\']);
    OpenQuestion(q, u, rest);
    UnreadSlot(shapes, ps, q, QuotesOnly, 3);
  }

  lemma QuestionLineReadable(ps: seq<Piece>, q: char, question: string)
    requires QuestionLine(ps, question) && QuoteChar(q)
    ensures ReadableUpTo(ps, q, QuotesOnly, 3)
  {
  }

  lemma QuestionSlotText(ps: seq<Piece>, q: char, question: string)
    requires QuestionLine(ps, question)
    ensures Render(ps[3..], q, QuotesOnly) == EscapeQuotes(question, q) + [q] + Render(ps[4..], q, QuotesOnly)
  {
    RenderFrom(ps, q, QuotesOnly, 3);
  }

  lemma LineEndAfterQuestion(ps: seq<Piece>, q: char, question: string)
    requires QuestionLine(ps, question)
    ensures var rest := Render(ps[4..], q, QuotesOnly); |rest| >= 2 && rest[0] == ',' && rest[1] == '\n'
  {
    RenderFrom(ps, q, QuotesOnly, 4);
    var rest := Render(ps[4..], q, QuotesOnly);
    assert rest[..2] == FieldEnd by {
      assert rest == ps[4].text + Render(ps[5..], q, QuotesOnly);
    }
  }

  /** The question's literal, its closing quote escaped, runs into the line break after it. */
  lemma OpenQuestion(q: char, u: string, rest: string)
    requires (q == '"' || q == '\'') && '\\' !in u && '\n' !in u
    requires |rest| >= 2 && rest[0] == ',' && rest[1] == '\n'
    ensures ReadLiteral(EscapeQuotes(u + ['\\'], q) + [q] + rest, q) == None
  {
    TrailingBackslash(u, q, rest);
    OpenAtLineBreak(rest, q);
  }

  // ------------------------------------------------------------- lines

  /** What one input line contributes. */
  datatype Outcome =
    | Skipped
    | Entry(fields: Fields, code: string)
    | Error(message: string)

  /** Python's `str.upper()` on ASCII letters. */
  function UpperAll(s: string): (r: string)
    ensures |r| == |s|
    ensures forall i :: 0 <= i < |s| ==> r[i] == Upper(s[i])
  {
    seq(|s|, i requires 0 <= i < |s| => Upper(s[i]))
  }

  /** Line 99: the answer is one of `"A"`, `"B"`, `"C"`, `"D"`. */
  predicate ValidCorrect(s: string) {
    |s| == 1 && 'A' <= s[0] <= 'D'
  }

  /** Line 81: a line that is blank or a comment once stripped. */
  predicate Skippable(line: string) {
    Strip(line) == "" || Strip(line)[0] == '#'
  }

  /** The head of the `ValueError` text that `int()` raises. */
  const IntErrorHead := "invalid literal for int() with base 10: "

  /** `%.200R` keeps at most this many characters of the quoted text. */
  const ReprLimit := 200

  /**
    The `ValueError` text of `int()` on the stripped id field: the field
    between single quotes, cut after 200 characters, which drops the
    closing quote of a long field.
   */
  function IntError(text: string): (m: string)
    ensures |m| == |IntErrorHead| + Min(|text| + 2, ReprLimit)
    ensures |text| + 2 <= ReprLimit ==> m == IntErrorHead + "'" + text + "'"
    ensures |text| + 2 > ReprLimit ==> m == IntErrorHead + "'" + text[..ReprLimit - 1]
  {
    var quoted := "'" + text + "'";
    assert |text| + 2 > ReprLimit ==> quoted[..ReprLimit] == "'" + text[..ReprLimit - 1];
    IntErrorHead + Take(quoted, ReprLimit)
  }

  /** Line 111: the message for an id field that is not an integer. */
  function ParseError(text: string): string {
    "Error parsing - " + IntError(text)
  }

  /** Line 100: the message for an answer that is not one of A-D. */
  function AnswerError(answer: string): string {
    "Invalid correct answer '" + answer + "' (must be A, B, C, or D)"
  }

  /** The head of every error message about line `n`. */
  function LinePrefix(n: nat): string {
    "Line " + NatToString(n) + ": "
  }

  /** An error about line `n`. */
  function LineError(n: nat, detail: string): (o: Outcome)
    ensures o.Error? && LiteralAt(o.message, 0, LinePrefix(n))
    ensures o.message == LinePrefix(n) + detail
  {
    var m := LinePrefix(n) + detail;
    assert m[..|LinePrefix(n)|] == LinePrefix(n);
    Error(m)
  }

  /**
    `f` is what lines 90-97 make of the eight fields `parts`: the stripped
    id read by `int()`, the stripped texts, and the stripped, upper-cased
    answer letter.
   */
  predicate Converts(parts: seq<string>, f: Fields)
    requires |parts| == 8
  {
    && Some(f.id) == PyInt(Strip(parts[0]))
    && f.question == Strip(parts[1])
    && f.a == Strip(parts[2]) && f.b == Strip(parts[3]) && f.c == Strip(parts[4]) && f.d == Strip(parts[5])
    && [f.correct] == UpperAll(Strip(parts[6])) && 'A' <= f.correct <= 'D'
    && f.explanation == Strip(parts[7])
  }

  /**
    Lines 89-112 for a line with eight fields: an error when the id is not
    an integer or the stripped, upper-cased answer is not one of A-D;
    otherwise the entry built from the stripped fields.
   */
  function FieldsOutcome(n: nat, parts: seq<string>, t: Target): (o: Outcome)
    requires |parts| == 8
    ensures !o.Skipped?
    ensures o.Entry? <==> PyInt(Strip(parts[0])).Some? && ValidCorrect(UpperAll(Strip(parts[6])))
    ensures o.Entry? ==> Converts(parts, o.fields) && o.code == Format(t, o.fields)
    ensures PyInt(Strip(parts[0])).None? ==> o == LineError(n, ParseError(Strip(parts[0])))
    ensures PyInt(Strip(parts[0])).Some? && !ValidCorrect(UpperAll(Strip(parts[6]))) ==>
      o == LineError(n, AnswerError(UpperAll(Strip(parts[6]))))
  {
    match PyInt(Strip(parts[0]))
    case None => LineError(n, ParseError(Strip(parts[0])))
    case Some(id) => IdOutcome(n, id, parts, t)
  }

  /** Lines 96-108, once the id field has converted to `id`. */
  function IdOutcome(n: nat, id: int, parts: seq<string>, t: Target): (o: Outcome)
    requires |parts| == 8 && PyInt(Strip(parts[0])) == Some(id)
    ensures o.Entry? <==> ValidCorrect(UpperAll(Strip(parts[6])))
    ensures o.Entry? ==> Converts(parts, o.fields) && o.code == Format(t, o.fields)
    ensures !o.Entry? ==> o == LineError(n, AnswerError(UpperAll(Strip(parts[6]))))
  {
    var correct := UpperAll(Strip(parts[6]));
    if !ValidCorrect(correct) then
      LineError(n, AnswerError(correct))
    else
      var f := FieldsFrom(id, parts);
      Entry(f, Format(t, f))
  }

  /** Lines 91-97: the stripped fields of a line whose id and answer are valid. */
  function FieldsFrom(id: int, parts: seq<string>): (f: Fields)
    requires |parts| == 8 && PyInt(Strip(parts[0])) == Some(id)
    requires ValidCorrect(UpperAll(Strip(parts[6])))
    ensures Converts(parts, f)
  {
    var correct := UpperAll(Strip(parts[6]));
    assert correct == [correct[0]];
    Fields(id, Strip(parts[1]), Strip(parts[2]), Strip(parts[3]), Strip(parts[4]),
           Strip(parts[5]), correct[0], Strip(parts[7]))
  }

  /**
    Lines 80-87 for the line numbered `n` (from 1): skipped when blank or a
    comment once stripped, an error when its pipe-split does not give
    eight fields, and otherwise the outcome of its eight fields.
   */
  function LineOutcome(n: nat, line: string, t: Target): (o: Outcome)
    ensures o.Skipped? <==> Skippable(line)
    ensures !Skippable(line) && |SplitOn(Strip(line), '|')| != 8 ==>
      o == LineError(n, "Expected 8 parts, got " + NatToString(|SplitOn(Strip(line), '|')|))
    ensures !Skippable(line) && |SplitOn(Strip(line), '|')| == 8 ==>
      o == FieldsOutcome(n, SplitOn(Strip(line), '|'), t)
    ensures o.Error? ==> LiteralAt(o.message, 0, LinePrefix(n))
  {
    var l := Strip(line);
    if l == "" || l[0] == '#' then Skipped
    else
      var parts := SplitOn(l, '|');
      if |parts| != 8 then LineError(n, "Expected 8 parts, got " + NatToString(|parts|))
      else FieldsOutcome(n, parts, t)
  }

  /** An entry's fields hold no line break when its line holds none. */
  lemma EntrySingleLine(n: nat, line: string, t: Target)
    requires '\n' !in line
    requires LineOutcome(n, line, t).Entry?
    ensures SingleLine(LineOutcome(n, line, t).fields)
  {
    var parts := SplitOn(Strip(line), '|');
    StripAbsent(line, '\n');
    SplitOnAbsent(Strip(line), '|', '\n');
    forall k | 0 <= k < 8 ensures '\n' !in Strip(parts[k]) {
      StripAbsent(parts[k], '\n');
    }
  }

  // -------------------------------------------------------- whole text

  /** Line 79: the lines of the stripped text. */
  function Lines(text: string): (ls: seq<string>)
    ensures forall k :: 0 <= k < |ls| ==> '\n' !in ls[k]
  {
    SplitOn(Strip(text), '\n')
  }

  /** The outcome of every line, numbered from 1 as `enumerate(..., 1)` numbers them. */
  function Outcomes(text: string, t: Target): (os: seq<Outcome>)
    ensures |os| == |Lines(text)|
    ensures forall k :: 0 <= k < |os| ==> os[k] == LineOutcome(k + 1, Lines(text)[k], t)
  {
    NumberedOutcomes(Lines(text), t)
  }

  function NumberedOutcomes(ls: seq<string>, t: Target): (os: seq<Outcome>)
    ensures |os| == |ls|
    ensures forall k :: 0 <= k < |os| ==> os[k] == LineOutcome(k + 1, ls[k], t)
  {
    seq(|ls|, k requires 0 <= k < |ls| => LineOutcome(k + 1, ls[k], t))
  }

  /** The entries' code, in line order. */
  function Codes(os: seq<Outcome>): seq<string> {
    if |os| == 0 then []
    else Codes(os[..|os| - 1]) + (if os[|os| - 1].Entry? then [os[|os| - 1].code] else [])
  }

  /** The error messages, in line order. */
  function Messages(os: seq<Outcome>): seq<string> {
    if |os| == 0 then []
    else Messages(os[..|os| - 1]) + (if os[|os| - 1].Error? then [os[|os| - 1].message] else [])
  }

  /** How many lines were not skipped. */
  function Kept(os: seq<Outcome>): nat {
    if |os| == 0 then 0
    else Kept(os[..|os| - 1]) + (if os[|os| - 1].Skipped? then 0 else 1)
  }

  /** Every line that is not skipped yields exactly one entry or one error. */
  lemma {:induction false} EveryLineAccounted(os: seq<Outcome>)
    ensures |Codes(os)| + |Messages(os)| == Kept(os)
  {
    if |os| > 0 {
      EveryLineAccounted(os[..|os| - 1]);
    }
  }

  lemma ListsStep(os: seq<Outcome>, i: nat)
    requires i < |os|
    ensures Codes(os[..i + 1]) == Codes(os[..i]) + (if os[i].Entry? then [os[i].code] else [])
    ensures Messages(os[..i + 1]) == Messages(os[..i]) + (if os[i].Error? then [os[i].message] else [])
  {
    assert os[..i + 1][..i] == os[..i];
  }

  /**
    `parse_and_format_questions` (lines 74-114): the entries and the error
    messages of all lines, each list in line order.
   */
  method FormatQuestions(simpleText: string, outputFormat: string) returns (questions: seq<string>, errors: seq<string>)
    ensures questions == Codes(Outcomes(simpleText, TargetOf(outputFormat)))
    ensures errors == Messages(Outcomes(simpleText, TargetOf(outputFormat)))
    ensures |questions| + |errors| == Kept(Outcomes(simpleText, TargetOf(outputFormat)))
  {
    var t := TargetOf(outputFormat);
    var lines := Lines(simpleText);
    ghost var os := Outcomes(simpleText, t);
    questions, errors := [], [];
    var i := 0;
    while i < |lines|
      invariant 0 <= i <= |lines|
      invariant questions == Codes(os[..i]) && errors == Messages(os[..i])
    {
      var o := LineOutcome(i + 1, lines[i], t);
      assert o == os[i];
      ListsStep(os, i);
      match o {
        case Skipped =>
        case Entry(_, code) =>
          questions := questions + [code];
        case Error(message) =>
          errors := errors + [message];
      }
      i := i + 1;
    }
    assert os[..i] == os;
    EveryLineAccounted(os);
  }

  /** An entry's fields hold no backslash when its line holds none. */
  lemma EntryNoBackslash(n: nat, line: string, t: Target)
    requires '\\' !in line
    requires LineOutcome(n, line, t).Entry?
    ensures NoBackslash(LineOutcome(n, line, t).fields)
  {
    var parts := SplitOn(Strip(line), '|');
    StripAbsent(line, '\\');
    SplitOnAbsent(Strip(line), '|', '\\');
    forall k | 0 <= k < 8 ensures '\\' !in Strip(parts[k]) {
      StripAbsent(parts[k], '\\');
    }
  }

  /** Every entry the formatter emits from a text without backslashes reads back as the fields of its line. */
  lemma EntriesReadBack(text: string, t: Target, k: nat)
    requires '\\' !in text
    requires k < |Outcomes(text, t)| && Outcomes(text, t)[k].Entry?
    ensures ReadEntry(t, Outcomes(text, t)[k].code) == Some(Outcomes(text, t)[k].fields)
  {
    var line := Lines(text)[k];
    EntrySingleLine(k + 1, line, t);
    StripAbsent(text, '\\');
    SplitOnAbsent(Strip(text), '\n', '\\');
    EntryNoBackslash(k + 1, line, t);
  }
}
