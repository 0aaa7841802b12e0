/**
  The simple-format converter of the archive helper
  (archive/question_helper.py lines 129-150): each line
  `ID|QUESTION|A|B|C|D|CORRECT|EXPLANATION` with exactly eight fields
  becomes a record holding the fields as written, unstripped. A line with
  another field count is ignored; an id that `int()` rejects raises
  `ValueError` out of the whole conversion.
 */
module QuestionHelper {
  import opened Text
  import opened Numbers

  /** One converted line; every text field is kept exactly as it appears between the pipes. */
  datatype SimpleQuestion = SimpleQuestion(
    id: int,
    question: string,
    a: string,
    b: string,
    c: string,
    d: string,
    correct: string,
    explanation: string)

  /** What one line does to the conversion. */
  datatype LineResult =
    | Skip
    | Ignore
    | Raise
    | Record(q: SimpleQuestion)

  /**
    Line 133: blank lines are skipped, and so are lines whose raw text starts
    with `#`; a comment indented by whitespace is not skipped.
   */
  predicate SkipLine(line: string) {
    Strip(line) == "" || (|line| > 0 && line[0] == '#')
  }

  /** `q` holds the eight pipe-separated fields `parts` as they are, the first read by `int()`. */
  predicate Carries(q: SimpleQuestion, parts: seq<string>) {
    && |parts| == 8
    && PyInt(parts[0]) == Some(q.id)
    && q.question == parts[1] && q.a == parts[2] && q.b == parts[3] && q.c == parts[4] && q.d == parts[5]
    && q.correct == parts[6] && q.explanation == parts[7]
  }

  /**
    Lines 133-149 for one line: skipped, ignored for a field count other
    than eight, raising for an id `int()` rejects, or a record.
   */
  function ReadLine(line: string): (r: LineResult)
    ensures r == Skip <==> SkipLine(line)
    ensures r == Ignore <==> !SkipLine(line) && |SplitOn(line, '|')| != 8
    ensures r == Raise <==> !SkipLine(line) && |SplitOn(line, '|')| == 8 && PyInt(SplitOn(line, '|')[0]).None?
    ensures r.Record? ==> Carries(r.q, SplitOn(line, '|'))
  {
    if SkipLine(line) then Skip
    else
      var parts := SplitOn(line, '|');
      if |parts| != 8 then Ignore
      else
        match PyInt(parts[0])
        case None => Raise
        case Some(id) => Record(SimpleQuestion(id, parts[1], parts[2], parts[3], parts[4], parts[5], parts[6], parts[7]))
  }

  /** The records of `lines` in order, or `None` once a line raises. */
  function Collect(lines: seq<string>): (r: Option<seq<SimpleQuestion>>)
    ensures r.Some? ==> |r.value| <= |lines|
  {
    if |lines| == 0 then Some([])
    else
      match ReadLine(lines[0])
      case Raise => None
      case Record(q) =>
        (match Collect(lines[1..])
         case None => None
         case Some(rest) => Some([q] + rest))
      case _ => Collect(lines[1..])
  }

  /** Some line of `lines` reads as the record `q`. */
  predicate ReadFrom(lines: seq<string>, q: SimpleQuestion) {
    exists k :: 0 <= k < |lines| && ReadLine(lines[k]) == Record(q)
  }

  lemma ReadFromShift(lines: seq<string>)
    requires |lines| > 0
    ensures forall q :: ReadFrom(lines[1..], q) ==> ReadFrom(lines, q)
    ensures forall q :: ReadLine(lines[0]) == Record(q) ==> ReadFrom(lines, q)
  {
    forall q | ReadFrom(lines[1..], q) ensures ReadFrom(lines, q) {
      var k :| 0 <= k < |lines| - 1 && ReadLine(lines[1..][k]) == Record(q);
      assert lines[k + 1] == lines[1..][k];
    }
  }
  /** Every record the conversion returns is the record some line reads as. */
  lemma {:induction false} CollectFrom(lines: seq<string>)
    ensures Collect(lines).Some? ==>
      forall j :: 0 <= j < |Collect(lines).value| ==> ReadFrom(lines, Collect(lines).value[j])
  {
    if |lines| > 0 {
      CollectFrom(lines[1..]);
      ReadFromShift(lines);
    }
  }


  /** `parse_simple_format(simple_text)`: the lines of the stripped text, converted. */
  function ParseSimpleFormat(text: string): (r: Option<seq<SimpleQuestion>>)
    ensures r.None? <==> SomeLineRaises(SplitOn(Strip(text), '\n'))
    ensures r.Some? ==> |r.value| <= |SplitOn(Strip(text), '\n')|
  {
    var lines := SplitOn(Strip(text), '\n');
    CollectRaises(lines);
    Collect(lines)
  }

  /** Some line makes `int()` raise, which aborts the whole conversion. */
  predicate SomeLineRaises(lines: seq<string>) {
    exists k :: 0 <= k < |lines| && ReadLine(lines[k]) == Raise
  }

  /** The conversion fails exactly when some line raises. */
  lemma {:induction false} CollectRaises(lines: seq<string>)
    ensures Collect(lines).None? <==> exists k :: 0 <= k < |lines| && ReadLine(lines[k]) == Raise
  {
    if |lines| > 0 {
      CollectRaises(lines[1..]);
      CollectStep(lines);
      RaiseShift(lines);
    }
  }

  lemma CollectStep(lines: seq<string>)
    requires |lines| > 0
    ensures Collect(lines).None? <==> ReadLine(lines[0]) == Raise || Collect(lines[1..]).None?
  {
  }

  lemma RaiseShift(lines: seq<string>)
    requires |lines| > 0
    ensures (exists k :: 0 <= k < |lines| && ReadLine(lines[k]) == Raise) <==>
      ReadLine(lines[0]) == Raise || exists k :: 0 <= k < |lines[1..]| && ReadLine(lines[1..][k]) == Raise
  {
    if exists k :: 0 <= k < |lines[1..]| && ReadLine(lines[1..][k]) == Raise {
      var k :| 0 <= k < |lines[1..]| && ReadLine(lines[1..][k]) == Raise;
      assert ReadLine(lines[k + 1]) == Raise;
    }
    if exists k :: 0 <= k < |lines| && ReadLine(lines[k]) == Raise {
      var k :| 0 <= k < |lines| && ReadLine(lines[k]) == Raise;
      if k > 0 {
        assert ReadLine(lines[1..][k - 1]) == Raise;
      }
    }
  }


  // ---------------------------------------------------------- rendering

  /** The eight fields of a record as the simple format writes them. */
  function FieldTexts(q: SimpleQuestion): (fs: seq<string>)
    ensures |fs| == 8
  {
    [IntToString(q.id), q.question, q.a, q.b, q.c, q.d, q.correct, q.explanation]
  }

  /** A record written back as a simple-format line. */
  function SimpleLine(q: SimpleQuestion): string {
    Join(FieldTexts(q), '|')
  }

  /** The lines of records written back, one per record. */
  function Lines(qs: seq<SimpleQuestion>): (ls: seq<string>)
    ensures |ls| == |qs|
  {
    if |qs| == 0 then [] else [SimpleLine(qs[0])] + Lines(qs[1..])
  }

  /** Records written back one per line. */
  function SimpleText(qs: seq<SimpleQuestion>): string {
    if |qs| == 0 then "" else Join(Lines(qs), '\n')
  }

  /** A record the simple format can carry: no field holds a pipe or a line break. */
  predicate Writable(q: SimpleQuestion) {
    forall k :: 1 <= k < 8 ==> '|' !in FieldTexts(q)[k] && '\n' !in FieldTexts(q)[k]
  }

  lemma {:induction false} JoinAbsent(parts: seq<string>, c: char, d: char)
    requires |parts| >= 1 && d != c
    requires forall k :: 0 <= k < |parts| ==> d !in parts[k]
    ensures d !in Join(parts, c)
  {
    if |parts| > 1 {
      JoinAbsent(parts[1..], c, d);
    }
  }

  lemma {:induction false} JoinLast(parts: seq<string>, c: char)
    requires |parts| >= 2
    ensures Join(parts, c) == Join(parts[..|parts| - 1], c) + [c] + parts[|parts| - 1]
  {
    if |parts| > 2 {
      JoinLast(parts[1..], c);
      assert parts[1..][..|parts| - 2] == parts[..|parts| - 1][1..];
    }
  }

  lemma JoinFirst(parts: seq<string>, c: char)
    requires |parts| >= 1
    ensures LiteralAt(Join(parts, c), 0, parts[0])
  {
    assert Join(parts, c)[..|parts[0]|] == parts[0];
  }

  /** `str()` of an integer: digits and a minus sign only. */
  lemma IdText(i: int)
    ensures forall j :: 0 <= j < |IntToString(i)| ==> IsDigit(IntToString(i)[j]) || IntToString(i)[j] == '-'
  {
    var s := IntToString(i);
    if i < 0 {
      assert forall j :: 1 <= j < |s| ==> s[j] == NatToString(-i)[j - 1];
    }
  }

  /** Every field of a writable record, the id included, is free of pipes and line breaks. */
  lemma FieldsClean(q: SimpleQuestion)
    requires Writable(q)
    ensures forall k :: 0 <= k < 8 ==> '|' !in FieldTexts(q)[k] && '\n' !in FieldTexts(q)[k]
  {
    IdText(q.id);
  }

  /** A written line starts with the id's first character and has a pipe after the id. */
  lemma LineShape(q: SimpleQuestion)
    ensures SimpleLine(q)[0] == IntToString(q.id)[0]
    ensures |SimpleLine(q)| > |IntToString(q.id)| && SimpleLine(q)[|IntToString(q.id)|] == '|'
  {
    var fs := FieldTexts(q);
    assert SimpleLine(q) == fs[0] + ['|'] + Join(fs[1..], '|');
  }

  /** A written line reads back as its record. */
  lemma LineRoundTrip(q: SimpleQuestion)
    requires Writable(q)
    ensures ReadLine(SimpleLine(q)) == Record(q)
  {
    var line := SimpleLine(q);
    FieldsClean(q);
    SplitJoin(FieldTexts(q), '|');
    IdText(q.id);
    LineShape(q);
    assert !AllSpace(line) by {
      assert !IsSpace(line[|IntToString(q.id)|]);
    }
    PyIntRoundTrip(q.id);
  }

  lemma {:induction false} CollectLines(qs: seq<SimpleQuestion>)
    requires forall k :: 0 <= k < |qs| ==> Writable(qs[k])
    ensures Collect(Lines(qs)) == Some(qs)
  {
    if |qs| > 0 {
      LineRoundTrip(qs[0]);
      LinesHead(qs);
      CollectLines(qs[1..]);
      CollectRecord(Lines(qs), qs[0], qs[1..]);
      assert [qs[0]] + qs[1..] == qs;
    }
  }

  lemma LinesHead(qs: seq<SimpleQuestion>)
    requires |qs| > 0
    ensures Lines(qs)[0] == SimpleLine(qs[0]) && Lines(qs)[1..] == Lines(qs[1..])
  {
  }

  /** A recorded first line heads the records read from the rest. */
  lemma CollectRecord(lines: seq<string>, q: SimpleQuestion, rest: seq<SimpleQuestion>)
    requires |lines| > 0 && ReadLine(lines[0]) == Record(q) && Collect(lines[1..]) == Some(rest)
    ensures Collect(lines) == Some([q] + rest)
  {
  }

  lemma {:induction false} LinesSingle(qs: seq<SimpleQuestion>)
    requires forall k :: 0 <= k < |qs| ==> Writable(qs[k])
    ensures forall k :: 0 <= k < |qs| ==> '\n' !in Lines(qs)[k]
  {
    if |qs| > 0 {
      FieldsClean(qs[0]);
      JoinAbsent(FieldTexts(qs[0]), '|', '\n');
      LinesSingle(qs[1..]);
      assert forall k :: 1 <= k < |qs| ==> Lines(qs)[k] == Lines(qs[1..])[k - 1];
    }
  }

  /** The last line written: the last record's. */
  lemma {:induction false} LinesLast(qs: seq<SimpleQuestion>)
    requires |qs| > 0
    ensures Lines(qs)[|qs| - 1] == SimpleLine(qs[|qs| - 1])
  {
    if |qs| > 1 {
      LinesLast(qs[1..]);
    }
  }

  /** The last record ends in a visible character or an empty explanation. */
  predicate EndsVisibly(qs: seq<SimpleQuestion>) {
    |qs| == 0 || var e := qs[|qs| - 1].explanation; e == "" || !IsSpace(e[|e| - 1])
  }

  /** Written records start with the first id's first character, a digit or a minus sign. */
  lemma TextStart(qs: seq<SimpleQuestion>)
    requires |qs| > 0
    ensures |SimpleText(qs)| > 0 && !IsSpace(SimpleText(qs)[0])
  {
    var ls := Lines(qs);
    JoinFirst(ls, '\n');
    LineShape(qs[0]);
    IdText(qs[0].id);
    assert SimpleText(qs)[0] == ls[0][0];
  }

  /** Written records end with the last record's explanation. */
  lemma TextEnd(qs: seq<SimpleQuestion>)
    requires |qs| > 0 && EndsVisibly(qs)
    ensures |SimpleText(qs)| > 0 && !IsSpace(SimpleText(qs)[|SimpleText(qs)| - 1])
  {
    var text := SimpleText(qs);
    var ls := Lines(qs);
    var last := qs[|qs| - 1];
    var line := SimpleLine(last);
    LinesLast(qs);
    JoinLast(FieldTexts(last), '|');
    assert !IsSpace(line[|line| - 1]);
    if |qs| >= 2 {
      JoinLast(ls, '\n');
    }
    assert text[|text| - 1] == line[|line| - 1];
  }

  /** Written records have no whitespace at either end of the text. */
  lemma TextStripped(qs: seq<SimpleQuestion>)
    requires EndsVisibly(qs)
    ensures Strip(SimpleText(qs)) == SimpleText(qs)
  {
    if |qs| > 0 {
      TextStart(qs);
      TextEnd(qs);
    }
    StripFixedIff(SimpleText(qs));
  }

  /**
    Writing records in the simple format and converting the text gives the
    records back, in order.
   */
  lemma SimpleRoundTrip(qs: seq<SimpleQuestion>)
    requires forall k :: 0 <= k < |qs| ==> Writable(qs[k])
    requires EndsVisibly(qs)
    ensures ParseSimpleFormat(SimpleText(qs)) == Some(qs)
  {
    TextStripped(qs);
    if |qs| > 0 {
      LinesSingle(qs);
      SplitJoin(Lines(qs), '\n');
      CollectLines(qs);
    } else {
      assert SplitOn("", '\n') == [""];
      assert ReadLine("") == Skip;
    }
  }
}
