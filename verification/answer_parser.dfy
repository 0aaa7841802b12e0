/**
  The answer-key parser (`parse_answers`, entrepreneurship_quiz_v2.py lines
  126-189): the normalised key is scanned for table rows `| N. | L | text`,
  the last row for an id deciding its record; when fewer than ten ids were
  found that way, a loose scan for `N ... L` adds records for the ids still
  missing, each with an explanation taken from the text that follows.
 */
module AnswerParser {
  import opened Text
  import opened Numbers
  import opened Normalise
  import opened Scan
  import opened Keyed

  /**
    One value of the answer map. A table row stores `correct` and
    `explanation`; a loose match stores `correct`, `explanation_turkish` and
    `explanation_english` instead.
   */
  datatype AnswerRecord =
    | Tabled(correct: char, explanation: string)
    | Loose(correct: char, turkish: string, english: string)

  /** Explanations shorter than this are padded or replaced. */
  const MinExplanation: nat := 15

  /** How far a loose explanation reaches when the next number is not found, and its cap. */
  const LooseWindow: nat := 500

  /** Fewer table ids than this switch the loose scan on. */
  const TableQuorum: nat := 10

  predicate IsAnswerLetter(c: char) {
    'A' <= c <= 'D'
  }

  // ------------------------------------------------------------ table rows

  /** The third group of a table row stripped, its `*`s deleted and its whitespace collapsed. */
  function CleanTableText(raw: string): (e: string)
    ensures IsCollapsed(e) && '*' !in e
    ensures Squeeze(e) == RemoveAll(Squeeze(raw), '*')
  {
    var e := Collapse(RemoveAll(Strip(raw), '*'));
    CollapseNormalises(RemoveAll(Strip(raw), '*'));
    SqueezeHas(e, '*');
    SqueezeHas(RemoveAll(Strip(raw), '*'), '*');
    SqueezeRemove(Strip(raw), '*');
    StripKeepsContent(raw);
    e
  }

  /** The prefix a short table explanation gets. */
  function CorrectPrefix(letter: char): string {
    "Correct answer: " + [letter] + ". "
  }

  /**
    A table row's explanation: the cleaned text, with `Correct answer: L. `
    put in front when it is shorter than 15 characters.
   */
  function TableExplanation(letter: char, raw: string): (e: string)
    requires IsAnswerLetter(letter)
    ensures |e| >= MinExplanation && '*' !in e
    ensures e == CleanTableText(raw) <==> |CleanTableText(raw)| >= MinExplanation
  {
    var clean := CleanTableText(raw);
    if |clean| < MinExplanation then
      PrefixFacts(letter);
      var e := CorrectPrefix(letter) + clean;
      assert '*' !in e by {
        assert forall x :: x in e ==> x in CorrectPrefix(letter) || x in clean;
      }
      e
    else clean
  }

  lemma PrefixFacts(letter: char)
    requires IsAnswerLetter(letter)
    ensures |CorrectPrefix(letter)| == 19 && '*' !in CorrectPrefix(letter)
  {
  }

  /**
    A table explanation keeps exactly the row text's visible characters
    other than `*`, in order, after the prefix when there is one.
   */
  lemma TableExplanationContent(letter: char, raw: string)
    requires IsAnswerLetter(letter)
    ensures var e := TableExplanation(letter, raw);
      Squeeze(e) == (if e == CleanTableText(raw) then "" else Squeeze(CorrectPrefix(letter)))
                    + RemoveAll(Squeeze(raw), '*')
  {
    SqueezeAppend(CorrectPrefix(letter), CleanTableText(raw));
  }

  /** The entry a table match contributes: its id and its record. */
  function RowEntry(t: string, m: Match): (e: (nat, AnswerRecord))
    requires Framed(m, t, m.start, 3) && AnswerRowShape(t, m)
    ensures e.0 == GroupValue(t, m.groups[0])
    ensures e.1.Tabled? && IsAnswerLetter(e.1.correct) && e.1.correct == t[m.groups[1].lo]
    ensures e.1.explanation == TableExplanation(e.1.correct, Slice(t, m.groups[2]))
    ensures |e.1.explanation| >= MinExplanation && '*' !in e.1.explanation
  {
    var letter := t[m.groups[1].lo];
    (GroupValue(t, m.groups[0]), Tabled(letter, TableExplanation(letter, Slice(t, m.groups[2]))))
  }

  /** The entries of every table row, in text order (lines 136-153). */
  function TableEntries(t: string): (es: seq<(nat, AnswerRecord)>)
    ensures |es| == |FindAll(AnswerRow, t, 0)|
    ensures forall k :: 0 <= k < |es| ==> GoodRecord(es[k].1) && es[k].1.Tabled?
  {
    var ms := FindAll(AnswerRow, t, 0);
    FindAllShapes(AnswerRow, t, 0);
    seq(|ms|, k requires 0 <= k < |ms| => RowEntry(t, ms[k]))
  }

  /** Each table entry is the one its row gives. */
  lemma TableEntryIs(t: string, k: nat)
    requires k < |FindAll(AnswerRow, t, 0)|
    ensures var m := FindAll(AnswerRow, t, 0)[k];
      && Framed(m, t, m.start, 3) && AnswerRowShape(t, m)
      && TableEntries(t)[k] == RowEntry(t, m)
  {
    FindAllShapes(AnswerRow, t, 0);
  }

  // ----------------------------------------------------------- loose scan

  /**
    Where a loose explanation ends (lines 167-170): the first occurrence of
    `str(q + 1)` at or after `start`, else 500 characters on, cut at the end
    of the text as a slice is.
   */
  function WindowEnd(t: string, q: nat, start: nat): (e: nat)
    requires start <= |t|
    ensures start <= e <= |t|
    ensures forall i :: start <= i < e ==> !LiteralAt(t, i, NextNumber(q))
    ensures LiteralAt(t, e, NextNumber(q))
         || (e == Min(start + LooseWindow, |t|)
             && forall i :: start <= i <= |t| ==> !LiteralAt(t, i, NextNumber(q)))
  {
    match IndexOf(t, NextNumber(q), start)
    case Some(p) => p
    case None => Min(start + LooseWindow, |t|)
  }

  /** `str(q_num + 1)`, the text a loose explanation stops at. */
  function NextNumber(q: nat): string {
    NatToString(q + 1)
  }

  /** The window stripped, its `|`s and `*`s deleted, its whitespace collapsed. */
  function CleanLooseText(raw: string): (e: string)
    ensures IsCollapsed(e) && '*' !in e && '|' !in e
    ensures Squeeze(e) == RemoveAll(RemoveAll(Squeeze(raw), '|'), '*')
  {
    var bars := RemoveAll(Strip(raw), '|');
    var e := Collapse(RemoveAll(bars, '*'));
    CollapseNormalises(RemoveAll(bars, '*'));
    SqueezeHas(e, '*');
    SqueezeHas(e, '|');
    SqueezeHas(RemoveAll(bars, '*'), '*');
    SqueezeHas(RemoveAll(bars, '*'), '|');
    SqueezeRemove(bars, '*');
    SqueezeRemove(Strip(raw), '|');
    StripKeepsContent(raw);
    e
  }

  /** The Turkish sentence a short loose explanation is replaced by, as the source spells it. */
  function TurkishDefault(letter: char): string {
    "Do\U{192}\U{FC}ru cevap " + [letter]
      + ". Giri\U{2248}\U{FC}imcilik ilkelerine dayanmaktad\U{192}\U{B1}r."
  }

  /** The English sentence a short loose explanation is replaced by. */
  function EnglishDefault(letter: char): string {
    "The correct answer is " + [letter] + " based on entrepreneurship principles."
  }

  /**
    The record of a loose match of `letter` whose explanation window is
    `raw` (lines 172-186): both languages get the same cleaned text, or the
    two fixed sentences when it is shorter than 15 characters, each cut to
    500 characters.
   */
  function LooseRecord(letter: char, raw: string): (r: AnswerRecord)
    ensures r.Loose? && r.correct == letter
    ensures |r.turkish| <= LooseWindow && |r.english| <= LooseWindow
    ensures |CleanLooseText(raw)| < MinExplanation ==>
      r.turkish == TurkishDefault(letter) && r.english == EnglishDefault(letter)
    ensures |CleanLooseText(raw)| >= MinExplanation ==>
      && r.turkish == r.english
      && |r.turkish| == Min(|CleanLooseText(raw)|, LooseWindow)
      && r.turkish == CleanLooseText(raw)[..|r.turkish|]
  {
    var clean := CleanLooseText(raw);
    var turkish, english :=
      if |clean| < MinExplanation then TurkishDefault(letter) else clean,
      if |clean| < MinExplanation then EnglishDefault(letter) else clean;
    Loose(letter, Take(turkish, LooseWindow), Take(english, LooseWindow))
  }

  /** The entry a loose match contributes (lines 160-186). */
  function LooseEntry(t: string, m: Match): (e: (nat, AnswerRecord))
    requires Framed(m, t, m.start, 2) && LooseShape(t, m)
    ensures e.0 == GroupValue(t, m.groups[0])
    ensures IsAnswerLetter(e.1.correct) && e.1.correct == t[m.groups[1].lo]
    ensures e.1 == LooseRecord(e.1.correct, t[m.end..WindowEnd(t, e.0, m.end)])
    ensures GoodRecord(e.1) && e.1.Loose?
  {
    var q := GroupValue(t, m.groups[0]);
    var letter := t[m.groups[1].lo];
    (q, LooseRecord(letter, t[m.end..WindowEnd(t, q, m.end)]))
  }

  /** The entries of every loose match, in text order. */
  function LooseEntries(t: string): (es: seq<(nat, AnswerRecord)>)
    ensures |es| == |FindAll(LooseAnswer, t, 0)|
    ensures forall k :: 0 <= k < |es| ==> GoodRecord(es[k].1) && es[k].1.Loose?
  {
    var ms := FindAll(LooseAnswer, t, 0);
    FindAllShapes(LooseAnswer, t, 0);
    seq(|ms|, k requires 0 <= k < |ms| => LooseEntry(t, ms[k]))
  }

  lemma LooseEntryIs(t: string, k: nat)
    requires k < |FindAll(LooseAnswer, t, 0)|
    ensures var m := FindAll(LooseAnswer, t, 0)[k];
      && Framed(m, t, m.start, 2) && LooseShape(t, m)
      && LooseEntries(t)[k] == LooseEntry(t, m)
  {
    FindAllShapes(LooseAnswer, t, 0);
  }

  // --------------------------------------------------------- parse_answers

  /** What every record in the answer map satisfies. */
  predicate GoodRecord(r: AnswerRecord) {
    && IsAnswerLetter(r.correct)
    && (r.Tabled? ==> |r.explanation| >= MinExplanation && '*' !in r.explanation)
    && (r.Loose? ==> |r.turkish| <= LooseWindow && |r.english| <= LooseWindow)
  }

  /** The map the table rows build: the last row for an id wins. */
  function TableAnswers(t: string): (r: map<nat, AnswerRecord>)
    ensures r.Keys == Keys(TableEntries(t))
  {
    Assign(map[], TableEntries(t))
  }

  /** The answer map built from the normalised key text `t` (lines 134-189). */
  function AnswersOf(t: string): (r: map<nat, AnswerRecord>)
    ensures TableAnswers(t).Keys <= r.Keys
    ensures r.Keys <= Keys(TableEntries(t)) + Keys(LooseEntries(t))
    ensures |TableAnswers(t)| >= TableQuorum ==> r == TableAnswers(t)
  {
    var table := TableAnswers(t);
    if |table| < TableQuorum then Insert(table, LooseEntries(t)) else table
  }

  /** `parse_answers`: the whitespace of the key is collapsed first (line 131). */
  function ParseAnswers(text: string): (r: map<nat, AnswerRecord>)
    ensures forall k :: k in r ==> GoodRecord(r[k])
    ensures TableAnswers(Collapse(text)).Keys <= r.Keys
  {
    var t := Collapse(text);
    assert forall k :: k in AnswersOf(t) ==> GoodRecord(AnswersOf(t)[k]) by {
      forall k | k in AnswersOf(t) {
        AnswersGood(t, k);
      }
    }
    AnswersOf(t)
  }

  /** Every record of the answer map names a letter A-D and keeps the length bounds. */
  lemma AnswersGood(t: string, k: nat)
    requires k in AnswersOf(t)
    ensures GoodRecord(AnswersOf(t)[k])
  {
    var table := TableAnswers(t);
    if k in table {
      AssignFrom(map[], TableEntries(t), k);
    }
    if |table| < TableQuorum {
      if k in table {
        InsertKeeps(table, LooseEntries(t), k);
      } else {
        InsertFrom(table, LooseEntries(t), k);
      }
    }
  }

  /** A table row decides its id's record unless a later row has the same id. */
  lemma TableRowWins(t: string, j: nat)
    requires j < |TableEntries(t)|
    requires forall i :: j < i < |TableEntries(t)| ==> TableEntries(t)[i].0 != TableEntries(t)[j].0
    ensures TableEntries(t)[j].0 in AnswersOf(t)
    ensures AnswersOf(t)[TableEntries(t)[j].0] == TableEntries(t)[j].1
  {
    var es := TableEntries(t);
    AssignLast(map[], es, j);
    if |TableAnswers(t)| < TableQuorum {
      InsertKeeps(TableAnswers(t), LooseEntries(t), es[j].0);
    }
  }

  /** The loose scan never replaces what the table gave. */
  lemma TableNeverOverwritten(t: string, k: nat)
    requires k in TableAnswers(t)
    ensures AnswersOf(t)[k] == TableAnswers(t)[k]
    ensures AnswersOf(t)[k].Tabled?
  {
    AssignFrom(map[], TableEntries(t), k);
    if |TableAnswers(t)| < TableQuorum {
      InsertKeeps(TableAnswers(t), LooseEntries(t), k);
    }
  }

  /**
    The ids found: those of the table rows, and those of the loose matches
    only when the table gave fewer than ten.
   */
  lemma AnswerIds(t: string)
    ensures |TableAnswers(t)| < TableQuorum ==>
      AnswersOf(t).Keys == Keys(TableEntries(t)) + Keys(LooseEntries(t))
    ensures |TableAnswers(t)| >= TableQuorum ==> AnswersOf(t).Keys == Keys(TableEntries(t))
  {
    QuorumKeys(TableAnswers(t), LooseEntries(t), AnswersOf(t));
  }

  /** The keys of a map that takes the loose entries only below the quorum. */
  lemma QuorumKeys<V>(table: map<nat, V>, loose: seq<(nat, V)>, r: map<nat, V>)
    requires r == if |table| < TableQuorum then Insert(table, loose) else table
    ensures |table| < TableQuorum ==> r.Keys == table.Keys + Keys(loose)
    ensures |table| >= TableQuorum ==> r.Keys == table.Keys
  {
  }


  /** With ten or more table ids the loose scan does not run: every record is a table record. */
  lemma AllTabledAtQuorum(t: string, k: nat)
    requires |TableAnswers(t)| >= TableQuorum && k in AnswersOf(t)
    ensures AnswersOf(t)[k].Tabled?
  {
    TableNeverOverwritten(t, k);
  }

  /**
    Below the quorum, the first loose match for an id the table did not give
    decides that id's record.
   */
  lemma LooseFirstWins(t: string, j: nat)
    requires |TableAnswers(t)| < TableQuorum
    requires j < |LooseEntries(t)| && LooseEntries(t)[j].0 !in TableAnswers(t)
    requires forall i :: 0 <= i < j ==> LooseEntries(t)[i].0 != LooseEntries(t)[j].0
    ensures LooseEntries(t)[j].0 in AnswersOf(t)
    ensures AnswersOf(t)[LooseEntries(t)[j].0] == LooseEntries(t)[j].1
  {
    InsertFirst(TableAnswers(t), LooseEntries(t), j);
  }
}
