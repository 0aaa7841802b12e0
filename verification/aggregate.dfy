/**
  The aggregator of the extractor: the join loop of `extract_all_questions`
  (entrepreneurship_quiz_v2.py lines 304-362) and the built-in fallback
  records of `get_fallback_questions` (lines 387-416). Every parsed question
  becomes exactly one record, in order and duplicates included, with its
  answer letter and the two explanations looked up by id in the Turkish and
  English answer maps and, when it has an answer, the source fields merged in.
 */
module Aggregate {
  import opened Text
  import opened Normalise
  import opened QuestionParser
  import opened AnswerParser
  import opened SourceParser

  /**
    One question as the quiz consumes it. `source` holds the five fields
    merged from the source map (lines 334-341) when they were merged.
   */
  datatype QuestionRecord = QuestionRecord(
    id: nat,
    stem: string,
    options: Options,
    correct: char,
    turkish: string,
    english: string,
    source: Option<SourceRecord>)

  /** Line 320: the Turkish explanation when the Turkish map has none, as the source spells it. */
  const TurkishMissing: string := "A\U{221A}\U{DF}\U{192}\U{B1}klama mevcut de\U{192}\U{FC}il."

  /** Line 321: the English explanation when the English map has none. */
  const EnglishMissing: string := "Explanation not available."

  /** Line 351: the Turkish explanation of a question no answer map knows, as the source spells it. */
  const TurkishNoKey: string := "Cevap anahtar\U{192}\U{B1} PDF'de bulunamad\U{192}\U{B1}."

  /** Line 352: the English explanation of a question no answer map knows. */
  const EnglishNoKey: string := "Answer key not found in PDF."

  /**
    `answers.get(id, {}).get('explanation', placeholder)`: only a record
    from a table row has an `explanation` key; a loose record stores its
    text under other keys, so it yields the placeholder as well.
   */
  function ExplanationOf(answers: map<nat, AnswerRecord>, id: nat, placeholder: string): (e: string)
    ensures e != placeholder ==> id in answers && answers[id].Tabled? && e == answers[id].explanation
    ensures id in answers && answers[id].Tabled? ==> e == answers[id].explanation
    ensures !(id in answers && answers[id].Tabled?) ==> e == placeholder
  {
    if id in answers then
      match answers[id]
      case Tabled(_, explanation) => explanation
      case Loose(_, _, _) => placeholder
    else placeholder
  }

  /**
    One question joined with the answer and source maps (lines 313-353).
    The letter is the Turkish map's, else the English map's, else `A`; an id
    neither map knows gets `A`, the "answer key not found" texts and no
    source fields.
   */
  function Join(q: Question, turkish: map<nat, AnswerRecord>, english: map<nat, AnswerRecord>,
                sources: map<nat, SourceRecord>): (r: QuestionRecord)
    ensures r.id == q.id && r.stem == q.stem && r.options == q.options
    ensures q.id in turkish ==> r.correct == turkish[q.id].correct
    ensures q.id !in turkish && q.id in english ==> r.correct == english[q.id].correct
    ensures r.correct == 'A' <== q.id !in turkish && q.id !in english
    ensures q.id in turkish || q.id in english ==>
      && r.turkish == ExplanationOf(turkish, q.id, TurkishMissing)
      && r.english == ExplanationOf(english, q.id, EnglishMissing)
    ensures q.id !in turkish && q.id !in english ==> r.turkish == TurkishNoKey && r.english == EnglishNoKey
    ensures r.source.Some? <==> q.id in sources && (q.id in turkish || q.id in english)
    ensures r.source.Some? ==> r.source.value == sources[q.id]
  {
    var id := q.id;
    if id in turkish || id in english then
      var correct := if id in turkish then turkish[id].correct
                     else english[id].correct;
      QuestionRecord(id, q.stem, q.options, correct,
                     ExplanationOf(turkish, id, TurkishMissing),
                     ExplanationOf(english, id, EnglishMissing),
                     if id in sources then Some(sources[id]) else None)
    else
      QuestionRecord(id, q.stem, q.options, 'A', TurkishNoKey, EnglishNoKey, None)
  }

  /** An id that neither answer map knows: the source logs a warning for it (line 354). */
  predicate Unanswered(id: nat, turkish: map<nat, AnswerRecord>, english: map<nat, AnswerRecord>) {
    id !in turkish && id !in english
  }

  /** The joined records of `qs`, one per question and in the same order. */
  function JoinAll(qs: seq<Question>, turkish: map<nat, AnswerRecord>, english: map<nat, AnswerRecord>,
                   sources: map<nat, SourceRecord>): (rs: seq<QuestionRecord>)
    ensures |rs| == |qs|
    ensures forall k :: 0 <= k < |qs| ==> rs[k] == Join(qs[k], turkish, english, sources)
  {
    seq(|qs|, k requires 0 <= k < |qs| => Join(qs[k], turkish, english, sources))
  }

  /** The ids of the questions that no answer map knows, in order (the warnings of line 354). */
  function UnansweredIds(qs: seq<Question>, turkish: map<nat, AnswerRecord>,
                         english: map<nat, AnswerRecord>): (ids: seq<nat>)
    ensures |ids| <= |qs|
    ensures forall k :: 0 <= k < |ids| ==> Unanswered(ids[k], turkish, english)
  {
    if |qs| == 0 then []
    else (if Unanswered(qs[0].id, turkish, english) then [qs[0].id] else []) + UnansweredIds(qs[1..], turkish, english)
  }

  /** An id is warned about exactly when some question carries it and neither answer map knows it. */
  lemma {:induction false} UnansweredMembers(qs: seq<Question>, turkish: map<nat, AnswerRecord>,
                                             english: map<nat, AnswerRecord>, id: nat)
    ensures id in UnansweredIds(qs, turkish, english)
        <==> Unanswered(id, turkish, english) && exists k :: 0 <= k < |qs| && qs[k].id == id
  {
    if |qs| > 0 {
      UnansweredMembers(qs[1..], turkish, english, id);
      if exists k :: 0 <= k < |qs[1..]| && qs[1..][k].id == id {
        var k :| 0 <= k < |qs[1..]| && qs[1..][k].id == id;
        assert qs[k + 1].id == id;
      }
      if exists k :: 0 <= k < |qs| && qs[k].id == id {
        var k :| 0 <= k < |qs| && qs[k].id == id;
        if k > 0 {
          assert qs[1..][k - 1].id == id;
        }
      }
    }
  }

  /**
    The join loop of lines 311-354, written as the loop it is: one record
    appended per question, and a warning for each question without an answer.
   */
  method Combine(qs: seq<Question>, turkish: map<nat, AnswerRecord>, english: map<nat, AnswerRecord>,
                 sources: map<nat, SourceRecord>)
    returns (records: seq<QuestionRecord>, warnings: seq<nat>)
    ensures records == JoinAll(qs, turkish, english, sources)
    ensures warnings == UnansweredIds(qs, turkish, english)
  {
    records, warnings := [], [];
    var k := 0;
    while k < |qs|
      invariant 0 <= k <= |qs|
      invariant records == JoinAll(qs[..k], turkish, english, sources)
      invariant warnings == UnansweredIds(qs[..k], turkish, english)
    {
      var q := qs[k];
      JoinAllSnoc(qs, k, turkish, english, sources);
      UnansweredSnoc(qs, k, turkish, english);
      records := records + [Join(q, turkish, english, sources)];
      if Unanswered(q.id, turkish, english) {
        warnings := warnings + [q.id];
      }
      k := k + 1;
    }
    assert qs[..k] == qs;
  }

  lemma JoinAllSnoc(qs: seq<Question>, k: nat, turkish: map<nat, AnswerRecord>, english: map<nat, AnswerRecord>,
                    sources: map<nat, SourceRecord>)
    requires k < |qs|
    ensures JoinAll(qs[..k + 1], turkish, english, sources)
         == JoinAll(qs[..k], turkish, english, sources) + [Join(qs[k], turkish, english, sources)]
  {
    assert JoinAll(qs[..k + 1], turkish, english, sources)[k] == Join(qs[..k + 1][k], turkish, english, sources);
  }

  /** The warnings of a concatenation are the warnings of its parts, in order. */
  lemma {:induction false} UnansweredAppend(a: seq<Question>, b: seq<Question>,
                                            turkish: map<nat, AnswerRecord>, english: map<nat, AnswerRecord>)
    ensures UnansweredIds(a + b, turkish, english) == UnansweredIds(a, turkish, english) + UnansweredIds(b, turkish, english)
  {
    if |a| > 0 {
      TailAppend(a, b);
      UnansweredAppend(a[1..], b, turkish, english);
      var head := if Unanswered(a[0].id, turkish, english) then [a[0].id] else [];
      assert UnansweredIds(a + b, turkish, english) == head + UnansweredIds(a[1..] + b, turkish, english);
      assert UnansweredIds(a, turkish, english) == head + UnansweredIds(a[1..], turkish, english);
      AppendAssoc(head, UnansweredIds(a[1..], turkish, english), UnansweredIds(b, turkish, english));
    } else {
      assert a + b == b;
    }
  }

  lemma TailAppend<T>(a: seq<T>, b: seq<T>)
    requires |a| > 0
    ensures (a + b)[0] == a[0] && (a + b)[1..] == a[1..] + b
  {
  }

  lemma AppendAssoc<T>(a: seq<T>, b: seq<T>, c: seq<T>)
    ensures a + (b + c) == (a + b) + c
  {
  }

  lemma UnansweredSnoc(qs: seq<Question>, k: nat, turkish: map<nat, AnswerRecord>, english: map<nat, AnswerRecord>)
    requires k < |qs|
    ensures UnansweredIds(qs[..k + 1], turkish, english)
         == UnansweredIds(qs[..k], turkish, english)
          + (if Unanswered(qs[k].id, turkish, english) then [qs[k].id] else [])
  {
    assert qs[..k + 1] == qs[..k] + [qs[k]];
    UnansweredAppend(qs[..k], [qs[k]], turkish, english);
    assert [qs[k]][1..] == [];
  }

  // ------------------------------------------------------------ fallback

  /** The stems, options and explanations of the two fallback records (lines 389-415). */
  const FirstStem: string :=
    "One of the most significant economic developments in recent business history relates to the ________."
  const FirstOptions: Options :=
    Options("growth of blue-chip corporations",
            "development of Pacific Rim countries",
            "entrepreneurial spirit",
            "additional employment opportunities offered by government institutions")
  const FirstTurkish: string :=
    "Son i\U{2248}\U{FC} tarihi boyunca en \U{221A}\U{2202}nemli ekonomik geli\U{2248}\U{FC}melerden biri "
    + "giri\U{2248}\U{FC}imcilik ruhuyla ilgilidir."
  const FirstEnglish: string :=
    "The entrepreneurial spirit has been one of the most significant economic developments in recent "
    + "business history, driving innovation, job creation, and economic growth."
  const SecondStem: string := "The profile of an entrepreneur includes ________."
  const SecondOptions: Options :=
    Options("a desire for responsibility and moderate risk",
            "confidence in the ability to succeed and determination",
            "a high level of energy, a desire for immediate feedback and a future orientation",
            "All the above")
  const SecondTurkish: string :=
    "Bir giri\U{2248}\U{FC}imcinin profilinde sorumluluk arzusu, \U{192}\U{B1}l\U{192}\U{B1}ml\U{192}\U{B1} "
    + "risk tercihi, ba\U{2248}\U{FC}arabilece\U{192}\U{FC}ine dair g\U{221A}\U{BA}ven, "
    + "kararl\U{192}\U{B1}l\U{192}\U{B1}k, y\U{221A}\U{BA}ksek enerji seviyesi bulunur."
  const SecondEnglish: string :=
    "An entrepreneur's profile encompasses all these characteristics: desire for responsibility, "
    + "moderate risk preference, confidence, determination, high energy levels, desire for "
    + "immediate feedback, and future orientation."

  /** The two records `get_fallback_questions` returns (lines 387-416). */
  function Fallback(): (rs: seq<QuestionRecord>)
    ensures |rs| == 2 && rs[0].id == 1 && rs[1].id == 2
    ensures rs[0].correct == 'C' && rs[1].correct == 'D'
    ensures forall k :: 0 <= k < 2 ==> rs[k].source.None?
  {
    [ QuestionRecord(1, FirstStem, FirstOptions, 'C', FirstTurkish, FirstEnglish, None),
      QuestionRecord(2, SecondStem, SecondOptions, 'D', SecondTurkish, SecondEnglish, None) ]
  }

  // --------------------------------------------------------- the pipeline

  /**
    What a record shown by the quiz always has: a non-empty stem, a letter
    among A-D and two non-empty explanations.
   */
  predicate Presentable(r: QuestionRecord) {
    && r.stem != ""
    && IsAnswerLetter(r.correct)
    && r.turkish != "" && r.english != ""
  }

  /**
    `extract_all_questions` after text extraction: the question-sheet text,
    the Turkish and English answer-key texts, and the source-mapping text when
    that document exists. An empty question text, or no record at all, gives
    the fallback pair (lines 271-273 and 360-362).
   */
  function Extract(questions: string, turkish: string, english: string, sourceText: Option<string>)
    : (rs: seq<QuestionRecord>)
    ensures |rs| >= 1
    ensures questions == "" || |ParseQuestions(questions)| == 0 ==> rs == Fallback()
    ensures questions != "" && |ParseQuestions(questions)| > 0 ==>
      rs == JoinAll(ParseQuestions(questions), ParseAnswers(turkish), ParseAnswers(english),
                    if sourceText.Some? then ParseSources(sourceText.value) else map[])
  {
    if questions == "" then Fallback()
    else
      var qs := ParseQuestions(questions);
      var sources := if sourceText.Some? then ParseSources(sourceText.value) else map[];
      var rs := JoinAll(qs, ParseAnswers(turkish), ParseAnswers(english), sources);
      if |rs| == 0 then Fallback() else rs
  }

  /** A parsed question joined with two parsed answer maps is presentable. */
  lemma JoinPresentable(q: Question, t: string, e: string, sources: map<nat, SourceRecord>)
    requires GoodQuestion(q)
    ensures Presentable(Join(q, AnswersOf(t), AnswersOf(e), sources))
  {
    if q.id in AnswersOf(t) {
      AnswersGood(t, q.id);
    }
    if q.id in AnswersOf(e) {
      AnswersGood(e, q.id);
    }
  }

  /**
    Every record the pipeline hands to the quiz, parsed or fallback, has a
    stem, a letter among A-D and both explanations.
   */
  lemma ExtractPresentable(questions: string, turkish: string, english: string, sourceText: Option<string>, k: nat)
    requires k < |Extract(questions, turkish, english, sourceText)|
    ensures Presentable(Extract(questions, turkish, english, sourceText)[k])
  {
    var qs := ParseQuestions(questions);
    if questions != "" && |qs| > 0 {
      var sources := if sourceText.Some? then ParseSources(sourceText.value) else map[];
      JoinPresentable(qs[k], Collapse(turkish), Collapse(english), sources);
    }
  }
}
