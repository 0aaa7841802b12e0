/**
  Choosing which questions a quiz uses: `get_questions_by_range`
  (entrepreneurship_quiz_v2.py lines 818-855). The deterministic branches are
  modelled exactly; for the two random branches the model states which list
  is sampled and how many questions are drawn.
 */
module RangeSelect {
  import opened Text
  import opened Numbers
  import opened Aggregate

  /** An error dialog the selection shows before falling back to every question. */
  datatype Dialog = Dialog(title: string, message: string)

  /**
    What the selection yields: a definite list, possibly after an error
    dialog, or a uniformly random sample of `size` distinct questions of
    `population`.
   */
  datatype Selection =
    | Chosen(questions: seq<QuestionRecord>, dialog: Option<Dialog>)
    | Sampled(population: seq<QuestionRecord>, size: nat)

  /** Lines 843-846: the range does not fit the `count` questions loaded. */
  function InvalidRange(count: nat): Dialog {
    Dialog("Invalid Range", "Please enter valid range (1 to " + NatToString(count) + ")")
  }

  /** Line 851: a bound that `int()` rejects. */
  const InvalidInput: Dialog := Dialog("Invalid Input", "Please enter valid numbers for custom range")

  /** `all_q[:n]`: the first `n` questions, or all of them when there are fewer. */
  function First(qs: seq<QuestionRecord>, n: nat): (r: seq<QuestionRecord>)
    ensures |r| == Min(n, |qs|)
    ensures r == qs[..|r|]
  {
    qs[..Min(n, |qs|)]
  }

  /** Line 849: the questions whose id lies in `lo..hi`, in their order. */
  function Between(qs: seq<QuestionRecord>, lo: int, hi: int): (r: seq<QuestionRecord>)
    ensures |r| <= |qs|
  {
    if |qs| == 0 then []
    else (if lo <= qs[0].id <= hi then [qs[0]] else []) + Between(qs[1..], lo, hi)
  }

  /** A question is selected exactly when it is loaded and its id lies in the range. */
  lemma {:induction false} BetweenMembers(qs: seq<QuestionRecord>, lo: int, hi: int, q: QuestionRecord)
    ensures q in Between(qs, lo, hi) <==> q in qs && lo <= q.id <= hi
  {
    if |qs| > 0 {
      BetweenMembers(qs[1..], lo, hi, q);
      assert qs == [qs[0]] + qs[1..];
    }
  }

  /** Filtering keeps the order: the selection of a concatenation is the concatenation of the selections. */
  lemma {:induction false} BetweenAppend(a: seq<QuestionRecord>, b: seq<QuestionRecord>, lo: int, hi: int)
    ensures Between(a + b, lo, hi) == Between(a, lo, hi) + Between(b, lo, hi)
  {
    if |a| == 0 {
      assert a + b == b;
    } else {
      assert (a + b)[0] == a[0] && (a + b)[1..] == a[1..] + b;
      BetweenAppend(a[1..], b, lo, hi);
    }
  }

  /** A list whose every id lies in the range is selected whole. */
  lemma {:induction false} BetweenWhole(qs: seq<QuestionRecord>, lo: int, hi: int)
    requires forall k :: 0 <= k < |qs| ==> lo <= qs[k].id <= hi
    ensures Between(qs, lo, hi) == qs
  {
    if |qs| > 0 {
      BetweenWhole(qs[1..], lo, hi);
    }
  }

  /** A list with no id in the range contributes nothing. */
  lemma {:induction false} BetweenNone(qs: seq<QuestionRecord>, lo: int, hi: int)
    requires forall k :: 0 <= k < |qs| ==> !(lo <= qs[k].id <= hi)
    ensures Between(qs, lo, hi) == []
  {
    if |qs| > 0 {
      BetweenNone(qs[1..], lo, hi);
    }
  }

  /** Questions numbered 1, 2, 3, ... in order, as a complete question sheet gives them. */
  predicate Numbered(qs: seq<QuestionRecord>) {
    forall k :: 0 <= k < |qs| ==> qs[k].id == k + 1
  }

  /**
    On a sheet numbered 1, 2, 3, ... the custom range `start..end` is the
    slice from the `start`-th to the `end`-th question.
   */
  lemma NumberedRange(qs: seq<QuestionRecord>, start: int, end: int)
    requires Numbered(qs)
    requires 1 <= start <= end <= |qs|
    ensures Between(qs, start, end) == qs[start - 1..end]
  {
    var before, inside, after := qs[..start - 1], qs[start - 1..end], qs[end..];
    assert qs == before + inside + after;
    BetweenAppend(before + inside, after, start, end);
    BetweenAppend(before, inside, start, end);
    BetweenNone(before, start, end);
    BetweenWhole(inside, start, end);
    BetweenNone(after, start, end);
  }

  /**
    `get_questions_by_range(range_type)` with the two custom-range entry
    texts. An unknown range type selects every question.
   */
  function Select(all: seq<QuestionRecord>, rangeType: string, customStart: string, customEnd: string)
    : (s: Selection)
    ensures rangeType == "all" ==> s == Chosen(all, None)
    ensures rangeType == "random_30" ==> s == Sampled(all, Min(30, |all|))
    ensures rangeType == "random_50" ==> s == Sampled(all, Min(50, |all|))
    ensures rangeType == "first_20" ==> s.Chosen? && s.dialog.None? && s.questions == all[..Min(20, |all|)]
    ensures rangeType == "first_50" ==> s.Chosen? && s.dialog.None? && s.questions == all[..Min(50, |all|)]
    ensures rangeType !in {"all", "random_30", "random_50", "first_20", "first_50", "custom"} ==> s == Chosen(all, None)
    ensures rangeType == "custom" ==> s == Custom(all, customStart, customEnd)
    ensures s.Sampled? ==> s.population == all && s.size <= |all|
    ensures s.Chosen? && s.dialog.Some? ==> rangeType == "custom" && s.questions == all
  {
    if rangeType == "all" then Chosen(all, None)
    else if rangeType == "random_30" then Sampled(all, Min(30, |all|))
    else if rangeType == "random_50" then Sampled(all, Min(50, |all|))
    else if rangeType == "first_20" then Chosen(First(all, 20), None)
    else if rangeType == "first_50" then Chosen(First(all, 50), None)
    else if rangeType == "custom" then Custom(all, customStart, customEnd)
    else Chosen(all, None)
  }

  /**
    The custom branch (lines 836-853): both bounds must parse as integers,
    else the "Invalid Input" dialog; a range outside `1..len(all)` or with
    `start > end` gives the "Invalid Range" dialog; in both cases every
    question is returned. Otherwise the questions whose id lies in the range.
   */
  function Custom(all: seq<QuestionRecord>, customStart: string, customEnd: string): (s: Selection)
    ensures s.Chosen?
    ensures s.dialog == Some(InvalidInput) <==> PyInt(customStart).None? || PyInt(customEnd).None?
    ensures s.dialog.Some? ==> s.questions == all
    ensures s.dialog == Some(InvalidRange(|all|)) <==>
      && PyInt(customStart).Some? && PyInt(customEnd).Some?
      && !(1 <= PyInt(customStart).value <= PyInt(customEnd).value <= |all|)
    ensures s.dialog.None? ==>
      && PyInt(customStart).Some? && PyInt(customEnd).Some?
      && 1 <= PyInt(customStart).value <= PyInt(customEnd).value <= |all|
      && s.questions == Between(all, PyInt(customStart).value, PyInt(customEnd).value)
      && forall q :: q in s.questions <==> q in all && PyInt(customStart).value <= q.id <= PyInt(customEnd).value
  {
    match (PyInt(customStart), PyInt(customEnd))
    case (Some(start), Some(end)) =>
      if start < 1 || end > |all| || start > end then Chosen(all, Some(InvalidRange(|all|)))
      else
        assert forall q :: q in Between(all, start, end) <==> q in all && start <= q.id <= end by {
          forall q {
            BetweenMembers(all, start, end, q);
          }
        }
        Chosen(Between(all, start, end), None)
    case _ => Chosen(all, Some(InvalidInput))
  }
}
